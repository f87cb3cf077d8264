/** The foreground colour `TimeCellRenderer` gives the Time cell of a row,
    decided afresh at every repaint from the row and the current local
    date-time.

    The renderer reads the status with `table.getValueAt(row, 1)`, which
    indexes the columns as the view shows them. The model reads the row's
    Status cell, which is the same only while the columns keep their initial
    order. */
module TimeColour {
  import opened Options
  import opened DateTime
  import opened TaskTable

  /** `Color.GRAY`, `Color.GREEN.darker()`, `Color.RED` and `Color.BLACK`. */
  datatype Colour = Gray | DarkGreen | Red | Black

  /** Complete rows and rows without a due time are gray; a due time still
      ahead of `now` is green, one reached or passed is red, and a Time text
      that does not parse is black. */
  function TimeForeground(row: Row, now: Stamp, parse: Parser): (c: Colour)
    ensures c == Gray <==> IsComplete(row) || row.time == NO_TIME
    ensures c == Black <==> !IsComplete(row) && row.time != NO_TIME && !ValidDateTime(parse, row.time)
    ensures c == DarkGreen <==> !IsComplete(row) && row.time != NO_TIME && ValidDateTime(parse, row.time)
                                && now < parse(row.time).value
    ensures c == Red <==> !IsComplete(row) && row.time != NO_TIME && ValidDateTime(parse, row.time)
                          && parse(row.time).value <= now
  {
    if IsComplete(row) then Gray
    else if row.time != NO_TIME then
      match parse(row.time)
      case Some(due) => if now < due then DarkGreen else Red
      case None => Black
    else Gray
  }

  /** The due date-time itself already counts as overdue. */
  lemma DueInstantIsRed(row: Row, parse: Parser)
    requires !IsComplete(row) && row.time != NO_TIME
    requires ValidDateTime(parse, row.time)
    ensures TimeForeground(row, parse(row.time).value, parse) == Red
  {
  }

  /** An overdue row is still overdue at any later local date-time: moving
      `now` forward never turns it back to green or gray. */
  lemma OverdueStaysOverdue(row: Row, now: Stamp, later: Stamp, parse: Parser)
    requires now <= later
    requires TimeForeground(row, now, parse) == Red
    ensures TimeForeground(row, later, parse) == Red
  {
  }

  /** A green row turns red at any local date-time at or after its due time,
      with no change to the table. */
  lemma UpcomingTurnsOverdue(row: Row, now: Stamp, later: Stamp, parse: Parser)
    requires TimeForeground(row, now, parse) == DarkGreen
    requires parse(row.time).value <= later
    ensures TimeForeground(row, later, parse) == Red
  {
  }

  /** Black is a fallback for text that does not parse; no row of a table
      that satisfies the invariant is ever drawn black. */
  lemma NoBlackInWellFormedTable(rows: Table, now: Stamp, parse: Parser)
    requires TableOk(parse, rows)
    ensures forall k :: 0 <= k < |rows| ==> TimeForeground(rows[k], now, parse) != Black
  {
  }

  /** After `completeTask` the selected row's time is drawn gray (while the
      Status column is still second in the view). */
  lemma CompletedRowIsGray(rows: Table, sel: nat, now: Stamp, parse: Parser)
    requires sel < |rows|
    ensures TimeForeground(CompleteTask(rows, sel)[sel], now, parse) == Gray
  {
  }

  /** Validation and rendering parse with the same pattern: an incomplete
      row with a due time is drawn black exactly when its Time text would
      fail `isValidDateTime`. */
  lemma BlackIffInvalid(row: Row, now: Stamp, parse: Parser)
    requires !IsComplete(row) && row.time != NO_TIME
    ensures TimeForeground(row, now, parse) == Black <==> !ValidDateTime(parse, row.time)
  {
  }
}
