/** The task table of `Main.java`: an ordered sequence of rows with the
    columns Task, Status and Time, and the event handlers that change it:
    four buttons (Enter in a text field also adds) and a double-click on a
    row, which edits it.

    Each handler is a pure transition from the table before the event to the
    table after it. The row selected in the view (`-1` when nothing is
    selected), the text fields, the time toggle and the answers of the input
    dialogs are parameters. */
module TaskTable {
  import opened Options
  import opened Text
  import opened DateTime

  /** The two texts ever written to the Status column. */
  const INCOMPLETE: string := "Incomplete"
  const COMPLETE: string := "Complete"

  /** The text in the Time column of a row added without a due time. */
  const NO_TIME: string := "No time set"

  datatype Row = Row(description: string, status: string, time: string)

  type Table = seq<Row>

  /** The table the application starts with: no rows. */
  const EMPTY: Table := []

  /** The shape every row written by the handlers has. */
  predicate RowOk(parse: Parser, row: Row) {
    && row.description != []
    && IsTrimmed(row.description)
    && (row.status == INCOMPLETE || row.status == COMPLETE)
    && (row.time == NO_TIME || ValidDateTime(parse, row.time))
  }

  predicate TableOk(parse: Parser, rows: Table) {
    forall k :: 0 <= k < |rows| ==> RowOk(parse, rows[k])
  }

  predicate IsComplete(row: Row) {
    row.status == COMPLETE
  }

  // ---------------------------------------------------------------- addTask

  /** The row `addTask` would append, or `None` when it shows an error
      dialog instead: the trimmed description is empty, or the time toggle
      is on and the trimmed time text does not parse. */
  function NewRow(taskField: string, timeField: string, timeToggle: bool, parse: Parser): (r: Option<Row>)
    ensures r.Some? <==> !IsBlank(taskField) && (timeToggle ==> ValidDateTime(parse, Trim(timeField)))
    ensures r.Some? ==> r.value.description == Trim(taskField) && r.value.status == INCOMPLETE
    ensures r.Some? && timeToggle ==> r.value.time == Trim(timeField)
    ensures r.Some? && !timeToggle ==> r.value.time == NO_TIME
  {
    var taskText := Trim(taskField);
    var timeText := Trim(timeField);
    if taskText == [] then None
    else if timeToggle then
      if ValidDateTime(parse, timeText) then Some(Row(taskText, INCOMPLETE, timeText)) else None
    else Some(Row(taskText, INCOMPLETE, NO_TIME))
  }

  /** `addTask`: appends the new row at the end, or leaves the table as it
      is when the input is rejected. */
  function AddTask(rows: Table, taskField: string, timeField: string, timeToggle: bool, parse: Parser): (r: Table)
    ensures IsBlank(taskField) ==> r == rows
    ensures timeToggle && !ValidDateTime(parse, Trim(timeField)) ==> r == rows
    ensures !IsBlank(taskField) && (timeToggle ==> ValidDateTime(parse, Trim(timeField))) ==>
      && |r| == |rows| + 1
      && r[..|rows|] == rows
      && r[|rows|] == Row(Trim(taskField), INCOMPLETE, if timeToggle then Trim(timeField) else NO_TIME)
  {
    match NewRow(taskField, timeField, timeToggle, parse)
    case None => rows
    case Some(row) => rows + [row]
  }

  // ------------------------------------------------------------- deleteTask

  /** `deleteTask`: removes the selected row; later rows move up one place. */
  function DeleteTask(rows: Table, sel: int): (r: Table)
    requires sel < |rows|
    ensures sel < 0 ==> r == rows
    ensures 0 <= sel ==> |r| == |rows| - 1
    ensures 0 <= sel ==> forall k :: 0 <= k < sel ==> r[k] == rows[k]
    ensures 0 <= sel ==> forall k :: sel <= k < |r| ==> r[k] == rows[k + 1]
  {
    if sel >= 0 then rows[..sel] + rows[sel + 1..] else rows
  }

  // ----------------------------------------------------------- completeTask

  /** `completeTask`: writes "Complete" into the Status cell of the selected
      row and nothing else. */
  function CompleteTask(rows: Table, sel: int): (r: Table)
    requires sel < |rows|
    ensures |r| == |rows|
    ensures forall k :: 0 <= k < |rows| && k != sel ==> r[k] == rows[k]
    ensures 0 <= sel ==> IsComplete(r[sel])
    ensures 0 <= sel ==> r[sel].description == rows[sel].description && r[sel].time == rows[sel].time
  {
    if sel >= 0 then rows[sel := rows[sel].(status := COMPLETE)] else rows
  }

  // --------------------------------------------------- deleteCompletedTasks

  /** Reference definition: the rows whose status is not "Complete", in
      their original order. */
  function Unfinished(rows: Table): (r: Table)
    ensures |r| <= |rows|
    ensures forall k :: 0 <= k < |r| ==> !IsComplete(r[k])
  {
    if rows == [] then []
    else (if IsComplete(rows[0]) then [] else [rows[0]]) + Unfinished(rows[1..])
  }

  /** The filter keeps exactly the rows that are not complete: every row it
      returns comes from `rows`, and every row of `rows` that is not complete
      is among them. */
  lemma {:induction false} UnfinishedMembers(rows: Table, row: Row)
    ensures row in Unfinished(rows) <==> row in rows && !IsComplete(row)
  {
    if rows != [] {
      UnfinishedMembers(rows[1..], row);
      assert rows == [rows[0]] + rows[1..];
    }
  }

  /** Filtering a concatenation filters each part: the filter keeps the
      relative order of the rows it keeps. */
  lemma {:induction false} UnfinishedAppend(a: Table, b: Table)
    ensures Unfinished(a + b) == Unfinished(a) + Unfinished(b)
  {
    if a == [] {
      assert a + b == b;
    } else {
      assert (a + b)[1..] == a[1..] + b;
      UnfinishedAppend(a[1..], b);
    }
  }

  /** Every row that is not complete survives, so the filter removes exactly
      as many rows as are complete. */
  lemma {:induction false} UnfinishedCount(rows: Table)
    ensures |Unfinished(rows)| + CountComplete(rows) == |rows|
  {
    if rows != [] {
      UnfinishedCount(rows[1..]);
    }
  }

  function CountComplete(rows: Table): nat {
    if rows == [] then 0 else (if IsComplete(rows[0]) then 1 else 0) + CountComplete(rows[1..])
  }

  /** `deleteCompletedTasks`: walks the rows from the last to the first and
      removes each complete one, so a removal never shifts a row that is
      still to be visited. */
  method DeleteCompletedTasks(rows: Table) returns (r: Table)
    ensures r == Unfinished(rows)
  {
    r := rows;
    var i := |rows| - 1;
    assert rows[|rows|..] == [];
    while i >= 0
      invariant -1 <= i < |rows|
      invariant r == rows[..i + 1] + Unfinished(rows[i + 1..])
    {
      ghost var kept := Unfinished(rows[i + 1..]);
      UnfinishedStep(rows, i);
      assert r == rows[..i] + [rows[i]] + kept by {
        assert rows[..i + 1] == rows[..i] + [rows[i]];
      }
      if IsComplete(r[i]) {
        RemoveMiddle(rows[..i], rows[i], kept);
        r := r[..i] + r[i + 1..];
      }
      i := i - 1;
    }
    assert rows[0..] == rows;
  }

  /** Removing the element between two pieces leaves the two pieces. */
  lemma RemoveMiddle(p: Table, x: Row, q: Table)
    ensures (p + [x] + q)[..|p|] + (p + [x] + q)[|p| + 1..] == p + q
  {
  }

  /** One step of the backward walk: the filter of a suffix starting at `i`
      is the filter of row `i` followed by the filter of the rest. */
  lemma UnfinishedStep(rows: Table, i: nat)
    requires i < |rows|
    ensures Unfinished(rows[i..]) == (if IsComplete(rows[i]) then [] else [rows[i]]) + Unfinished(rows[i + 1..])
  {
    assert rows[i..][1..] == rows[i + 1..];
  }

  // --------------------------------------------------------------- editTask

  /** The Task cell after the first dialog of `editTask`: the trimmed answer
      when one was given and is not blank, otherwise the old text. */
  function EditDescription(description: string, answer: Option<string>): (r: string)
    ensures answer.Some? && !IsBlank(answer.value) ==> r == Trim(answer.value)
    ensures answer.None? || IsBlank(answer.value) ==> r == description
  {
    if answer.Some? && Trim(answer.value) != [] then Trim(answer.value) else description
  }

  /** The Time cell after the second dialog of `editTask`. A row without a
      due time is never asked, so it keeps "No time set"; otherwise the
      trimmed answer replaces the time only when it is not blank and parses. */
  function EditTime(time: string, answer: Option<string>, parse: Parser): (r: string)
    ensures time == NO_TIME ==> r == NO_TIME
    ensures r != time ==> answer.Some? && r == Trim(answer.value) && r != [] && ValidDateTime(parse, r)
    ensures time != NO_TIME && answer.Some? && ValidDateTime(parse, Trim(answer.value)) && !IsBlank(answer.value)
      ==> r == Trim(answer.value)
  {
    if time != NO_TIME && answer.Some? && Trim(answer.value) != [] && ValidDateTime(parse, Trim(answer.value))
    then Trim(answer.value)
    else time
  }

  /** `editTask`: with a row selected, applies the description dialog and then
      the time dialog to it; the two edits are independent. */
  function EditTask(rows: Table, sel: int, taskAnswer: Option<string>, timeAnswer: Option<string>, parse: Parser): (r: Table)
    requires sel < |rows|
    ensures |r| == |rows|
    ensures forall k :: 0 <= k < |rows| ==> r[k].status == rows[k].status
    ensures forall k :: 0 <= k < |rows| && k != sel ==> r[k] == rows[k]
    ensures 0 <= sel ==> r[sel].description == EditDescription(rows[sel].description, taskAnswer)
    ensures 0 <= sel ==> r[sel].time == EditTime(rows[sel].time, timeAnswer, parse)
  {
    if sel >= 0 then
      var row := rows[sel];
      rows[sel := row.(description := EditDescription(row.description, taskAnswer),
                       time := EditTime(row.time, timeAnswer, parse))]
    else rows
  }
}

/** Properties that relate the handlers of `TaskTable` to each other and to
    the row invariant. */
module TaskTableLemmas {
  import opened Options
  import opened Text
  import opened DateTime
  import opened TaskTable

  /** The application starts from a table that satisfies the invariant. */
  lemma EmptyTableOk(parse: Parser)
    ensures TableOk(parse, EMPTY)
  {
  }

  lemma AddTaskPreservesInvariant(rows: Table, taskField: string, timeField: string, timeToggle: bool, parse: Parser)
    requires TableOk(parse, rows)
    ensures TableOk(parse, AddTask(rows, taskField, timeField, timeToggle, parse))
  {
  }

  /** Deleting the row just added gives back the table before the addition. */
  lemma DeleteUndoesAdd(rows: Table, taskField: string, timeField: string, timeToggle: bool, parse: Parser)
    requires !IsBlank(taskField)
    requires timeToggle ==> ValidDateTime(parse, Trim(timeField))
    ensures DeleteTask(AddTask(rows, taskField, timeField, timeToggle, parse), |rows|) == rows
  {
  }

  lemma DeleteTaskPreservesInvariant(rows: Table, sel: int, parse: Parser)
    requires sel < |rows|
    requires TableOk(parse, rows)
    ensures TableOk(parse, DeleteTask(rows, sel))
  {
  }

  /** Rows are addressed by position: deleting at the same position twice
      removes two neighbouring rows. */
  lemma DeleteTwiceAtSamePosition(rows: Table, i: nat)
    requires i + 1 < |rows|
    ensures DeleteTask(DeleteTask(rows, i), i) == rows[..i] + rows[i + 2..]
  {
  }

  lemma CompleteTaskPreservesInvariant(rows: Table, sel: int, parse: Parser)
    requires sel < |rows|
    requires TableOk(parse, rows)
    ensures TableOk(parse, CompleteTask(rows, sel))
  {
  }

  /** Completing a row that is already complete changes nothing. */
  lemma CompleteTaskIdempotent(rows: Table, sel: int)
    requires sel < |rows|
    ensures CompleteTask(CompleteTask(rows, sel), sel) == CompleteTask(rows, sel)
  {
  }

  /** No handler but `deleteTask` and `deleteCompletedTasks` ever makes a
      complete row incomplete: completion only moves forward. */
  lemma CompletionIsPermanent(rows: Table, sel: int, taskAnswer: Option<string>, timeAnswer: Option<string>,
                              taskField: string, timeField: string, timeToggle: bool, parse: Parser, k: nat)
    requires sel < |rows| && k < |rows|
    requires IsComplete(rows[k])
    ensures IsComplete(AddTask(rows, taskField, timeField, timeToggle, parse)[k])
    ensures IsComplete(CompleteTask(rows, sel)[k])
    ensures IsComplete(EditTask(rows, sel, taskAnswer, timeAnswer, parse)[k])
  {
  }

  /** Completing row `i` and then deleting the completed rows removes row `i`
      together with the rows that were complete already. */
  lemma CompleteThenPurge(rows: Table, i: nat)
    requires i < |rows|
    ensures Unfinished(CompleteTask(rows, i)) == Unfinished(rows[..i]) + Unfinished(rows[i + 1..])
  {
    var done := CompleteTask(rows, i);
    assert done == rows[..i] + [done[i]] + rows[i + 1..];
    UnfinishedAppend(rows[..i] + [done[i]], rows[i + 1..]);
    UnfinishedAppend(rows[..i], [done[i]]);
    assert Unfinished([done[i]]) == [] by {
      assert [done[i]][1..] == [];
    }
  }

  /** What `deleteCompletedTasks` leaves satisfies the invariant: it only
      keeps rows of the table it was given. */
  lemma DeleteCompletedPreservesInvariant(rows: Table, parse: Parser)
    requires TableOk(parse, rows)
    ensures TableOk(parse, Unfinished(rows))
  {
    var r := Unfinished(rows);
    forall k | 0 <= k < |r|
      ensures RowOk(parse, r[k])
    {
      UnfinishedMembers(rows, r[k]);
    }
  }

  /** Deleting the completed rows a second time removes nothing more. */
  lemma {:induction false} UnfinishedIdempotent(rows: Table)
    ensures Unfinished(Unfinished(rows)) == Unfinished(rows)
  {
    if rows != [] {
      UnfinishedIdempotent(rows[1..]);
      var head := if IsComplete(rows[0]) then [] else [rows[0]];
      UnfinishedAppend(head, Unfinished(rows[1..]));
      assert Unfinished(head) == head by {
        if head != [] {
          assert head[1..] == [];
        }
      }
    }
  }

  lemma EditTaskPreservesInvariant(rows: Table, sel: int, taskAnswer: Option<string>, timeAnswer: Option<string>, parse: Parser)
    requires sel < |rows|
    requires TableOk(parse, rows)
    ensures TableOk(parse, EditTask(rows, sel, taskAnswer, timeAnswer, parse))
  {
  }

  /** A row added without a due time never gains one through `editTask`,
      whatever the dialogs answer. */
  lemma EditNeverAddsTime(rows: Table, sel: int, taskAnswer: Option<string>, timeAnswer: Option<string>, parse: Parser)
    requires 0 <= sel < |rows|
    requires rows[sel].time == NO_TIME
    ensures EditTask(rows, sel, taskAnswer, timeAnswer, parse)[sel].time == NO_TIME
  {
  }
}
