/** The date-time format `yyyy-MM-dd HH:mm` used by the time column.

    Parsing belongs to the Java library (`LocalDateTime.parse` with the
    default SMART resolver), so it is a parameter of the model: a `Parser`
    maps a text to the local date-time it denotes, or to `None` when the
    library throws `DateTimeParseException`. A local date-time is its position
    on the local date-time line (no time zone), so the library's `isBefore` is
    `<` on `Stamp`. */
module DateTime {
  import opened Options

  /** A `LocalDateTime`, as a position on the local date-time line. */
  type Stamp = int

  /** `LocalDateTime.parse(text, ofPattern("yyyy-MM-dd HH:mm"))`. */
  type Parser = string -> Option<Stamp>

  /** `isValidDateTime`: the text parses under the fixed pattern. */
  predicate ValidDateTime(parse: Parser, text: string) {
    parse(text).Some?
  }
}
