/** The optional value used for dialog results (`null` when a dialog is
    cancelled) and for the outcome of parsing a date-time text. */
module Options {

  datatype Option<+T> = None | Some(value: T)
}
