/** Values shared by the route handlers: optional values, results, and the
    symbolic outcome of the date parser every handler calls. */
module Common {

  /** A JavaScript value that may be `undefined` (or `null` where the two are
      treated alike). */
  datatype Option<+T> = None | Some(value: T)

  /** The outcome of an operation that may throw. */
  datatype Result<+T, +E> = Ok(value: T) | Err(error: E)

  /** `parseDate(text)`: date parsing is an external utility, so a date is
      represented by the text it was parsed from. */
  datatype Date = ParsedDate(source: string)
}
