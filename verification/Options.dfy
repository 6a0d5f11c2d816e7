/** An optional value: Python's and TypeScript's "value or nothing". */
module Options {
  datatype Option<+T> = None | Some(value: T)
}
