/** A value that may be missing: Python's `Optional`. */
module Options {
  datatype Option<+T> = None | Some(value: T)
}
