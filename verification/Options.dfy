/** A value that may be missing: Python's `T | None`. */
module Options {
  datatype Option<+T> = None | Some(value: T)
}
