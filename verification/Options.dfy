/** A value that may be missing: Python's None in a return position. */
module Options {
  datatype Option<+T> = None | Some(value: T)
}
