/** A value that may be missing, and an outcome that may be an error. */
module Options {
  datatype Option<+T> = None | Some(value: T)
}
