module Options {
  /** A value that may be missing: a null pointer, or the end of a list. */
  datatype Option<+T> = None | Some(value: T)
}
