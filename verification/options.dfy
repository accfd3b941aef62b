/** Arguments a caller may leave out. */
module Options {

  /** An argument the caller may leave out (Python's `None`). */
  datatype Option<+T> = None | Some(value: T)
}
