/** Small shared vocabulary: an optional value. */
module Base {

  /** A value that may be absent (Python's `None` or a raised lookup). */
  datatype Option<+T> = None | Some(value: T)

}
