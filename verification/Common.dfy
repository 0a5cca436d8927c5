/** Small types shared by the models. */
module Common {

  /** A value that may be absent. An operation that reaches the kernel's `halt()` returns `None`. */
  datatype Option<+T> = None | Some(value: T)
}
