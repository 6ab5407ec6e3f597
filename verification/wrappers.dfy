/** Java's nullable references and thrown exceptions, made explicit. */
module Wrappers {

  /** `None` stands for Java's `null`; `Some(v)` for a reference to `v`. */
  datatype Option<+T> = None | Some(value: T)

  /** A Java call either returns a value of type `T` or throws an exception of type `E`. */
  datatype Outcome<+T, +E> = Returned(value: T) | Threw(exception: E)
}
