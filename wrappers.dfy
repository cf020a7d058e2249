/** Small failure-carrying datatypes shared by the other modules. */
module Wrappers {

  /** A nullable value: a database NULL, or an anonymous vote author. */
  datatype Option<+T> = None | Some(value: T)

  /** The outcome of an operation that may fail with a Python exception. */
  datatype Result<+T, +E> = Success(value: T) | Failure(error: E)
}
