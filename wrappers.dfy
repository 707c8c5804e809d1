/** Option and Result, the two failure-carrying wrappers used throughout the model. */
module Wrappers {

  /** A value that may be absent (Python's `None`). */
  datatype Option<+T> = None | Some(value: T)

  /** The outcome of an operation that raises an exception in the original program. */
  datatype Result<+T, +E> = Success(value: T) | Failure(error: E)
}
