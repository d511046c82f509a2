/** Failure-carrying wrappers used throughout the model. */
module Wrappers {

  /** A value that may be missing; stands for a Go nil slice or pointer. */
  datatype Option<+T> = None | Some(value: T)

  /** The outcome of an operation that returns a value or an error. */
  datatype Result<+R, +E> = Success(value: R) | Failure(error: E)
}
