/** Option and Result, the failure-carrying values used across the model. */
module Wrappers {

  datatype Option<+T> = None | Some(value: T)

  /** The outcome of an operation that either succeeds with a value or fails with an error kind. */
  datatype Result<+R, +E> = Success(value: R) | Failure(error: E)
}
