/** Option and Result, the failure-carrying values used across the model. */
module Wrappers {

  datatype Option<+T> = None | Some(value: T)

  /** The value of a computation, or the exception it raised. */
  datatype Result<+R, +E> = Success(value: R) | Failure(error: E)
}
