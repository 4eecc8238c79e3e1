/** Failure-carrying values shared by every module of the model. */
module Wrappers {

  datatype Option<+T> = None | Some(value: T)

  datatype Result<+T, +E> = Success(value: T) | Failure(error: E)

  /** A result with no value: the step either passed or failed with an error. */
  datatype Outcome<+E> = Pass | Fail(error: E)
}
