/** Failure-carrying result types used across the model. */
module Wrappers {

  /** An optional value. */
  datatype Option<+T> = None | Some(value: T)

  /** A computation that either produced a value or raised an error. */
  datatype Result<+R, +E> = Success(value: R) | Failure(error: E)

  /** A check that either passed or failed with an error, carrying no value. */
  datatype Outcome<+E> = Pass | Fail(error: E)
}
