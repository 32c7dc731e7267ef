/** Failure-carrying values used in place of the source's exceptions. */
module Wrappers {

  datatype Option<+T> = None | Some(value: T)

  /** A computation that produced a value or raised an error. */
  datatype Result<+R, +E> = Success(value: R) | Failure(error: E)

  /** A computation that only succeeds or raises an error. */
  datatype Outcome<+E> = Pass | Fail(error: E)
}
