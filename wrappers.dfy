/** Failure-carrying results used by the importer for PHP exceptions and error returns. */
module Wrappers {

  datatype Option<+T> = None | Some(value: T)

  /** A computed value, or the error an exception would have carried. */
  datatype Result<+R, +E> = Success(value: R) | Failure(error: E)

  /** Success without a value, or the error an exception would have carried. */
  datatype Outcome<+E> = Pass | Fail(error: E)
}
