/** Failure-carrying values used in place of the C++ exceptions and null results. */
module Wrappers {

  datatype Option<+T> = None | Some(value: T)

  /** A value, or the error an operation raised instead of returning it. */
  datatype Result<+R, +E> = Success(value: R) | Failure(error: E)
}
