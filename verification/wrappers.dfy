/** Failure-carrying values used by the review service model. */
module Wrappers {

  /** A value that may be absent, as a nullable column is. */
  datatype Option<+T> = None | Some(value: T)

  /** Either the value an operation produced or the error it raised. */
  datatype Result<+R, +E> = Success(value: R) | Failure(error: E)
}
