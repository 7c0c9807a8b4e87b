/** Failure-carrying datatypes shared by the model. */
module Wrappers {

  /** A value that may be absent (a Go map miss, a failed parse). */
  datatype Option<+T> = None | Some(value: T)

  /** Either a value or an error. */
  datatype Result<+R, +E> = Success(value: R) | Failure(error: E)
}
