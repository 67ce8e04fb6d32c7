/** Failure-carrying datatypes used throughout the model. */
module Wrappers {

  /** A value that may be absent: `NaN` parameters and unparseable cells become `None`. */
  datatype Option<+T> = None | Some(value: T)

  /** The outcome of an operation that can fail with a user-facing message. */
  datatype Result<+R, +E> = Success(value: R) | Failure(error: E)
}
