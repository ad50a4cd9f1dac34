/** Failure-carrying datatypes used throughout the model. */
module Wrappers {

  /** A value that may be absent: pandas' NaN / Python's None. */
  datatype Option<+T> = None | Some(value: T)

  /** The outcome of a computation that may raise. */
  datatype Result<+R, +E> = Success(value: R) | Failure(error: E)
}
