/** Failure-carrying values shared by every module of the model. */
module Wrappers {

  /** A value that may be absent: pandas' NaN / Python's None. */
  datatype Option<+T> = None | Some(value: T)

  /** The outcome of an operation that may fail with a reason. */
  datatype Result<+T, +E> = Success(value: T) | Failure(error: E)
}
