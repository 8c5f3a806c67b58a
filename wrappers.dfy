/** Option and result types used across the model. */
module Wrappers {

  /** A value that may be absent: a lookup miss, a field that is not there. */
  datatype Option<+T> = None | Some(value: T)

  /** The outcome of an operation that either returns a value or raises. */
  datatype Result<+T, +E> = Success(value: T) | Failure(error: E)
}
