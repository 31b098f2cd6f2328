/** Small failure-carrying datatypes used across the model. */
module Wrappers {

  /** A value that may be absent: the model's stand-in for a nullable pointer. */
  datatype Option<+T> = None | Some(value: T)

  /** Either a computed value or the status that stopped the computation. */
  datatype Result<+T, +E> = Success(value: T) | Failure(error: E)
}
