/** Failure-carrying datatypes used throughout the model. */
module Wrappers {

  /** An optional value: the source's `None` or a present value. */
  datatype Option<+T> = None | Some(value: T)

  /** The outcome of an operation that the source may abort with an exception. */
  datatype Result<+R, +E> = Success(value: R) | Failure(error: E)
}
