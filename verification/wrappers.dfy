/** Failure-carrying result types shared by the model. */
module Wrappers {

  datatype Option<+T> = None | Some(value: T)

  /** Either a value or the error that stopped its computation (a raised exception in the source). */
  datatype Result<+T, +E> = Success(value: T) | Failure(error: E)
}
