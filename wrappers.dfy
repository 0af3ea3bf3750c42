/** Option and Result, the two failure-carrying datatypes the model uses. */
module Wrappers {

  datatype Option<+T> = None | Some(value: T)

  /** A value or the error a C++ constructor would have thrown instead. */
  datatype Result<+R, +E> = Success(value: R) | Failure(error: E)
}
