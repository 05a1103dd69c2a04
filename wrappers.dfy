/** Option and Result, the two failure-carrying datatypes the model uses. */
module Wrappers {

  datatype Option<+T> = None | Some(value: T)

  /** The outcome of a check that either yields a value or names what failed. */
  datatype Result<+T, +E> = Success(value: T) | Failure(error: E)
}
