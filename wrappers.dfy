/** Option and Result, for the error paths of the source (a function that
    has no defined result, an exception thrown to the caller). */
module Wrappers {

  datatype Option<+T> = None | Some(value: T)

  datatype Result<+T, +E> = Success(value: T) | Failure(error: E)
}
