/** Option stands for a reference that may be null; Result for an operation
    that either produces a value or throws one of the source's exceptions. */
module Wrappers {

  datatype Option<+T> = None | Some(value: T)

  datatype Result<+R, +E> = Success(value: R) | Failure(error: E)
}
