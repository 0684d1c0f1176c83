/** Failure-compatible wrappers used throughout the model: a Python value that may be
    `None`, and an outcome that is either a value or the exception that ended the call. */
module Wrappers {

  datatype Option<+T> = None | Some(value: T)

  datatype Result<+T, +E> = Success(value: T) | Failure(error: E)
}
