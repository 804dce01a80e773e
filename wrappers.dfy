/** Option and Result, the shapes in which the model reports absence and errors
    where the Go code returns `nil` or a non-nil `error`. */
module Wrappers {

  datatype Option<+T> = None | Some(value: T)

  datatype Result<+T, +E> = Success(value: T) | Failure(error: E)
}
