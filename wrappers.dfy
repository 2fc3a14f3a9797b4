/** Option and Result types shared by the rest of the model. */
module Wrappers {

  datatype Option<+T> = None | Some(value: T)

  /** A Go `(value, error)` pair where a non-nil error comes with a nil value. */
  datatype Result<+T, +E> = Success(value: T) | Failure(error: E)
}
