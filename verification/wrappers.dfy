/** Failure-carrying datatypes shared by the model: Go's `(T, error)` pairs and
    nil-able pointers are written as `Result` and `Option`. */
module Wrappers {

  /** A value that may be absent (a nil pointer, an empty channel, a nil error). */
  datatype Option<+T> = None | Some(value: T)

  /** Either a value or the error that replaced it; a failure never carries a partial value. */
  datatype Result<+R, +E> = Success(value: R) | Failure(error: E)
}
