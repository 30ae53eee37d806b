/** Failure-compatible wrappers used throughout the model. */
module Wrappers {

  /** A value that may be absent (Python's `None`). */
  datatype Option<+T> = None | Some(value: T)

  /** Either a computed value or the message of the exception raised instead. */
  datatype Result<+T, +E> = Success(value: T) | Failure(error: E)
}
