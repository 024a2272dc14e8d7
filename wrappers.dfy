/** Failure-compatible wrappers used throughout the model. */
module Wrappers {

  /** An optional value: Go's "value, ok" pairs and nil pointers. */
  datatype Option<T> = None | Some(value: T)

  /** A computation that either yields a value or fails with an error. */
  datatype Result<T, E> = Success(value: T) | Failure(error: E)
}
