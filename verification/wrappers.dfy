/** Failure-compatible wrappers shared by every module of the model. */
module Wrappers {

  /** A value that may be absent: the model of a Go nil pointer or a missing map entry. */
  datatype Option<+T> = None | Some(value: T)

  /** The value of a Go function that returns `(T, error)`. */
  datatype Result<+T, +E> = Success(value: T) | Failure(error: E)

  /** The value of a Go function that returns only an `error`. */
  datatype Outcome<+E> = Pass | Fail(error: E)
}
