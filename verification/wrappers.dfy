/** Optional values and success/failure results shared by the other modules. */
module Wrappers {

  /** A value that may be absent, as a Go `nil` slice or pointer may be. */
  datatype Option<+T> = None | Some(value: T)

  /** The outcome of an operation that can fail with an error of type `E`. */
  datatype Result<+T, +E> = Success(value: T) | Failure(error: E)
}
