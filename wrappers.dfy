/** Optional values and results with an error, shared by the other modules. */
module Wrappers {

  /** A value that may be absent (a missing key of a partial object). */
  datatype Option<+T> = None | Some(value: T)

  /** The outcome of an operation that either returns a value or throws. */
  datatype Result<+T, +E> = Success(value: T) | Failure(error: E)
}
