/** Optional values and results with an error, as used by the whole model. */
module Wrappers {

  /** A value that may be absent: JavaScript's `null` / `undefined`. */
  datatype Option<+T> = None | Some(value: T)

  /** A value or the message of the exception thrown instead of it. */
  datatype Result<+T, +E> = Success(value: T) | Failure(error: E)
}
