/** Optional values and results with an error, used across the model. */
module Wrappers {

  /** A value that may be absent (Python's `None`). */
  datatype Option<+T> = None | Some(value: T)

  /** The outcome of an operation that can fail with a message. */
  datatype Result<+R> = Success(value: R) | Failure(error: string)
}
