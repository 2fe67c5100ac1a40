/** Optional values and results with an error, as the rest of the model uses them. */
module Wrappers {

  /** A value that may be absent: Python's `None`, SQL's NULL. */
  datatype Option<+T> = None | Some(value: T)

  /** The outcome of an operation that can raise. */
  datatype Result<+T, +E> = Success(value: T) | Failure(error: E)
}
