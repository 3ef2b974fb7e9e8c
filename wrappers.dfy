/** Optional values and error-carrying results used across the model. */
module Wrappers {

  /** A value that may be missing: stored data that is absent or unreadable is None. */
  datatype Option<+T> = None | Some(value: T)

  /** The outcome of an operation that can be refused. */
  datatype Result<+R, +E> = Success(value: R) | Failure(error: E)
}
