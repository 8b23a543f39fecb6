/** Optional values and success/failure results used throughout the model. */
module Wrappers {

  /** A value that may be absent: PHP's `null` in a request field or a lookup. */
  datatype Option<+T> = None | Some(value: T)

  /** The outcome of an operation that can be refused. */
  datatype Result<+R, +E> = Success(value: R) | Failure(error: E)
}
