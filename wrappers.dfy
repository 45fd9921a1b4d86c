/** Optional values and results with an error, shared by the other modules. */
module Wrappers {

  /** A value that may be missing; stands for Go's nil pointer results. */
  datatype Option<+T> = None | Some(value: T)

  /** A value or an error, as Go's `(value, error)` return pairs. */
  datatype Result<+T, +E> = Success(value: T) | Failure(error: E)
}
