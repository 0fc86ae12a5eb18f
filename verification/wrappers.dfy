/** Optional values and error-carrying results, standing in for Go's nil slices
    and `(value, error)` return pairs. */
module Wrappers {

  /** `None` plays the role of a Go nil slice. */
  datatype Option<+T> = None | Some(value: T)

  /** The outcome of an operation that returns a value or an error. */
  datatype Result<+T, +E> = Success(value: T) | Failure(error: E)
}
