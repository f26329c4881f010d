/** Optional values, standing for the nil-able pointers of the Go document model, and error returns. */
module Wrappers {

  datatype Option<+T> = None | Some(value: T)

  /** A Go `(T, error)` return: either a value or the error. */
  datatype Result<+T, +E> = Ok(value: T) | Err(error: E)
}
