/** Failure-compatible wrapper types used throughout the binout model. */
module Wrappers {

  /** A value that may be absent (a NULL pointer in the C library, a nil in Go). */
  datatype Option<+T> = None | Some(value: T)

  /** Either a value or an error message, the shape of Go's `(T, error)` returns. */
  datatype Result<+T> = Ok(value: T) | Err(msg: string)
}
