/** Option and Result values used for Go's nil pointers and (value, error) returns. */
module Wrappers {

  /** A value that may be absent: Go's nil pointer or the "ok" flag of a lookup. */
  datatype Option<+T> = None | Some(value: T)

  /** The outcome of an operation that returns either a value or an error. */
  datatype Result<+T, +E> = Ok(value: T) | Err(error: E)
}
