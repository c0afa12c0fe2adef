/** Success/failure values for the Go functions that return `(T, error)` or `error`. */
module Wrappers {

  /** The result of a Go function returning `(T, error)`: a value or an error. */
  datatype Result<+T, +E> = Ok(value: T) | Err(error: E)

  /** The result of a Go function returning only `error`: `nil` or an error. */
  datatype Outcome<+E> = Pass | Fail(error: E)
}
