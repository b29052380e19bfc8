/** Failure-carrying results used in place of Go's `error` return values. */
module Wrappers {

  /** A value that may be absent. */
  datatype Option<+T> = None | Some(value: T)

  /** The outcome of a check that yields no value: Go's `error`, nil meaning Pass. */
  datatype Outcome<+E> = Pass | Fail(error: E)

  /** A value or an error: Go's `(T, error)` pair, where a non-nil error comes with a nil value. */
  datatype Result<+T, +E> = Ok(value: T) | Err(error: E)
}
