/** Option and Result: `null`-or-value and value-or-error, as the registry's callers see them. */
module Wrappers {

  /** A value that may be absent (the source's `null`/`undefined`). */
  datatype Option<+T> = None | Some(value: T)

  /** A value, or the error a throwing accessor raises instead. */
  datatype Result<+T, +E> = Success(value: T) | Failure(error: E)
}
