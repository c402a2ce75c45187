/**
 * Option and Result, used where the Go code returns `(value, error)` pairs,
 * a nil interface, or reaches a run-time panic.
 */
module Wrappers {

  datatype Option<+T> = None | Some(value: T)

  datatype Result<+T, +E> = Ok(value: T) | Err(error: E)
}
