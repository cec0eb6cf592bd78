/** Option and Result, the two failure-carrying datatypes the engine model uses. */
module Wrappers {

  /** Python's `x | None`: `None` or `Some(value)`. */
  datatype Option<+T> = None | Some(value: T)

  /** The outcome of an operation that may raise: `Ok(value)` or `Err(error)`. */
  datatype Result<+T, +E> = Ok(value: T) | Err(error: E)
}
