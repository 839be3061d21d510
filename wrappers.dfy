/** Option and Result datatypes used throughout the model. */
module Wrappers {

  /** A value that may be absent: Python's `None`, or pandas' failed coercion. */
  datatype Option<+T> = None | Some(value: T)

  /** The outcome of a step that can raise: `Ok` carries the value, `Err` the exception. */
  datatype Result<+T, +E> = Ok(value: T) | Err(error: E)
}
