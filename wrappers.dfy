/** Option and Result datatypes used across the model. */
module Wrappers {

  /** An optional value: `Some(value)` or `None`. */
  datatype Option<+T> = None | Some(value: T)

  /** The outcome of a fallible step: a value, or the error that aborts the program. */
  datatype Result<+T, +E> = Ok(value: T) | Err(error: E)
}
