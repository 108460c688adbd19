/** The value-or-error wrapper that stands for Python's raise/except in the model. */
module Wrappers {

  /** Either the value an operation computed or the error it raised. */
  datatype Result<+T, +E> = Ok(value: T) | Err(error: E)
}
