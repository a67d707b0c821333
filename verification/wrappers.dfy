/** Failure-carrying values used to model Python's `None` and raised exceptions. */
module Wrappers {

  /** An optional value (Python's `None` or a value). */
  datatype Option<+T> = None | Some(value: T)

  /** The outcome of a call that may raise: a value, or the raised error. */
  datatype Result<+T, +E> = Ok(value: T) | Err(error: E)
}
