/** Option and Result, the failure-carrying values used across the model. */
module Wrappers {

  /** An optional value: `None` stands for Python's `None` or a Java `null`. */
  datatype Option<+T> = None | Some(value: T)

  /** The outcome of an operation that may raise: `Err` carries the exception. */
  datatype Result<+T, +E> = Ok(value: T) | Err(error: E)
}
