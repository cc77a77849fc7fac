/** Option and Result, the failure-carrying values that replace Python's
    `None` and raised exceptions throughout the model. */
module Wrappers {

  datatype Option<+T> = None | Some(value: T)

  /** A parser's outcome: a value, or the error the Python code raises. */
  datatype Result<+T, +E> = Success(value: T) | Failure(error: E)
}
