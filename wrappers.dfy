/** Failure-carrying wrappers shared by the model. */
module Wrappers {

  /** A value that may be absent: Python's `None` or a value. */
  datatype Option<+T> = None | Some(value: T)

  /** A computed value, or the error a call raises. */
  datatype Result<+T, +E> = Ok(value: T) | Err(error: E)

  /** A check that returns nothing on success and raises on failure. */
  datatype Outcome<+E> = Pass | Fail(error: E)
}
