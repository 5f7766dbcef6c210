/** Failure-carrying result types shared by every component of the model. */
module Wrappers {

  /** Python's Optional value. */
  datatype Option<+T> = None | Some(value: T)

  /** A computation that returns a value or raises an error. */
  datatype Result<+T, +E> = Ok(value: T) | Err(error: E)
}
