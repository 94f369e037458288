/** Option, Result and Outcome: how the model returns a Python `None` and a raised exception. */
module Wrappers {

  datatype Option<+T> = None | Some(value: T)

  datatype Result<+R, +E> = Success(value: R) | Failure(error: E)

  /** The outcome of an operation that returns nothing on success (`-> None` in Python). */
  datatype Outcome<+E> = Pass | Fail(error: E)
}
