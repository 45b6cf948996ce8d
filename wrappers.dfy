/** Failure-compatible wrappers used across the model. */
module Wrappers {

  /** `None` stands for "nothing" / "an exception was raised". */
  datatype Option<+T> = None | Some(value: T)

  /** `Failure` carries the exception the Python code would raise. */
  datatype Result<+R, +E> = Success(value: R) | Failure(error: E)
}
