/** Failure-carrying datatypes shared by the model. */
module Wrappers {

  /** A value that may be missing: `None` stands for a NaN entry of a series. */
  datatype Option<+T> = None | Some(value: T)

  /** The value of an operation, or the error it raises. */
  datatype Result<+R, +E> = Success(value: R) | Failure(error: E)

  /** A check that either passes or fails with an error. */
  datatype Outcome<+E> = Pass | Fail(error: E)
}
