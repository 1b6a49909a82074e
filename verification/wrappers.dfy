/** Failure-carrying values used in place of Python's NaN cells and raised exceptions. */
module Wrappers {

  /** A cell that may be unset (NaN in the source's numeric matrices). */
  datatype Option<+T> = None | Some(value: T)

  /** The outcome of a step that either produces a value or raises an error. */
  datatype Result<+R, +E> = Success(value: R) | Failure(error: E)

  /** The outcome of a check that produces nothing on success. */
  datatype Outcome<+E> = Pass | Fail(error: E)
}
