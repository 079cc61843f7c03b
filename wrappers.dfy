/** Failure-carrying values used where the source returns `None` or raises. */
module Wrappers {

  /** Python's `None` or a value. */
  datatype Option<+T> = None | Some(value: T)

  /** A value, or the error the source would raise instead of returning it. */
  datatype Result<+R, +E> = Success(value: R) | Failure(error: E)
}
