/** Failure-compatible wrappers shared by the whole model. */
module Wrappers {

  /** An optional value; a missing timestamp (pandas `NaT`) is `None`. */
  datatype Option<+T> = None | Some(value: T)

  /** Either a computed value or the error the source would raise. */
  datatype Result<+T, +E> = Success(value: T) | Failure(error: E)
}
