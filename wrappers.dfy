/** Optional values and results with an error value, shared by the other modules. */
module Wrappers {

  /** A value that may be absent: an empty form field, a missing row. */
  datatype Option<+T> = None | Some(value: T)

  /** The outcome of validating input: a cleaned value or a description of what failed. */
  datatype Result<+R, +E> = Success(value: R) | Failure(error: E)
}
