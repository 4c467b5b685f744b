/** Optional values and error results shared by the model. */
module Wrappers {

  /** A value that may be missing: a NULL column, a NaN cell, Python's None. */
  datatype Option<+T> = None | Some(value: T)

  /** The outcome of an operation that can raise. */
  datatype Result<+T, +E> = Success(value: T) | Failure(error: E)
}
