/** Optional values and error returns shared by the solver modules. */
module Wrappers {

  /** A value that may be missing: the source's `None`. */
  datatype Option<T> = None | Some(value: T)

  /** A value or the error the source raises instead of returning it. */
  datatype Result<T, E> = Success(value: T) | Failure(error: E)
}
