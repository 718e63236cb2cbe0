/** Optional values and error-carrying results shared by every module. */
module Wrappers {

  /** A value that may be absent (a missing cell of the table). */
  datatype Option<T> = None | Some(value: T)

  /** A computation that either succeeds or stops with an error, as an exception would. */
  datatype Result<T, E> = Ok(value: T) | Err(error: E)
}
