/** Optional values and results, shared by every module of the model. */
module Wrappers {

  /** A value that may be absent: stands in for a JavaScript `null`/`undefined`. */
  datatype Option<+T> = None | Some(value: T)

  /** Either a value or an error. */
  datatype Result<+R, +E> = Success(value: R) | Failure(error: E)
}
