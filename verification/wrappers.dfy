/** Optional values and results shared by the model. */
module Wrappers {

  /** A value that may be absent: the outcome of a lookup that can fail. */
  datatype Option<+T> = None | Some(value: T)

  /** Either a value or the error that prevented computing it. */
  datatype Result<+R, +E> = Success(value: R) | Failure(error: E)
}
