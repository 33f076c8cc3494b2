/** Optional values and results shared by the model. */
module Wrappers {

  /** A value that may be absent: PHP's `false`/`null` returns, JavaScript's `null` or `NaN`. */
  datatype Option<+T> = None | Some(value: T)

  /** A value or the error that was raised instead. */
  datatype Result<+R, +E> = Success(value: R) | Failure(error: E)
}
