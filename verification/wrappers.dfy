/** Optional values and results, standing for the nullable references and exceptions of the host API. */
module Wrappers {

  /** `None` plays the role of a `null` reference; `Some(v)` a present one. */
  datatype Option<+T> = None | Some(value: T)

  /** `Failure(e)` plays the role of an exception thrown instead of a value returned. */
  datatype Result<+R, +E> = Success(value: R) | Failure(error: E)
}
