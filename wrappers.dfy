/** Optional values and success-or-error results, used for Python's `None` and raised exceptions. */
module Wrappers {

  datatype Option<+T> = None | Some(value: T)

  /** `Failure(message)` stands for an exception whose `str()` is `message`. */
  datatype Result<+R, +E> = Success(value: R) | Failure(error: E)
}
