/** Optional values (PHP `null` or a value) and results (a value or a thrown exception). */
module Wrappers {

  /** `None` stands for PHP's `null`. */
  datatype Option<+T> = None | Some(value: T)

  /** `Failure` stands for an exception thrown by the operation. */
  datatype Result<+T, +E> = Success(value: T) | Failure(error: E)
}
