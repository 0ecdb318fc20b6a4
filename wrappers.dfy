/** Optional values and results: PHP's `?T` return types and thrown exceptions. */
module Wrappers {
  /** `null` (None) or a value. */
  datatype Option<+T> = None | Some(value: T)

  /** A normal return (Success) or a thrown exception (Failure). */
  datatype Result<+R, +E> = Success(value: R) | Failure(error: E)
}
