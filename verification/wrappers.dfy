/** Wrappers used by the scheduler model: an optional value
    and a value-or-error result. */
module Wrappers {

  /** A value that may be absent (PHP's `null` or `false` return). */
  datatype Option<+T> = None | Some(value: T)

  /** A value, or the error an operation throws instead of returning. */
  datatype Result<+R, +E> = Success(value: R) | Failure(error: E)
}
