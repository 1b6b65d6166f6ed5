/** Option and Result: the model's stand-in for Python's `None`
    and for a raised exception. */
module Wrappers {

  /** A value or nothing: the `str | None` and `date | None` results of the extractors. */
  datatype Option<+T> = None | Some(value: T)

  /** A value or a fault that the caller must never show to a user. */
  datatype Result<+R, +E> = Success(value: R) | Failure(error: E)
}
