/** Optional-value and value-or-error datatypes shared by the other modules. */
module Wrappers {

  /** An optional value, as Python's `None | T`. */
  datatype Option<+T> = None | Some(value: T)

  /** A value or the error a Python function would have raised instead. */
  datatype Result<+R, +E> = Success(value: R) | Failure(error: E)
}
