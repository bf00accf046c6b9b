/** Optional values and results with an error, shared by the other modules. */
module Wrappers {

  /** Ruby's `nil` or a present value. */
  datatype Option<+T> = None | Some(value: T)

  /** A value, or the error that the Ruby code would have raised. */
  datatype Result<+T, +E> = Success(value: T) | Failure(error: E)
}
