/** Optional values and results with an error, as used throughout the model. */
module Wrappers {

  /** Python's `None` or a present value. */
  datatype Option<+T> = None | Some(value: T)

  /** The outcome of a computation that may raise: a value, or the raised error. */
  datatype Result<+R, +E> = Success(value: R) | Failure(error: E)
}
