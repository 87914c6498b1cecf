/** Option and Result, used for the missing marker and for the failing tuple unpacking. */
module Wrappers {

  /** None stands for the missing marker (pandas' NaN). */
  datatype Option<+T> = None | Some(value: T)

  /** The outcome of an operation that can raise. */
  datatype Result<+R, +E> = Success(value: R) | Failure(error: E)
}
