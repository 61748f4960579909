/** Option and Result, the two failure-compatible wrappers used throughout the model. */
module Wrappers {

  /** A value that may be absent: pandas' NaN in a value column, or an omitted argument. */
  datatype Option<+T> = None | Some(value: T)

  /** The outcome of an operation that raises in the source. */
  datatype Result<+R, +E> = Success(value: R) | Failure(error: E)
}
