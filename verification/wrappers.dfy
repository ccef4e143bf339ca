/** Option and Result, the two failure-carrying shapes the model uses. */
module Wrappers {

  /** `undefined`/`null`, or a present value. */
  datatype Option<+T> = None | Some(value: T)

  /** A computation that either produced a value or failed with an error. */
  datatype Result<+R, +E> = Success(value: R) | Failure(error: E)
}
