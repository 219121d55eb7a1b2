/** Small failure-carrying datatypes shared by every module of the model. */
module Wrappers {

  /** Python's `Optional[T]`: `None` or a present value. */
  datatype Option<+T> = None | Some(value: T)

  /** The value of an operation that either succeeds or raises one of a
      closed set of errors. */
  datatype Result<+T, +E> = Success(value: T) | Failure(error: E)
}
