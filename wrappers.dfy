/** Option and Result, for PHP's nullable values and thrown exceptions. */
module Wrappers {

  /** A value that may be absent: PHP's `null` is `None`. */
  datatype Option<+T> = None | Some(value: T)

  /** The outcome of an operation that PHP would end by throwing an exception. */
  datatype Result<+R, +E> = Success(value: R) | Failure(error: E)
}
