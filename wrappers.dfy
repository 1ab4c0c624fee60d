/** Small result types shared by the other modules. */
module Wrappers {
  /** A value that may be absent; `None` stands for PHP's `null` where a lookup finds nothing. */
  datatype Option<+T> = None | Some(value: T)

  /** The outcome of an operation that can raise an exception in the source. */
  datatype Result<+T, +E> = Success(value: T) | Failure(error: E)
}
