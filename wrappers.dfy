/** Option and Result, used for the null returns and the exceptions of the library. */
module Wrappers {
  datatype Option<T> = None | Some(value: T)

  /** An operation that either succeeds or throws, as `IllegalArgumentException` does. */
  datatype Result<T> = Success(value: T) | Failure(error: string)
}
