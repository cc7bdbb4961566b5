/** An optional value (a Ruby value that may be nil) and a computation that
    either succeeds or stops with an error. */
module Wrappers {

  /** A value that may be absent, like a Ruby value that may be nil. */
  datatype Option<+T> = None | Some(value: T)

  /** Either a value or the error that stopped the computation. */
  datatype Result<+R, +E> = Success(value: R) | Failure(error: E)
}
