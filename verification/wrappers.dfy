/** Option and Result, the two failure-carrying datatypes the model uses for
    the optional nonce of a transaction and for the outcome of every call. */
module Wrappers {

  /** A value that may be absent; a transaction's nonce field. */
  datatype Option<+T> = None | Some(value: T)

  /** Either a value or an error; the return of every fallible call. */
  datatype Result<+R, +E> = Success(value: R) | Failure(error: E)
}
