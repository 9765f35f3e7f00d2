/** Option and Result values for the source's `null` returns and thrown errors. */
module Optional {

  /** A value that may be absent: the source's `T | null`. */
  datatype Option<+T> = None | Some(value: T)

  /** The outcome of an operation that may throw: a value, or the error it throws. */
  datatype Result<+T, +E> = Success(value: T) | Failure(error: E)
}
