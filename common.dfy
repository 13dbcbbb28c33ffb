/** Optional values and results with an error, as used throughout the model. */
module Common {

  /** A value that may be absent (a cookie that was not sent, a NULL column). */
  datatype Option<+T> = None | Some(value: T)

  /** The outcome of a parse: the parsed value or the reason it was refused. */
  datatype Result<+T, +E> = Success(value: T) | Failure(error: E)
}
