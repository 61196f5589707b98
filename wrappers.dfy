/** Option and Result, the two wrappers the rest of the model returns. */
module Wrappers {

  /** A value that may be absent: SQL NULL, a missing row, a JavaScript `null`. */
  datatype Option<T> = None | Some(value: T)
  {
    function GetOr(default: T): T
    {
      match this
      case None => default
      case Some(v) => v
    }
  }

  /** The outcome of an operation that either succeeds or throws an `Error` with a message. */
  datatype Result<T, E> = Success(value: T) | Failure(error: E)
  {
    predicate IsFailure() { Failure? }
  }
}
