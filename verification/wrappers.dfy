/** The Option and Result types used throughout the model: `Option` for values
    Python represents with `None`, and `Result` for a computation that either
    yields a value or raises. */
module Wrappers {

  /** A value that may be absent, the model of Python's `Optional[T]`. */
  datatype Option<+T> = None | Some(value: T) {

    /** The wrapped value, or `default` when there is none. */
    function GetOr(default: T): T
    {
      match this
      case Some(v) => v
      case None => default
    }
  }

  /** The outcome of a step that may raise: its value, or the kind of error. */
  datatype Result<+T, +E> = Success(value: T) | Failure(error: E)
}
