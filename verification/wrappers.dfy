/** Failure-compatible wrappers used throughout the model: `Option` stands for
    a JavaScript value that may be `null`/`undefined`, `Result` for an
    operation that either yields a value or throws / reports a message. */
module Wrappers {

  datatype Option<+T> = None | Some(value: T) {

    /** The wrapped value, or `default` when there is none. */
    function GetOr(default: T): T {
      match this
      case Some(v) => v
      case None => default
    }
  }

  datatype Result<+R, +E> = Success(value: R) | Failure(error: E)
}
