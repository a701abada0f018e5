/** Failure-compatible wrappers used throughout the model: `Option` for
    "absent / no request" answers and `Result` for Python exceptions. */
module Wrappers {

  datatype Option<+T> = None | Some(value: T) {

    /** The value, or `default` when absent (Python's `dict.get(k, default)`). */
    function GetOr(default: T): T {
      match this
      case Some(v) => v
      case None => default
    }
  }

  /** `Failure` stands for an exception raised by the modelled code. */
  datatype Result<+R, +E> = Success(value: R) | Failure(error: E)
}
