/** Option and Result: a missing (null) value and an operation that threw. */
module Wrappers {

  datatype Option<+T> = None | Some(value: T) {
    function GetOr(default: T): T {
      match this
      case Some(v) => v
      case None => default
    }
  }

  datatype Result<+T, +E> = Ok(value: T) | Fail(error: E) {
    /** The value, with the failure forgotten. */
    function ToOption(): Option<T> {
      match this
      case Ok(v) => Some(v)
      case Fail(_) => None
    }
  }
}
