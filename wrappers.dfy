/** Option and Result types shared by the modules of this model. */
module Wrappers {

  datatype Option<+T> = None | Some(value: T) {
    function GetOr(default: T): T {
      match this
      case Some(v) => v
      case None => default
    }
  }

  /** The outcome of an operation that can raise: a value, or the error it raises. */
  datatype Result<+T, +E> = Success(value: T) | Failure(error: E)
}
