/** Optional values and results shared by every module of the model. */
module Wrappers {

  /** An optional value; `None` stands for an unset field or a missing key. */
  datatype Option<+T> = None | Some(value: T) {
    function GetOr(default: T): T {
      match this
      case Some(v) => v
      case None => default
    }
  }

  /** The outcome of an operation whose source raises an exception. */
  datatype Result<+T> = Success(value: T) | Failure(error: string)
}
