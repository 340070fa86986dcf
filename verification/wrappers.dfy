/** Failure-carrying wrappers shared by every module of the model. */
module Wrappers {

  /** An optional value: the model's stand-in for Go's `value, ok` pairs. */
  datatype Option<+T> = None | Some(value: T) {
    function GetOr(default: T): T
    {
      match this
      case Some(v) => v
      case None => default
    }
  }

  /** Either a value or the error that stopped the computation. */
  datatype Result<+R, +E> = Success(value: R) | Failure(error: E)
}
