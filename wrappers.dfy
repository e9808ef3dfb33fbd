/** Optional values and error results used throughout the model. */
module Wrappers {

  /** `undefined` versus a present value. */
  datatype Option<+T> = None | Some(value: T) {
    function GetOr(default: T): T {
      match this
      case Some(v) => v
      case None => default
    }
  }

  /** A value, or the error the source throws instead of returning. */
  datatype Result<+T, +E> = Ok(value: T) | Err(error: E)
}
