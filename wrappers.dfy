/** Optional values and results: the model's stand-in for `undefined`/`null` and for a call that threw. */
module Wrappers {

  datatype Option<+T> = None | Some(value: T) {
    function GetOr(default: T): T {
      match this
      case Some(v) => v
      case None => default
    }
  }

  /** What an async service call settles to: its value, or the error it threw. */
  datatype Result<+T, +E> = Ok(value: T) | Fail(error: E)
}
