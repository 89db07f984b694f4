/** Optional values and outcomes that may carry an exception message. */
module Wrappers {

  datatype Option<T> = None | Some(value: T) {
    /** The value, or `default` for None (PHP's `??`). */
    function GetOr(default: T): T {
      if Some? then value else default
    }
  }

  /** The outcome of PHP code that may throw: the value, or the exception's message. */
  datatype Result<T> = Ok(value: T) | Err(error: string)
}
