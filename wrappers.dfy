/** Optional values and results with an error message, used across the model. */
module Wrappers {

  /** A value that may be missing (`null` / `undefined` in the source). */
  datatype Option<+T> = None | Some(value: T) {
    function GetOr(default: T): T {
      match this
      case Some(v) => v
      case None => default
    }
  }

  /** The outcome of an operation that may throw: a value or the error's message. */
  datatype Result<+T> = Success(value: T) | Failure(message: string)

  /**
   * JavaScript's `x || fallback` on an optional string: a missing value and the
   * empty string are both falsy and give the fallback.
   */
  function OrDefault(s: Option<string>, fallback: string): string {
    if s.Some? && s.value != "" then s.value else fallback
  }
}
