/** Failure-compatible wrappers shared by every module of the model. */
module Wrappers {

  /** A value that may be absent: Python's `None`, an absent dictionary key,
      or a JavaScript call that throws. */
  datatype Option<+T> = None | Some(value: T) {

    /** Returns the carried value, or `default` when there is none. */
    function GetOr(default: T): T {
      match this
      case Some(v) => v
      case None => default
    }
  }

  /** An operation that either returns a value or raises an error whose
      message is kept. */
  datatype Result<+T> = Ok(value: T) | Err(message: string)

  /** Python's `a or b` for an optional string: `a` unless it is `None` or
      empty. */
  function OrElse(a: Option<string>, b: string): string {
    if a.Some? && a.value != "" then a.value else b
  }
}
