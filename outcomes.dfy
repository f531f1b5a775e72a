/** Optional values and fallible results shared by the other modules. */
module Outcomes {

  /** A value that may be missing: an option the user did not pass, a number `parseInt` could not read. */
  datatype Option<+T> = None | Some(value: T) {

    /** The value, or `default` when missing (JavaScript's `??`). */
    function GetOr(default: T): T {
      match this
      case Some(v) => v
      case None => default
    }
  }

  /** The outcome of a step that can fail with an error of type `E`. */
  datatype Result<+T, +E> = Ok(value: T) | Err(error: E)
}
