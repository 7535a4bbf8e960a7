/**
 PHP `null` made explicit: a value that may be absent.
 */
module Nullable {

  /** `None` plays the part of PHP's `null`. */
  datatype Option<+T> = None | Some(value: T) {

    /** The value, or `default` when it is null. */
    function GetOr(default: T): T {
      match this
      case Some(v) => v
      case None => default
    }
  }
}
