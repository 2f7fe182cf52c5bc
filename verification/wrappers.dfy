/** Failure-compatible wrapper used for JavaScript values that may be
    `null`, `undefined` or `NaN`. */
module Wrappers {

  /** `None` stands for the source's `null`/`undefined`/`NaN`. */
  datatype Option<+T> = None | Some(value: T) {

    /** The wrapped value, or `default` when there is none. */
    function GetOr(default: T): T {
      match this
      case Some(v) => v
      case None => default
    }
  }
}
