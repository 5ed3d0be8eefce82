/** The optional-value type used where the JavaScript source has `undefined`. */
module Wrappers {

  /** Some value, or the absence of one (`undefined` in the source). */
  datatype Option<+T> = None | Some(value: T) {

    /** The value, or `default` when there is none. */
    function GetOr(default: T): T {
      match this
      case Some(v) => v
      case None => default
    }
  }
}
