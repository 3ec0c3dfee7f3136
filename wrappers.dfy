/** Optional values, standing for JavaScript's `undefined`/`null` alternatives and for
    operations that can fail. */
module Wrappers {

  datatype Option<+T> = None | Some(value: T) {

    /** `this ?? default`: the value, or the default when absent. */
    function GetOr(default: T): T {
      match this
      case Some(v) => v
      case None => default
    }
  }
}
