/** Optional values: the model's stand-in for TypeScript's `T | null`, `T | undefined`
    and for an I/O call (a read, a fetch) that may fail. */
module Wrappers {

  datatype Option<+T> = None | Some(value: T) {

    /** The held value, or `default` when there is none (the `x || default` idiom). */
    function GetOr(default: T): T {
      match this
      case Some(v) => v
      case None => default
    }
  }
}
