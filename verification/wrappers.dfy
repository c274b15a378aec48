/** Optional values: the model's reading of JavaScript's `null`/`undefined`. */
module Wrappers {

  datatype Option<+T> = None | Some(value: T) {

    /** The wrapped value, or `default` when absent (the `x || default` idiom on objects). */
    function GetOr(default: T): T {
      match this
      case Some(v) => v
      case None => default
    }
  }

  /** A string option is "truthy" in JavaScript exactly when it holds a non-empty string. */
  predicate Truthy(s: Option<string>) {
    s.Some? && s.value != ""
  }
}
