/** Optional values: a JavaScript field that may be absent, a Python `dict.get` without the key. */
module Wrappers {

  datatype Option<+T> = None | Some(value: T) {

    /** The value, or `default` when absent (`x || d` in JavaScript, `d.get(k, default)` in Python). */
    function GetOr(default: T): T {
      match this
      case Some(v) => v
      case None => default
    }
  }
}
