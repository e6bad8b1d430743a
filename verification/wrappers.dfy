/** Optional values, the model's stand-in for JavaScript's `null` /
    `undefined`, and the truthiness test the handlers apply to them. */
module Wrappers {

  datatype Option<+T> = None | Some(value: T) {

    /** Returns the value in Some, or `default` when None. */
    function GetOr(default: T): T {
      match this
      case Some(v) => v
      case None => default
    }
  }

  /** JavaScript truthiness of an optional string parameter (`if (raw)`):
      present and non-empty. */
  predicate IsTruthy(raw: Option<string>) {
    raw.Some? && raw.value != ""
  }
}
