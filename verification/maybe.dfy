/** Optional values: the model of a JavaScript value that may be `undefined`. */
module Maybe {

  datatype Option<+T> = None | Some(value: T) {

    /** The value, or `d` when there is none (JavaScript's `x ?? d`). */
    function GetOr(d: T): T {
      match this
      case Some(v) => v
      case None => d
    }
  }

  /** JavaScript truthiness of an optional string: `undefined` and `''` are falsy. */
  predicate Truthy(s: Option<string>) {
    s.Some? && s.value != ""
  }

  /** A template literal `${x}` of an optional string: `undefined` prints as "undefined". */
  function Interpolate(s: Option<string>): string {
    match s
    case Some(v) => v
    case None => "undefined"
  }
}
