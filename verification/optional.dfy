/** An optional value: the model's stand-in for TypeScript's `T | undefined`
    and for a regular-expression match that may fail. */
module Optional {

  datatype Option<+T> = None | Some(value: T) {

    /** The wrapped value, or `default` when there is none. */
    function GetOr(default: T): T {
      match this
      case Some(v) => v
      case None => default
    }
  }

  /** JavaScript's `x || d` on an optional string: the empty string and
      `undefined` are both falsy, so both yield `d`. */
  function OrDefault(x: Option<string>, d: string): (r: string)
    ensures x.Some? && x.value != "" ==> r == x.value
    ensures x.None? || x.value == "" ==> r == d
  {
    if x.Some? && x.value != "" then x.value else d
  }
}
