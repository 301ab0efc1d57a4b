/** Optional JavaScript values and the truthiness rules the app relies on. */
module Values {

  /** A field that may be absent (undefined or null) in the loaded JSON. */
  datatype Option<+T> = None | Some(value: T) {
    function GetOr(default: T): T {
      match this
      case Some(v) => v
      case None => default
    }
  }

  /** A string-valued field is truthy when it is present and not the empty string. */
  predicate Truthy(o: Option<string>) {
    o.Some? && o.value != ""
  }

  /** `o || fallback` for a string-valued field. */
  function OrElse(o: Option<string>, fallback: string): (r: string)
    ensures Truthy(o) ==> r == o.value
    ensures !Truthy(o) ==> r == fallback
    ensures r == "" ==> fallback == ""
  {
    if Truthy(o) then o.value else fallback
  }

  /** `o ?? fallback`: only a missing value is replaced; a present 0 is kept. */
  function Nullish(o: Option<int>, fallback: int): (r: int)
    ensures o.Some? ==> r == o.value
    ensures o.None? ==> r == fallback
  {
    o.GetOr(fallback)
  }

  /** What `Array.prototype.join` writes for one element: nothing for a missing one. */
  function JoinText(o: Option<string>): string {
    o.GetOr("")
  }
}
