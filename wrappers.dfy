/** Optional values: a caller-supplied option field is either present or absent. */
module Wrappers {

  datatype Option<T> = None | Some(value: T)

  /** The carried value when present, else the fallback. */
  function GetOr<T>(o: Option<T>, default: T): (r: T)
    ensures o.Some? ==> r == o.value
    ensures o.None? ==> r == default
  {
    match o
    case Some(v) => v
    case None => default
  }
}
