/** JavaScript's `null` / `undefined`, as the optional values the editor passes around. */
module Nullable {

  /** `None` stands for `null` or `undefined`; `Some(v)` for a present value. */
  datatype Option<+T> = None | Some(value: T)

  /** The elements of an optional value, as a sequence of length 0 or 1. */
  function ToSeq<T>(o: Option<T>): (r: seq<T>)
    ensures |r| <= 1
    ensures o.Some? <==> |r| == 1
    ensures o.Some? ==> r[0] == o.value
  {
    match o
    case None => []
    case Some(v) => [v]
  }
}
