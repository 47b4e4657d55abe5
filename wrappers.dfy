/** Optional values, for the `None` that Django's `QuerySet.first()` returns. */
module Wrappers {
  datatype Option<+T> = None | Some(value: T)

  /** The elements of an option as a sequence of length zero or one. */
  function OptionToSeq<T>(o: Option<T>): (s: seq<T>)
    ensures |s| <= 1
    ensures o.Some? <==> |s| == 1
    ensures o.Some? ==> s[0] == o.value
  {
    match o
    case None => []
    case Some(v) => [v]
  }
}
