/** Optional values: a Go `error` that may be nil, a write that may not happen. */
module Wrappers {

  datatype Option<+T> = None | Some(value: T) {

    /** The zero- or one-element sequence holding the value, if any. */
    function ToSeq(): (s: seq<T>)
      ensures |s| <= 1
      ensures None? <==> s == []
      ensures Some? ==> s == [value]
    {
      match this
      case None => []
      case Some(v) => [v]
    }
  }
}
