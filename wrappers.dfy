/** Option and Result values for lookups that may find nothing and for
    operations that may fail, and a first-match search over a sequence
    (the shape of a document-store `findOne`). */
module Wrappers {

  datatype Option<+T> = None | Some(value: T)

  datatype Result<+T, +E> = Success(value: T) | Failure(error: E)

  /** Index of the first element of `s` satisfying `p`, if there is one. */
  function FirstMatch<T>(s: seq<T>, p: T -> bool): (r: Option<nat>)
    ensures r.Some? ==> r.value < |s| && p(s[r.value])
    ensures r.Some? ==> forall j :: 0 <= j < r.value ==> !p(s[j])
    ensures r.None? <==> forall j :: 0 <= j < |s| ==> !p(s[j])
  {
    if |s| == 0 then None
    else if p(s[0]) then Some(0)
    else match FirstMatch(s[1..], p)
      case None => None
      case Some(i) => Some(i + 1)
  }
}
