/** The failure-carrying result used wherever the extractor raises an
    exception that the top-level `extract` later swallows. */
module Wrappers {

  datatype Option<+T> = None | Some(value: T)

  /** A list built element by element, where any element that fails makes
      the whole list fail. */
  function AllSome<T>(os: seq<Option<T>>): (r: Option<seq<T>>)
    ensures r.None? <==> exists k :: 0 <= k < |os| && os[k].None?
    ensures r.Some? ==> |r.value| == |os| && forall k :: 0 <= k < |os| ==> os[k] == Some(r.value[k])
    decreases |os|
  {
    if |os| == 0 then Some([])
    else
      var n := |os| - 1;
      match AllSome(os[..n])
      case None => None
      case Some(rest) =>
        match os[n]
        case None => None
        case Some(g) => Some(rest + [g])
  }
}
