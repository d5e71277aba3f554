/** `findLastIndex` of src/tools/algorithm.ts: the last position whose element satisfies a predicate. */
module Algorithm {
  import opened Options

  /** The reference definition: the largest index whose element satisfies `p`, if any. */
  function LastIndexWhere<E>(s: seq<E>, p: E -> bool): (r: Option<nat>)
    ensures r.Some? ==> r.value < |s| && p(s[r.value])
    ensures r.Some? ==> forall j :: r.value < j < |s| ==> !p(s[j])
    ensures r.None? <==> forall j :: 0 <= j < |s| ==> !p(s[j])
  {
    if s == [] then None
    else if p(s[|s| - 1]) then Some(|s| - 1)
    else LastIndexWhere(s[..|s| - 1], p)
  }

  /** The countdown loop: scans from the last element and stops at the first hit. */
  method FindLastIndex<E>(collection: seq<E>, pred: E -> bool) returns (r: Option<nat>)
    ensures r == LastIndexWhere(collection, pred)
    ensures r.Some? ==> r.value < |collection| && pred(collection[r.value])
    ensures r.Some? ==> forall j :: r.value < j < |collection| ==> !pred(collection[j])
    ensures r.None? <==> forall j :: 0 <= j < |collection| ==> !pred(collection[j])
  {
    var i := |collection| - 1;
    while i >= 0
      invariant -1 <= i < |collection|
      invariant forall j :: i < j < |collection| ==> !pred(collection[j])
      invariant LastIndexWhere(collection, pred) == LastIndexWhere(collection[..i + 1], pred)
      decreases i
    {
      if pred(collection[i]) {
        return Some(i);
      }
      assert collection[..i + 1][..i] == collection[..i];
      i := i - 1;
    }
    return None;
  }

  /** Scanning a longer sequence: a hit in the extension wins, otherwise the answer is the prefix's. */
  lemma {:induction false} LastIndexOfAppend<E>(s: seq<E>, t: seq<E>, p: E -> bool)
    ensures LastIndexWhere(s + t, p) ==
      match LastIndexWhere(t, p)
      case Some(i) => Some(|s| + i)
      case None => LastIndexWhere(s, p)
    decreases |t|
  {
    if t != [] {
      assert (s + t)[..|s + t| - 1] == s + t[..|t| - 1];
      LastIndexOfAppend(s, t[..|t| - 1], p);
    } else {
      assert s + t == s;
    }
  }
}
