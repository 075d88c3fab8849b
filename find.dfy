/**
 * The first element of a list, in list order, that satisfies a predicate: by
 * position (the search under `Array.prototype.find` and under the script's
 * radio loop) and by value (`Array.prototype.find` itself). Every first-match
 * rule of the survey script (voice tiers, answer options, radio buttons) is
 * built on these.
 */
module Find {
  import opened Wrappers

  /** The index of the first element satisfying `p`, or `None` when no element does. */
  function FindIndex<T>(s: seq<T>, p: T -> bool): (r: Option<nat>)
    ensures r.Some? ==> r.value < |s| && p(s[r.value])
    ensures r.Some? ==> forall j :: 0 <= j < r.value ==> !p(s[j])
    ensures r.None? <==> forall j :: 0 <= j < |s| ==> !p(s[j])
    decreases |s|
  {
    if |s| == 0 then None
    else if p(s[0]) then Some(0)
    else match FindIndex(s[1..], p)
      case None => None
      case Some(i) => Some(i + 1)
  }

  /** The first element satisfying `p` itself, or `None` (`undefined` in the script). */
  function FindFirst<T>(s: seq<T>, p: T -> bool): (r: Option<T>)
    ensures r.Some? ==> r.value in s && p(r.value)
    ensures r.None? <==> forall j :: 0 <= j < |s| ==> !p(s[j])
  {
    match FindIndex(s, p)
    case None => None
    case Some(i) => Some(s[i])
  }

  /** An element with no earlier satisfying element is exactly what both searches return. */
  lemma FirstAt<T>(s: seq<T>, p: T -> bool, k: nat)
    requires k < |s| && p(s[k])
    requires forall j :: 0 <= j < k ==> !p(s[j])
    ensures FindIndex(s, p) == Some(k)
    ensures FindFirst(s, p) == Some(s[k])
  {
  }

  /** Two searches over equally long lists that judge each position alike give the same index. */
  lemma SameVerdictsSameIndex<T, U>(s: seq<T>, p: T -> bool, t: seq<U>, q: U -> bool)
    requires |s| == |t|
    requires forall j :: 0 <= j < |s| ==> p(s[j]) == q(t[j])
    ensures FindIndex(s, p) == FindIndex(t, q)
  {
  }
}
