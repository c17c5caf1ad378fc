/**
 * The positions a filter keeps.  `dropna()`, a boolean mask and a
 * per-minute selection all keep the rows that pass a test, each once and in
 * their original order; the model states each of them as "the result is the
 * sequence of rows at `Positions(mask, 0)`".
 */
module Filters {

  /** The positions at or after `from` where `keep` holds, in ascending order. */
  function Positions(keep: seq<bool>, from: nat): (p: seq<nat>)
    requires from <= |keep|
    decreases |keep| - from
    ensures forall k :: 0 <= k < |p| ==> from <= p[k] < |keep| && keep[p[k]]
    ensures forall a, b :: 0 <= a < b < |p| ==> p[a] < p[b]
    ensures forall j :: from <= j < |keep| && keep[j] ==> j in p
  {
    if from == |keep| then []
    else
      var rest := Positions(keep, from + 1);
      if keep[from] then [from] + rest else rest
  }

  /** The elements of `s` at the positions `p`, in the order of `p`. */
  function Pick<T>(s: seq<T>, p: seq<nat>): seq<T>
    requires forall k :: 0 <= k < |p| ==> p[k] < |s|
  {
    if |p| == 0 then [] else [s[p[0]]] + Pick(s, p[1..])
  }

  /** Element `k` of a pick is the element at the `k`-th position. */
  lemma {:induction false} PickIndex<T>(s: seq<T>, p: seq<nat>)
    requires forall k :: 0 <= k < |p| ==> p[k] < |s|
    ensures |Pick(s, p)| == |p|
    ensures forall k :: 0 <= k < |p| ==> Pick(s, p)[k] == s[p[k]]
  {
    if |p| > 0 {
      PickIndex(s, p[1..]);
    }
  }
}
