/** Small sequence vocabulary shared by the modules: index lists, selection
    by index, distinctness, and the integer `min`/`max` used for lengths. */
module Seqs {

  predicate Increasing(idx: seq<nat>) {
    forall a, b :: 0 <= a < b < |idx| ==> idx[a] < idx[b]
  }

  predicate Below(idx: seq<nat>, n: nat) {
    forall a :: 0 <= a < |idx| ==> idx[a] < n
  }

  predicate Distinct<T(==)>(xs: seq<T>) {
    forall a, b :: 0 <= a < b < |xs| ==> xs[a] != xs[b]
  }

  /** The elements of xs at the given indices, in index order. */
  function Select<T>(xs: seq<T>, idx: seq<nat>): (r: seq<T>)
    requires Below(idx, |xs|)
    ensures |r| == |idx|
    ensures forall a :: 0 <= a < |idx| ==> r[a] == xs[idx[a]]
  {
    seq(|idx|, a requires 0 <= a < |idx| => xs[idx[a]])
  }

  /** Every index moved `d` places to the right. */
  function Offset(idx: seq<nat>, d: nat): (r: seq<nat>)
    ensures |r| == |idx| && forall k :: 0 <= k < |idx| ==> r[k] == idx[k] + d
  {
    seq(|idx|, k requires 0 <= k < |idx| => idx[k] + d)
  }

  /** The indices `lo`, `lo + 1`, ..., `hi - 1`. */
  function Range(lo: nat, hi: nat): (r: seq<nat>)
    requires lo <= hi
    ensures |r| == hi - lo && forall k :: 0 <= k < |r| ==> r[k] == lo + k
  {
    seq(hi - lo, k requires 0 <= k < hi - lo => lo + k)
  }

  /** Selecting at `j` from a selection at `i`, as one index list. */
  function Compose(i: seq<nat>, j: seq<nat>): (r: seq<nat>)
    requires Below(j, |i|)
    ensures |r| == |j| && forall k :: 0 <= k < |j| ==> r[k] == i[j[k]]
  {
    seq(|j|, k requires 0 <= k < |j| => i[j[k]])
  }

  /** `t` is `s` with some elements deleted: it keeps the elements at
      strictly increasing positions. */
  ghost predicate KeepsOf<T>(s: seq<T>, t: seq<T>, idx: seq<nat>) {
    Increasing(idx) && Below(idx, |s|) && t == Select(s, idx)
  }

  /** The offset list holds p exactly when the original holds p - d. */
  lemma OffsetMember(idx: seq<nat>, d: nat, p: nat)
    ensures p in Offset(idx, d) <==> p >= d && p - d in idx
  {
    if p >= d && p - d in idx {
      var k :| 0 <= k < |idx| && idx[k] == p - d;
      assert Offset(idx, d)[k] == p;
    }
  }

  /** The range holds exactly the numbers from `lo` up to `hi`. */
  lemma RangeMember(lo: nat, hi: nat, p: nat)
    requires lo <= hi
    ensures p in Range(lo, hi) <==> lo <= p < hi
  {
    if lo <= p < hi {
      assert Range(lo, hi)[p - lo] == p;
    }
  }

  /** A selection from the suffix `xs[d..]`, seen from `xs`. */
  lemma SelectOffset<T>(xs: seq<T>, d: nat, idx: seq<nat>)
    requires d <= |xs| && Below(idx, |xs| - d)
    ensures Below(Offset(idx, d), |xs|) && Select(xs, Offset(idx, d)) == Select(xs[d..], idx)
  {
  }

  lemma SelectAppend<T>(xs: seq<T>, a: seq<nat>, b: seq<nat>)
    requires Below(a, |xs|) && Below(b, |xs|)
    ensures Below(a + b, |xs|) && Select(xs, a + b) == Select(xs, a) + Select(xs, b)
  {
  }

  /** Indices below `d` followed by a selection from `xs[d..]`. */
  lemma KeepThenSkip<T>(xs: seq<T>, head: seq<nat>, d: nat, tail: seq<nat>)
    requires d <= |xs| && Increasing(head) && Below(head, d)
    requires Increasing(tail) && Below(tail, |xs| - d)
    ensures KeepsOf(xs, Select(xs, head) + Select(xs[d..], tail), head + Offset(tail, d))
  {
    SelectOffset(xs, d, tail);
    SelectAppend(xs, head, Offset(tail, d));
  }

  /** Keeping or dropping the first element in front of a deletion from
      the rest. */
  lemma ConsKeeps<T>(xs: seq<T>, keepHead: bool, t: seq<T>, tail: seq<nat>) returns (idx: seq<nat>)
    requires |xs| > 0 && KeepsOf(xs[1..], t, tail)
    ensures KeepsOf(xs, (if keepHead then [xs[0]] else []) + t, idx)
    ensures 0 in idx <==> keepHead
    ensures forall p :: 0 < p < |xs| ==> (p in idx <==> p - 1 in tail)
  {
    var head: seq<nat> := if keepHead then [0] else [];
    idx := head + Offset(tail, 1);
    KeepThenSkip(xs, head, 1, tail);
    assert Select(xs, head) == (if keepHead then [xs[0]] else []);
    OffsetMember(tail, 1, 0);
    forall p | 0 < p < |xs|
      ensures p in idx <==> p - 1 in tail
    {
      OffsetMember(tail, 1, p);
    }
  }

  /** A deletion from a deletion is a deletion. */
  lemma KeepsCompose<T>(s: seq<T>, t: seq<T>, u: seq<T>, i: seq<nat>, j: seq<nat>)
    requires KeepsOf(s, t, i) && KeepsOf(t, u, j)
    ensures KeepsOf(s, u, Compose(i, j))
  {
  }

  function Min(a: int, b: int): int { if a <= b then a else b }

  function Max(a: int, b: int): int { if a >= b then a else b }
}
