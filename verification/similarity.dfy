/**
 * Near-duplicate removal (`NewsService._detect_similar_content`).
 *
 * The TF-IDF vectors and their cosine similarities are not modelled: the
 * outcome of that step is either an exception or an oracle `similar(i, j)`
 * standing for "the similarity of articles i and j exceeds the threshold
 * 0.7". Only pairs i < j are ever consulted.
 */
module Similarity {

  import opened Seqs

  /** What the vectorisation step yields for one batch. */
  datatype SimilarityStep =
    | Raises
    | Scores(similar: (nat, nat) -> bool)

  /** Some already kept index is similar to candidate j. */
  predicate CoveredBy(similar: (nat, nat) -> bool, kept: seq<nat>, j: nat) {
    exists a :: 0 <= a < |kept| && similar(kept[a], j)
  }

  /** Reference definition of the greedy pass: the indices among 0..n-1 that
      the loop keeps. Index j is kept exactly when no earlier kept index is
      similar to it. */
  function Kept(similar: (nat, nat) -> bool, n: nat): (kept: seq<nat>)
    ensures Increasing(kept) && Below(kept, n) && |kept| <= n
  {
    if n == 0 then []
    else
      var prev := Kept(similar, n - 1);
      if CoveredBy(similar, prev, n - 1) then prev else prev + [n - 1]
  }

  /** What `_detect_similar_content` returns, as a function of its input. */
  function Deduplicated<T>(articles: seq<T>, step: SimilarityStep): (r: seq<T>)
    ensures |r| <= |articles|
    ensures forall k :: 0 <= k < |r| ==> r[k] in articles
    ensures articles != [] ==> |r| > 0 && r[0] == articles[0]
    ensures exists idx :: KeepsOf(articles, r, idx)
  {
    if articles == [] || step.Raises? then
      assert Select(articles, Range(0, |articles|)) == articles;
      assert KeepsOf(articles, articles, Range(0, |articles|));
      articles
    else
      KeptStartsWithFirst(step.similar, |articles|);
      assert KeepsOf(articles, Select(articles, Kept(step.similar, |articles|)), Kept(step.similar, |articles|));
      Select(articles, Kept(step.similar, |articles|))
  }

  /** The greedy loop of `_detect_similar_content`, with its `seen_indices`
      set: each article not yet marked is kept and marks every later,
      unmarked article similar to it. */
  method DetectSimilarContent<T>(articles: seq<T>, step: SimilarityStep) returns (unique: seq<T>)
    ensures unique == Deduplicated(articles, step)
    ensures articles == [] || step.Raises? ==> unique == articles
    ensures |unique| <= |articles|
    ensures articles != [] ==> |unique| > 0 && unique[0] == articles[0]
  {
    if articles == [] {
      return articles;
    }
    if step.Raises? {
      return articles;
    }
    var similar := step.similar;
    var n := |articles|;
    unique := [];
    var seen: set<nat> := {};
    ghost var kept: seq<nat> := [];
    var i := 0;
    while i < n
      invariant 0 <= i <= n
      invariant kept == Kept(similar, i)
      invariant unique == Select(articles, kept)
      invariant forall j :: i <= j < n ==> (j in seen <==> CoveredBy(similar, kept, j))
    {
      if i !in seen {
        unique := unique + [articles[i]];
        seen := seen + {i};
        ghost var before := kept;
        kept := kept + [i];
        seen := MarkSimilarAfter(similar, i, n, seen);
        forall m | i < m < n
          ensures m in seen <==> CoveredBy(similar, kept, m)
        {
          CoveredByAppend(similar, before, i, m);
        }
      }
      i := i + 1;
    }
    KeptStartsWithFirst(similar, n);
  }

  /** The inner loop: marks every later index that is similar to i, skipping
      the ones already marked. */
  method MarkSimilarAfter(similar: (nat, nat) -> bool, i: nat, n: nat, seen: set<nat>)
    returns (marked: set<nat>)
    ensures forall m :: i < m < n ==> (m in marked <==> m in seen || similar(i, m))
  {
    marked := seen;
    var j := i + 1;
    while j < n
      invariant forall m :: i < m < n ==>
        (m in marked <==> m in seen || (m < j && similar(i, m)))
    {
      if j !in marked && similar(i, j) {
        marked := marked + {j};
      }
      j := j + 1;
    }
  }

  lemma CoveredByAppend(similar: (nat, nat) -> bool, kept: seq<nat>, i: nat, m: nat)
    ensures CoveredBy(similar, kept + [i], m) <==> CoveredBy(similar, kept, m) || similar(i, m)
  {
    if CoveredBy(similar, kept, m) {
      var a :| 0 <= a < |kept| && similar(kept[a], m);
      assert (kept + [i])[a] == kept[a];
    }
    if similar(i, m) {
      assert (kept + [i])[|kept|] == i;
    }
  }

  /** The first article is always kept. */
  lemma {:induction false} KeptStartsWithFirst(similar: (nat, nat) -> bool, n: nat)
    requires n > 0
    ensures |Kept(similar, n)| > 0 && Kept(similar, n)[0] == 0
  {
    if n > 1 {
      KeptStartsWithFirst(similar, n - 1);
    } else {
      assert Kept(similar, 0) == [];
    }
  }

  /** Membership in the kept indices, one index at a time: j is kept exactly
      when no kept index below j is similar to it. */
  lemma {:induction false} KeptExactly(similar: (nat, nat) -> bool, n: nat, j: nat)
    requires j < n
    ensures j in Kept(similar, n) <==>
      !(exists i :: i in Kept(similar, n) && i < j && similar(i, j))
  {
    var before := Kept(similar, j);
    KeptStable(similar, n, j + 1, j);
    KeptGrows(similar, j + 1, j);
    if exists i :: i in Kept(similar, n) && i < j && similar(i, j) {
      var i :| i in Kept(similar, n) && i < j && similar(i, j);
      KeptStable(similar, n, j, i);
      var a :| 0 <= a < |before| && before[a] == i;
      assert CoveredBy(similar, before, j);
    } else if CoveredBy(similar, before, j) {
      var a :| 0 <= a < |before| && similar(before[a], j);
      KeptStable(similar, n, j, before[a]);
      assert false;
    }
  }

  /** Later candidates never change the decision about an earlier index. */
  lemma {:induction false} KeptStable(similar: (nat, nat) -> bool, n: nat, m: nat, i: nat)
    requires i < m <= n
    ensures i in Kept(similar, n) <==> i in Kept(similar, m)
    decreases n
  {
    if m < n {
      KeptGrows(similar, n, i);
      KeptStable(similar, n - 1, m, i);
    }
  }

  /** One more candidate changes nothing about the earlier indices, and the
      new one is kept exactly when it is not covered. */
  lemma KeptGrows(similar: (nat, nat) -> bool, n: nat, i: nat)
    requires i < n
    ensures i < n - 1 ==> (i in Kept(similar, n) <==> i in Kept(similar, n - 1))
    ensures i == n - 1 ==> (i in Kept(similar, n) <==> !CoveredBy(similar, Kept(similar, n - 1), i))
  {
  }

  /** No two kept articles are similar to each other. */
  lemma {:induction false} KeptPairsDissimilar(similar: (nat, nat) -> bool, n: nat, i: nat, j: nat)
    requires i in Kept(similar, n) && j in Kept(similar, n) && i < j
    ensures !similar(i, j)
  {
    KeptExactly(similar, n, j);
  }

  /** Every dropped article is similar to some earlier kept article. */
  lemma {:induction false} DroppedHasKeeper(similar: (nat, nat) -> bool, n: nat, j: nat)
    requires j < n && j !in Kept(similar, n)
    ensures exists i :: i in Kept(similar, n) && i < j && similar(i, j)
  {
    KeptExactly(similar, n, j);
  }
}
