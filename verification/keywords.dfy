/**
 * Keyword extraction and tag merging of `AIService`. Keywords are the five
 * most frequent non-stop words of the lower-cased, punctuation-free text,
 * ranked as `Counter.most_common` ranks them: by count, ties going to the
 * word seen first. Tags are up to five members of the set of topics and
 * keywords, in the set's (unspecified) iteration order.
 */
module Keywords {

  import opened Text
  import opened Seqs

  /** `re.sub(r'[^\w\s]', '', text.lower())`. */
  function Clean(text: string): (c: string)
    ensures |c| <= |text|
    ensures forall k :: 0 <= k < |c| ==> (IsWordChar(c[k]) || IsSpace(c[k])) && !IsUpper(c[k])
  {
    if text == [] then []
    else
      var d := LowerChar(text[0]);
      (if IsWordChar(d) || IsSpace(d) then [d] else []) + Clean(text[1..])
  }

  /** Text that is already lower case and free of punctuation is kept as is. */
  lemma {:induction false} CleanKeepsClean(text: string)
    requires forall k :: 0 <= k < |text| ==> (IsWordChar(text[k]) || IsSpace(text[k])) && !IsUpper(text[k])
    ensures Clean(text) == text
    decreases |text|
  {
    if text != [] {
      CleanKeepsClean(text[1..]);
    }
  }

  /** The positions cleaning keeps, from the lower-cased text. */
  lemma CleanKept(text: string) returns (idx: seq<nat>)
    ensures KeepsOf(Lower(text), Clean(text), idx)
    ensures forall p :: 0 <= p < |text| ==> (p in idx <==> IsWordChar(Lower(text)[p]) || IsSpace(Lower(text)[p]))
    decreases |text|
  {
    if text == [] {
      idx := [];
    } else {
      var low := Lower(text);
      var tail := CleanKept(text[1..]);
      assert low[1..] == Lower(text[1..]);
      var d := low[0];
      idx := ConsKeeps(low, IsWordChar(d) || IsSpace(d), Clean(text[1..]), tail);
      forall p | 0 < p < |text|
        ensures p in idx <==> IsWordChar(low[p]) || IsSpace(low[p])
      {
        assert low[1..][p - 1] == low[p];
      }
    }
  }

  /** Cleaning is the lower-cased text read at exactly the positions that
      hold a word or whitespace character. */
  lemma CleanExactly(text: string)
    ensures exists idx ::
      && KeepsOf(Lower(text), Clean(text), idx)
      && (forall p :: 0 <= p < |text| ==> (p in idx <==> IsWordChar(Lower(text)[p]) || IsSpace(Lower(text)[p])))
  {
    var idx := CleanKept(text);
  }

  const StopWords: set<string> :=
    {"the", "a", "an", "and", "or", "but", "in", "on", "at", "to", "for", "of", "with", "by"}

  /** The words of a list that are not stop words, in order. */
  function RemoveStopWords(ws: seq<string>): (r: seq<string>)
    ensures forall w :: w in r <==> w in ws && w !in StopWords
  {
    if ws == [] then []
    else (if ws[0] in StopWords then [] else [ws[0]]) + RemoveStopWords(ws[1..])
  }

  /** The positions the stop-word filter keeps. */
  lemma StopWordsKept(ws: seq<string>) returns (idx: seq<nat>)
    ensures KeepsOf(ws, RemoveStopWords(ws), idx)
    ensures forall p :: 0 <= p < |ws| ==> (p in idx <==> ws[p] !in StopWords)
    decreases |ws|
  {
    if ws == [] {
      idx := [];
    } else {
      var tail := StopWordsKept(ws[1..]);
      idx := ConsKeeps(ws, ws[0] !in StopWords, RemoveStopWords(ws[1..]), tail);
      forall p | 0 < p < |ws|
        ensures p in idx <==> ws[p] !in StopWords
      {
        assert ws[1..][p - 1] == ws[p];
      }
    }
  }

  /** The filter keeps exactly the positions that do not hold a stop word,
      repeats included, in input order. */
  lemma RemoveStopWordsExactly(ws: seq<string>)
    ensures exists idx ::
      && KeepsOf(ws, RemoveStopWords(ws), idx)
      && (forall p :: 0 <= p < |ws| ==> (p in idx <==> ws[p] !in StopWords))
  {
    var idx := StopWordsKept(ws);
  }

  /** The list `words` that `_extract_keywords` counts. */
  function ContentWords(text: string): seq<string>
  {
    RemoveStopWords(Split(Clean(text)))
  }

  /** Every counted word is a non-empty lower-case run of word characters
      and not a stop word. */
  lemma ContentWordsShape(text: string, w: string)
    requires w in ContentWords(text)
    ensures |w| > 0 && w !in StopWords
    ensures forall i :: 0 <= i < |w| ==> IsWordChar(w[i]) && !IsUpper(w[i])
  {
    var c := Clean(text);
    var k :| 0 <= k < |Split(c)| && Split(c)[k] == w;
    SplitCharsIn(c);
    forall i | 0 <= i < |w|
      ensures IsWordChar(w[i]) && !IsUpper(w[i])
    {
      assert Split(c)[k][i] in c;
      assert IsWord(Split(c)[k]);
    }
  }

  /** The distinct words of a list in order of first occurrence, which is
      the key order of a `Counter` built from it. */
  function FirstSeen(ws: seq<string>): (d: seq<string>)
    ensures Distinct(d)
    ensures forall w :: w in d <==> w in ws
  {
    if ws == [] then []
    else
      var p := FirstSeen(ws[..|ws| - 1]);
      var last := ws[|ws| - 1];
      assert ws == ws[..|ws| - 1] + [last];
      if last in p then p else p + [last]
  }

  function Count(ws: seq<string>, w: string): nat
  {
    multiset(ws)[w]
  }

  function FirstIndex(ws: seq<string>, w: string): (i: nat)
    requires w in ws
    ensures i < |ws| && ws[i] == w
    ensures forall j :: 0 <= j < i ==> ws[j] != w
  {
    if ws[0] == w then 0 else 1 + FirstIndex(ws[1..], w)
  }

  /** One `Counter` item with the position that breaks count ties. */
  datatype Entry = Entry(word: string, count: nat, first: nat)

  /** The ranking order of `most_common`: higher count first, then the
      word that occurs first. */
  predicate Precedes(a: Entry, b: Entry) {
    a.count > b.count || (a.count == b.count && a.first < b.first)
  }

  predicate Sorted(es: seq<Entry>) {
    forall i, j :: 0 <= i < j < |es| ==> Precedes(es[i], es[j])
  }

  predicate DistinctFirsts(es: seq<Entry>) {
    forall i, j :: 0 <= i < j < |es| ==> es[i].first != es[j].first
  }

  function Insert(s: seq<Entry>, e: Entry): (r: seq<Entry>)
    requires Sorted(s)
    requires forall x :: x in s ==> x.first != e.first
    ensures |r| == |s| + 1
    ensures Sorted(r)
    ensures forall x :: x in r <==> x in s || x == e
  {
    if s == [] then [e]
    else if Precedes(e, s[0]) then [e] + s
    else
      var rest := Insert(s[1..], e);
      assert forall x :: x in s[1..] ==> Precedes(s[0], x);
      assert forall x :: x in rest ==> Precedes(s[0], x);
      [s[0]] + rest
  }

  /** Insertion sort by the ranking order. */
  function Sort(es: seq<Entry>): (r: seq<Entry>)
    requires DistinctFirsts(es)
    ensures |r| == |es|
    ensures Sorted(r)
    ensures forall x :: x in r <==> x in es
  {
    if es == [] then []
    else
      var init := es[..|es| - 1];
      assert forall x :: x in init ==> x.first != es[|es| - 1].first;
      Insert(Sort(init), es[|es| - 1])
  }

  function EntryOf(ws: seq<string>, w: string): Entry
    requires w in ws
  {
    Entry(w, Count(ws, w), FirstIndex(ws, w))
  }

  /** The items of `Counter(ws)` in key order. */
  function Entries(ws: seq<string>): (es: seq<Entry>)
    ensures DistinctFirsts(es)
    ensures forall x :: x in es <==> x.word in ws && x == EntryOf(ws, x.word)
  {
    var d := FirstSeen(ws);
    var es := seq(|d|, k requires 0 <= k < |d| => EntryOf(ws, d[k]));
    assert forall x: Entry :: x.word in ws && x == EntryOf(ws, x.word) ==> x == es[IndexOf(d, x.word)];
    es
  }

  function IndexOf(d: seq<string>, w: string): (k: nat)
    requires w in d
    ensures k < |d| && d[k] == w
  {
    if d[0] == w then 0 else 1 + IndexOf(d[1..], w)
  }

  /** `word_freq.most_common()` as a list of entries. */
  function Ranked(ws: seq<string>): (r: seq<Entry>)
    ensures Sorted(r)
    ensures |r| == |FirstSeen(ws)|
    ensures forall x :: x in r <==> x.word in ws && x == EntryOf(ws, x.word)
  {
    Sort(Entries(ws))
  }

  /** `_extract_keywords`: the words of the five best-ranked entries. */
  function ExtractKeywords(text: string): (kws: seq<string>)
    ensures |kws| <= 5
  {
    var r := Ranked(ContentWords(text));
    seq(Min(5, |r|), k requires 0 <= k < Min(5, |r|) => r[k].word)
  }

  /** `a` ranks strictly before `b` among the counted words `ws`. */
  predicate Before(ws: seq<string>, a: string, b: string)
    requires a in ws && b in ws
  {
    Count(ws, a) > Count(ws, b) || (Count(ws, a) == Count(ws, b) && FirstIndex(ws, a) < FirstIndex(ws, b))
  }

  /** The keywords are the words of the first entries of the ranking. */
  lemma KeywordsArePrefix(text: string)
    ensures var r := Ranked(ContentWords(text)); var kws := ExtractKeywords(text);
      && |kws| == Min(5, |r|)
      && forall k :: 0 <= k < |kws| ==> kws[k] == r[k].word && r[k] in r
  {
  }

  /** The keywords are distinct counted words, as many as possible up to
      five, in ranking order. */
  lemma {:induction false} KeywordsRanked(text: string)
    ensures var ws := ContentWords(text); var kws := ExtractKeywords(text);
      && Distinct(kws)
      && |kws| == Min(5, |FirstSeen(ws)|)
      && (forall k :: 0 <= k < |kws| ==> kws[k] in ws)
      && (forall i, j :: 0 <= i < j < |kws| ==> Before(ws, kws[i], kws[j]))
  {
    var ws := ContentWords(text);
    var kws := ExtractKeywords(text);
    var r := Ranked(ws);
    KeywordsArePrefix(text);
    forall i, j | 0 <= i < j < |kws|
      ensures kws[i] != kws[j] && Before(ws, kws[i], kws[j])
    {
      assert Precedes(r[i], r[j]);
    }
  }

  /** Entries of the ranking compare as their words do. */
  lemma PrecedesIsBefore(ws: seq<string>, x: Entry, y: Entry)
    requires x in Ranked(ws) && y in Ranked(ws) && Precedes(x, y)
    ensures x.word in ws && y.word in ws && Before(ws, x.word, y.word)
  {
  }

  /** Every counted word left out of the keywords ranks after every
      keyword. */
  lemma {:induction false} KeywordsComplete(text: string)
    ensures forall w, k :: w in ContentWords(text) && w !in ExtractKeywords(text) && 0 <= k < |ExtractKeywords(text)| ==>
      Before(ContentWords(text), ExtractKeywords(text)[k], w)
  {
    forall w | w in ContentWords(text) && w !in ExtractKeywords(text) {
      RanksAfterKeywords(text, w);
    }
  }

  lemma {:induction false} RanksAfterKeywords(text: string, w: string)
    requires w in ContentWords(text) && w !in ExtractKeywords(text)
    ensures forall k :: 0 <= k < |ExtractKeywords(text)| ==>
      Before(ContentWords(text), ExtractKeywords(text)[k], w)
  {
    var ws := ContentWords(text);
    var kws := ExtractKeywords(text);
    var r := Ranked(ws);
    KeywordsArePrefix(text);
    var e := EntryOf(ws, w);
    assert e in r;
    var p :| 0 <= p < |r| && r[p] == e;
    forall k | 0 <= k < |kws|
      ensures Before(ws, kws[k], w)
    {
      assert kws[k] != w;
      assert k < p;
      PrecedesIsBefore(ws, r[k], r[p]);
    }
  }

  /** Every keyword is a non-empty lower-case run of word characters and
      not a stop word. */
  lemma KeywordsShape(text: string)
    ensures forall w :: w in ExtractKeywords(text) ==> |w| > 0 && w !in StopWords
    ensures forall w, i :: w in ExtractKeywords(text) && 0 <= i < |w| ==> IsWordChar(w[i]) && !IsUpper(w[i])
  {
    KeywordsRanked(text);
    forall w | w in ExtractKeywords(text)
      ensures |w| > 0 && w !in StopWords
      ensures forall i :: 0 <= i < |w| ==> IsWordChar(w[i]) && !IsUpper(w[i])
    {
      ContentWordsShape(text, w);
    }
  }

  /** `_generate_tags`: up to five members of the set of topics and
      keywords. The order of a Python set is left open: any choice the
      loop makes is allowed. */
  method GenerateTags(text: string, topics: seq<string>) returns (tags: seq<string>)
    ensures Distinct(tags)
    ensures forall t :: t in tags ==> t in topics || t in ExtractKeywords(text)
    ensures |tags| == Min(5, |set t | t in topics + ExtractKeywords(text)|)
  {
    var keywords := ExtractKeywords(text);
    var pool := set t | t in topics + keywords;
    var remaining := pool;
    tags := [];
    while |tags| < 5 && remaining != {}
      invariant remaining <= pool
      invariant Distinct(tags)
      invariant forall t :: t in tags ==> t in pool && t !in remaining
      invariant |remaining| + |tags| == |pool|
      invariant |tags| <= 5
      decreases |remaining|
    {
      var t :| t in remaining;
      tags := tags + [t];
      remaining := remaining - {t};
    }
  }
}
