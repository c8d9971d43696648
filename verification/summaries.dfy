/**
 * The summary side of `AIService`: word chunking (`_split_text`), the
 * summary-length rule and the truncation fallback of `_generate_summary`.
 * The summarisation model itself is a parameter: it is either unavailable
 * or a function from (chunk, max_length, min_length) to a summary, with
 * None standing for a call that raises.
 */
module Summaries {

  import opened Wrappers
  import opened Text
  import opened Seqs

  /** The words of a list of groups, in order. */
  function Flatten(gs: seq<seq<string>>): seq<string>
  {
    if gs == [] then [] else Flatten(gs[..|gs| - 1]) + gs[|gs| - 1]
  }

  /** The words of each chunk. */
  function SplitEach(chunks: seq<string>): (r: seq<seq<string>>)
    ensures |r| == |chunks|
  {
    if chunks == [] then [] else SplitEach(chunks[..|chunks| - 1]) + [Split(chunks[|chunks| - 1])]
  }

  lemma {:induction false} JoinSnoc(ws: seq<string>, w: string)
    requires ws != []
    ensures Join(ws + [w]) == Join(ws) + " " + w
    decreases |ws|
  {
    if |ws| == 1 {
      assert (ws + [w])[1..] == [w];
    } else {
      assert (ws + [w])[1..] == ws[1..] + [w];
      JoinSnoc(ws[1..], w);
    }
  }

  lemma FlattenSnoc(gs: seq<seq<string>>, g: seq<string>)
    ensures Flatten(gs + [g]) == Flatten(gs) + g
  {
    assert (gs + [g])[..|gs|] == gs;
  }

  /** A joined non-empty list of words is not the empty string. */
  lemma JoinNotEmpty(ws: seq<string>)
    requires AllWords(ws) && ws != []
    ensures Join(ws) != ""
  {
    SplitJoin(ws);
  }

  lemma SplitEachSnoc(chunks: seq<string>, c: string)
    ensures SplitEach(chunks + [c]) == SplitEach(chunks) + [Split(c)]
  {
    assert (chunks + [c])[..|chunks|] == chunks;
  }

  /** The loop variables of `_split_text`. */
  datatype Packed = Packed(chunks: seq<string>, current: seq<string>, currentLength: int)

  /** One iteration of the loop of `_split_text`: the word joins the open
      chunk when the running length plus the word and one separator stays
      within `maxLength`; otherwise the open chunk is closed and the word
      opens the next. */
  function Step(p: Packed, w: string, maxLength: int): Packed
  {
    if p.currentLength + |w| + 1 <= maxLength then Packed(p.chunks, p.current + [w], p.currentLength + |w| + 1)
    else Packed(p.chunks + [Join(p.current)], [w], |w|)
  }

  /** Reference definition of the loop: its variables after reading
      `words`. */
  function PackWords(words: seq<string>, maxLength: int): Packed
    decreases |words|
  {
    if words == [] then Packed([], [], 0)
    else Step(PackWords(words[..|words| - 1], maxLength), words[|words| - 1], maxLength)
  }

  /** The chunks `_split_text` returns: the closed ones and the open one
      if it has words. */
  function Chunks(words: seq<string>, maxLength: int): seq<string>
  {
    var p := PackWords(words, maxLength);
    if p.current != [] then p.chunks + [Join(p.current)] else p.chunks
  }

  lemma AllWordsPrefix(words: seq<string>, n: nat)
    requires AllWords(words) && n <= |words|
    ensures AllWords(words[..n])
  {
    assert forall k :: 0 <= k < n ==> words[..n][k] == words[k];
  }

  /** The last word and the words before it. */
  lemma LastWord(words: seq<string>)
    requires AllWords(words) && words != []
    ensures AllWords(words[..|words| - 1]) && IsWord(words[|words| - 1])
    ensures words == words[..|words| - 1] + [words[|words| - 1]]
  {
    AllWordsPrefix(words, |words| - 1);
  }

  /** The words of the closed chunks followed by those of the open chunk
      are the words read so far. */
  predicate Covers(p: Packed, done: seq<string>) {
    AllWords(p.current) && Flatten(SplitEach(p.chunks)) + p.current == done
  }

  lemma CoverStep(p: Packed, done: seq<string>, w: string, maxLength: int)
    requires Covers(p, done) && IsWord(w)
    ensures Covers(Step(p, w, maxLength), done + [w])
  {
    if p.currentLength + |w| + 1 > maxLength {
      SplitJoin(p.current);
      SplitEachSnoc(p.chunks, Join(p.current));
      FlattenSnoc(SplitEach(p.chunks), p.current);
    }
  }

  lemma {:induction false} PackCover(words: seq<string>, maxLength: int)
    requires AllWords(words)
    ensures Covers(PackWords(words, maxLength), words)
    decreases |words|
  {
    if words != [] {
      LastWord(words);
      PackCover(words[..|words| - 1], maxLength);
      CoverStep(PackWords(words[..|words| - 1], maxLength), words[..|words| - 1], words[|words| - 1], maxLength);
    }
  }

  /** Closed chunks of two or more words fit. */
  predicate ChunksFit(chunks: seq<string>, maxLength: int) {
    forall k :: 0 <= k < |chunks| && |Split(chunks[k])| >= 2 ==> |chunks[k]| <= maxLength
  }

  /** The running length bounds the open chunk and, once the open chunk
      has two words, stays within `maxLength`; closed chunks fit. */
  predicate Bounded(p: Packed, maxLength: int) {
    && |Join(p.current)| <= p.currentLength
    && (|p.current| >= 2 ==> p.currentLength <= maxLength)
    && ChunksFit(p.chunks, maxLength)
  }

  /** Closing a bounded open chunk keeps the closed chunks fitting. */
  lemma LengthsClose(chunks: seq<string>, current: seq<string>, currentLength: int, maxLength: int)
    requires AllWords(current) && ChunksFit(chunks, maxLength)
    requires |Join(current)| <= currentLength && (|current| >= 2 ==> currentLength <= maxLength)
    ensures ChunksFit(chunks + [Join(current)], maxLength)
  {
    SplitJoin(current);
  }

  lemma BoundedStep(p: Packed, w: string, maxLength: int)
    requires Bounded(p, maxLength) && AllWords(p.current)
    ensures Bounded(Step(p, w, maxLength), maxLength)
  {
    if p.currentLength + |w| + 1 <= maxLength {
      if p.current != [] {
        JoinSnoc(p.current, w);
      } else {
        assert p.current + [w] == [w];
      }
    } else {
      LengthsClose(p.chunks, p.current, p.currentLength, maxLength);
      assert Join([w]) == w;
    }
  }

  lemma {:induction false} PackLengths(words: seq<string>, maxLength: int)
    requires AllWords(words)
    ensures Bounded(PackWords(words, maxLength), maxLength)
    decreases |words|
  {
    if words != [] {
      LastWord(words);
      PackLengths(words[..|words| - 1], maxLength);
      PackCover(words[..|words| - 1], maxLength);
      BoundedStep(PackWords(words[..|words| - 1], maxLength), words[|words| - 1], maxLength);
    }
  }

  /** The open chunk has words once a word was read, and only the first
      closed chunk can be empty. */
  predicate Shaped(p: Packed, done: seq<string>) {
    && (p.current == [] <==> done == [])
    && (p.chunks != [] ==> done != [])
    && (forall k :: 0 < k < |p.chunks| ==> p.chunks[k] != "")
  }

  lemma ShapeStep(p: Packed, done: seq<string>, w: string, maxLength: int)
    requires Shaped(p, done) && AllWords(p.current)
    ensures Shaped(Step(p, w, maxLength), done + [w])
  {
    if p.current != [] {
      JoinNotEmpty(p.current);
    }
  }

  lemma {:induction false} PackShape(words: seq<string>, maxLength: int)
    requires AllWords(words)
    ensures Shaped(PackWords(words, maxLength), words)
    decreases |words|
  {
    if words != [] {
      LastWord(words);
      PackShape(words[..|words| - 1], maxLength);
      PackCover(words[..|words| - 1], maxLength);
      ShapeStep(PackWords(words[..|words| - 1], maxLength), words[..|words| - 1], words[|words| - 1], maxLength);
    }
  }

  /** The first chunk is empty exactly when the first word does not fit
      with its separator. */
  predicate FirstEmpty(p: Packed) {
    |p.chunks| > 0 && p.chunks[0] == ""
  }

  lemma FirstStep(p: Packed, w: string, maxLength: int)
    requires AllWords(p.current) && p.current != []
    ensures FirstEmpty(Step(p, w, maxLength)) <==> FirstEmpty(p)
  {
    JoinNotEmpty(p.current);
  }

  lemma {:induction false} PackFirst(words: seq<string>, maxLength: int)
    requires AllWords(words) && words != []
    ensures FirstEmpty(PackWords(words, maxLength)) <==> |words[0]| + 1 > maxLength
    decreases |words|
  {
    var n := |words| - 1;
    LastWord(words);
    if n > 0 {
      PackFirst(words[..n], maxLength);
      PackShape(words[..n], maxLength);
      PackCover(words[..n], maxLength);
      FirstStep(PackWords(words[..n], maxLength), words[n], maxLength);
    } else {
      assert PackWords(words[..n], maxLength) == Packed([], [], 0);
      assert Join([]) == "";
    }
  }

  /** What `_split_text` promises about its chunks. */
  lemma {:induction false} ChunksFacts(words: seq<string>, maxLength: int)
    requires AllWords(words)
    ensures var out := Chunks(words, maxLength);
      && Flatten(SplitEach(out)) == words
      && ChunksFit(out, maxLength)
      && (forall k :: 0 < k < |out| ==> out[k] != "")
      && ((|out| > 0 && out[0] == "") <==> (words != [] && |words[0]| >= maxLength))
      && (out == [] <==> words == [])
  {
    var p := PackWords(words, maxLength);
    PackCover(words, maxLength);
    PackLengths(words, maxLength);
    PackShape(words, maxLength);
    if words != [] {
      PackFirst(words, maxLength);
      JoinNotEmpty(p.current);
      CloseLast(words, p.chunks, p.current);
      LengthsClose(p.chunks, p.current, p.currentLength, maxLength);
    } else {
      assert p == Packed([], [], 0);
    }
  }

  /** Closing the last open chunk completes the cover. */
  lemma CloseLast(words: seq<string>, chunks: seq<string>, current: seq<string>)
    requires AllWords(current) && Flatten(SplitEach(chunks)) + current == words
    ensures Flatten(SplitEach(chunks + [Join(current)])) == words
  {
    SplitJoin(current);
    SplitEachSnoc(chunks, Join(current));
    FlattenSnoc(SplitEach(chunks), current);
  }

  /** `_split_text`: greedy packing of the words of `text` into chunks of
      at most `maxLength` characters. The running length counts one
      separator per word in the first chunk but not for the first word of
      later chunks, and a first word that does not fit makes the loop emit
      an empty first chunk. */
  method SplitText(text: string, maxLength: int) returns (chunks: seq<string>)
    ensures chunks == Chunks(Split(text), maxLength)
    ensures Flatten(SplitEach(chunks)) == Split(text)
    ensures ChunksFit(chunks, maxLength)
    ensures forall k :: 0 < k < |chunks| ==> chunks[k] != ""
    ensures (|chunks| > 0 && chunks[0] == "") <==> (Split(text) != [] && |Split(text)[0]| >= maxLength)
    ensures chunks == [] <==> Split(text) == []
  {
    var words := Split(text);
    chunks := [];
    var current: seq<string> := [];
    var currentLength := 0;
    var i := 0;
    while i < |words|
      invariant i <= |words|
      invariant Packed(chunks, current, currentLength) == PackWords(words[..i], maxLength)
    {
      assert words[..i + 1][..i] == words[..i];
      var word := words[i];
      if currentLength + |word| + 1 <= maxLength {
        current := current + [word];
        currentLength := currentLength + |word| + 1;
      } else {
        chunks := chunks + [Join(current)];
        current := [word];
        currentLength := |word|;
      }
      i := i + 1;
    }
    assert words[..|words|] == words;
    if current != [] {
      chunks := chunks + [Join(current)];
    }
    ChunksFacts(words, maxLength);
  }

  /** The `max_length` handed to the summarisation model. */
  function SummaryLength(wordCount: nat, maxLength: int): (n: int)
    ensures n <= maxLength
    ensures maxLength >= 30 ==> n >= 30
    ensures wordCount >= 100 && maxLength >= 50 ==> n >= 50
    ensures wordCount < 100 ==> n < 50
  {
    var proposed := if wordCount < 100 then Max(30, wordCount / 2) else Max(50, wordCount / 3);
    Min(maxLength, proposed)
  }

  /** The `min_length` handed to the summarisation model. */
  function MinSummaryLength(summaryLength: int): int
  {
    Max(30, summaryLength / 2)
  }

  /** With the default limit of 150 the requested length is between 30 and
      150, and the minimum passed with it never exceeds it. */
  lemma DefaultSummaryLength(wordCount: nat)
    ensures 30 <= SummaryLength(wordCount, 150) <= 150
    ensures MinSummaryLength(SummaryLength(wordCount, 150)) <= SummaryLength(wordCount, 150)
  {
  }

  /** Longer texts never get a shorter requested summary. */
  lemma SummaryLengthMonotonic(a: nat, b: nat, maxLength: int)
    requires a <= b
    ensures SummaryLength(a, maxLength) <= SummaryLength(b, maxLength)
  {
  }

  /** Python's `s[:m]`: a negative bound counts from the end. */
  function PrefixSlice(s: string, m: int): (p: string)
    ensures |p| <= |s| && p == s[..|p|]
    ensures m >= 0 ==> |p| == Min(m, |s|)
    ensures m < 0 ==> |p| == Max(0, |s| + m)
  {
    if m >= 0 then (if m <= |s| then s[..m] else s)
    else if |s| + m >= 0 then s[..|s| + m] else []
  }

  /** `text[:max_length] + "..."`. */
  function Truncated(text: string, maxLength: int): (r: string)
    ensures |r| >= 3 && r[|r| - 3..] == "..."
    ensures |r| - 3 <= |text| && r[..|r| - 3] == text[..|r| - 3]
    ensures maxLength >= 0 ==> |r| <= maxLength + 3
    ensures maxLength >= |text| ==> r == text + "..."
  {
    PrefixSlice(text, maxLength) + "..."
  }

  datatype Summarizer =
    | Unavailable
    | Model(run: (string, int, int) -> Option<string>)

  /** What the model answers for each chunk; None where the call raises. */
  function Outputs(run: (string, int, int) -> Option<string>, chunks: seq<string>, n: int, m: int): (outs: seq<Option<string>>)
    ensures |outs| == |chunks|
    ensures forall k :: 0 <= k < |chunks| ==> outs[k] == run(chunks[k], n, m)
  {
    seq(|chunks|, k requires 0 <= k < |chunks| => run(chunks[k], n, m))
  }

  /** The answers of a run in which no call raised. */
  function Answers(outs: seq<Option<string>>): (r: seq<string>)
    requires forall k :: 0 <= k < |outs| ==> outs[k].Some?
    ensures |r| == |outs| && forall k :: 0 <= k < |outs| ==> outs[k] == Some(r[k])
  {
    seq(|outs|, k requires 0 <= k < |outs| => outs[k].value)
  }

  /** The loop over the chunks: the model's answer for every chunk, or
      None as soon as one call raises. */
  method SummarizeChunks(run: (string, int, int) -> Option<string>, chunks: seq<string>, n: int, m: int)
    returns (answers: Option<seq<string>>)
    ensures answers.Some? <==> forall k :: 0 <= k < |chunks| ==> run(chunks[k], n, m).Some?
    ensures answers.Some? ==> |answers.value| == |chunks|
    ensures answers.Some? ==> forall k :: 0 <= k < |chunks| ==> run(chunks[k], n, m) == Some(answers.value[k])
  {
    var summaries: seq<string> := [];
    var k := 0;
    while k < |chunks|
      invariant k <= |chunks|
      invariant |summaries| == k
      invariant forall j :: 0 <= j < k ==> run(chunks[j], n, m) == Some(summaries[j])
    {
      var out := run(chunks[k], n, m);
      if out.None? {
        return None;
      }
      summaries := summaries + [out.value];
      k := k + 1;
    }
    return Some(summaries);
  }

  /** `_generate_summary`: truncation when no model is loaded; otherwise the
      model's summaries of the chunks joined by spaces, or truncation as soon
      as one call raises. The chunks used are returned alongside. */
  method GenerateSummary(text: string, maxLength: int, summarizer: Summarizer)
    returns (summary: string, chunks: seq<string>)
    ensures summarizer.Unavailable? ==> summary == Truncated(text, maxLength)
    ensures summarizer.Model? ==> chunks == Chunks(Split(text), 1024)
    ensures summarizer.Model? ==> Flatten(SplitEach(chunks)) == Split(text)
    ensures summarizer.Model? ==>
      var n := SummaryLength(|Split(text)|, maxLength);
      var outs := Outputs(summarizer.run, chunks, n, MinSummaryLength(n));
      if forall k :: 0 <= k < |outs| ==> outs[k].Some?
      then summary == Join(Answers(outs))
      else summary == Truncated(text, maxLength)
  {
    chunks := [];
    if summarizer.Unavailable? {
      return Truncated(text, maxLength), chunks;
    }
    var n := SummaryLength(|Split(text)|, maxLength);
    var minLength := MinSummaryLength(n);
    chunks := SplitText(text, 1024);
    ghost var outs := Outputs(summarizer.run, chunks, n, minLength);
    var answers := SummarizeChunks(summarizer.run, chunks, n, minLength);
    if answers.None? {
      return Truncated(text, maxLength), chunks;
    }
    assert answers.value == Answers(outs);
    summary := Join(answers.value);
  }
}
