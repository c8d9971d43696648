/**
 * Response post-processing: HTML minification in three regular-expression
 * steps, cache-busting of static URLs and the header policy applied to
 * every response. The clock reading used as a version is a parameter.
 */
module Performance {

  import opened Wrappers
  import opened Text
  import opened Seqs

  /** A comment opener `<!--` starts at index `i`. */
  predicate OpensAt(s: string, i: nat) {
    i + 4 <= |s| && s[i..i + 4] == "<!--"
  }

  /** A comment closer `-->` starts at index `i`. */
  predicate ClosesAt(s: string, i: nat) {
    i + 3 <= |s| && s[i..i + 3] == "-->"
  }

  /** The first closer at or after `from`. */
  function FindClose(s: string, from: nat): (q: Option<nat>)
    requires from <= |s|
    ensures q.Some? ==> from <= q.value && ClosesAt(s, q.value)
    ensures q.Some? ==> forall i :: from <= i < q.value ==> !ClosesAt(s, i)
    ensures q.None? ==> forall i :: from <= i <= |s| ==> !ClosesAt(s, i)
    decreases |s| - from
  {
    if from + 3 > |s| then None
    else if ClosesAt(s, from) then Some(from)
    else FindClose(s, from + 1)
  }

  /** `re.sub(r'<!--.*?-->', '', html, flags=re.DOTALL)`: scanning left to
      right, an opener followed later by a closer is removed up to and
      including the first such closer; an opener with no closer after it
      is ordinary text. */
  function RemoveComments(s: string): (t: string)
    ensures |t| <= |s|
    decreases |s|
  {
    if s == [] then []
    else if OpensAt(s, 0) then
      match FindClose(s, 4)
      case Some(q) => RemoveComments(s[q + 3..])
      case None => [s[0]] + RemoveComments(s[1..])
    else [s[0]] + RemoveComments(s[1..])
  }

  /** Text with no comment opener passes through unchanged. */
  lemma {:induction false} RemoveCommentsNoOpener(s: string)
    requires forall i :: 0 <= i < |s| ==> !OpensAt(s, i)
    ensures RemoveComments(s) == s
    decreases |s|
  {
    if s != [] {
      assert !OpensAt(s, 0);
      forall i | 0 <= i < |s| - 1
        ensures !OpensAt(s[1..], i)
      {
        assert !OpensAt(s, i + 1);
        if i + 4 <= |s| - 1 {
          assert s[1..][i..i + 4] == s[i + 1..i + 5];
        }
      }
      RemoveCommentsNoOpener(s[1..]);
    }
  }

  /** A comment whose body holds no closer is removed together with its
      delimiters, and removal carries on after it. */
  lemma RemoveCommentsDropsComment(x: string, rest: string)
    requires forall i :: 4 <= i < 4 + |x| ==> !ClosesAt("<!--" + x + "-->" + rest, i)
    ensures RemoveComments("<!--" + x + "-->" + rest) == RemoveComments(rest)
  {
    var s := "<!--" + x + "-->" + rest;
    var e := 4 + |x|;
    assert s[..4] == "<!--";
    assert OpensAt(s, 0);
    assert s[e..e + 3] == "-->";
    assert ClosesAt(s, e);
    assert FindClose(s, 4) == Some(e);
    assert s[e + 3..] == rest;
  }

  /** Text with no opener in front passes through, and removal carries on
      with what follows. */
  lemma {:induction false} RemoveCommentsPrefix(a: string, c: string)
    requires forall i :: 0 <= i < |a| ==> !OpensAt(a + c, i)
    ensures RemoveComments(a + c) == a + RemoveComments(c)
    decreases |a|
  {
    if a == [] {
      assert a + c == c;
    } else {
      var s := a + c;
      assert s[1..] == a[1..] + c && s[0] == a[0];
      RemoveCommentsPlain(s);
      NoOpenerTail(a, c);
      RemoveCommentsPrefix(a[1..], c);
      var r := RemoveComments(c);
      assert RemoveComments(s) == [a[0]] + (a[1..] + r);
      assert [a[0]] + (a[1..] + r) == ([a[0]] + a[1..]) + r;
      assert [a[0]] + a[1..] == a;
    }
  }

  /** A first character that does not open a comment is kept. */
  lemma RemoveCommentsPlain(s: string)
    requires s != [] && !OpensAt(s, 0)
    ensures RemoveComments(s) == [s[0]] + RemoveComments(s[1..])
  {
  }

  /** Dropping the first character of the prefix keeps it free of openers. */
  lemma NoOpenerTail(a: string, c: string)
    requires |a| > 0
    requires forall i :: 0 <= i < |a| ==> !OpensAt(a + c, i)
    ensures forall i :: 0 <= i < |a| - 1 ==> !OpensAt(a[1..] + c, i)
  {
    var s := a + c;
    forall i | 0 <= i < |a| - 1
      ensures !OpensAt(a[1..] + c, i)
    {
      assert !OpensAt(s, i + 1);
      if i + 4 <= |s| - 1 {
        assert (a[1..] + c)[i..i + 4] == s[i + 1..i + 5];
      }
    }
  }

  /** The positions comment removal keeps. */
  lemma RemoveCommentsKeeps(s: string) returns (idx: seq<nat>)
    ensures KeepsOf(s, RemoveComments(s), idx)
    decreases |s|
  {
    if s == [] {
      idx := [];
    } else if OpensAt(s, 0) && FindClose(s, 4).Some? {
      var d := FindClose(s, 4).value + 3;
      var tail := RemoveCommentsKeeps(s[d..]);
      KeepThenSkip(s, [], d, tail);
      assert Select(s, []) + Select(s[d..], tail) == RemoveComments(s);
      idx := [] + Offset(tail, d);
    } else {
      var tail := RemoveCommentsKeeps(s[1..]);
      KeepThenSkip(s, [0], 1, tail);
      assert Select(s, [0]) + Select(s[1..], tail) == RemoveComments(s);
      idx := [0] + Offset(tail, 1);
    }
  }

  /** Comment removal only deletes characters: the output is the input read
      at strictly increasing positions. */
  lemma RemoveCommentsDeletesOnly(s: string)
    ensures exists idx :: KeepsOf(s, RemoveComments(s), idx)
  {
    var idx := RemoveCommentsKeeps(s);
  }

  /** `s` starts with `>`, one or more whitespace characters and `<`: a
      match of `>\s+<` at index 0. */
  predicate GapAt(s: string) {
    |s| > 0 && s[0] == '>' && 1 < SkipSpaces(s, 1) < |s| && s[SkipSpaces(s, 1)] == '<'
  }

  /** `re.sub(r'>\s+<', '><', html)`. */
  function CollapseTagGaps(s: string): (t: string)
    ensures |t| <= |s|
    ensures s != [] ==> t != [] && t[0] == s[0]
    decreases |s|
  {
    if s == [] then []
    else if GapAt(s) then "><" + CollapseTagGaps(s[SkipSpaces(s, 1) + 1..])
    else [s[0]] + CollapseTagGaps(s[1..])
  }

  /** Only whitespace strictly between indices `i` and `j`. */
  predicate SpacesBetween(t: string, i: nat, j: nat)
    requires i < j <= |t|
  {
    forall m :: i < m < j ==> IsSpace(t[m])
  }

  /** No `>` is followed by whitespace only and then `<`. */
  predicate GapFree(t: string) {
    forall i, j :: 0 <= i && i + 1 < j < |t| && t[i] == '>' && t[j] == '<' ==> !SpacesBetween(t, i, j)
  }

  /** Gap-freedom of a string with one character in front. */
  lemma ConsGapFree(c: char, t: string)
    requires GapFree(t)
    requires c == '>' ==> forall j :: 1 < j <= |t| && t[j - 1] == '<' ==> !SpacesBetween([c] + t, 0, j)
    ensures GapFree([c] + t)
  {
    var u := [c] + t;
    forall i, j | 0 <= i && i + 1 < j < |u| && u[i] == '>' && u[j] == '<'
      ensures !SpacesBetween(u, i, j)
    {
      if i > 0 {
        assert t[i - 1] == '>' && t[j - 1] == '<';
        assert !SpacesBetween(t, i - 1, j - 1);
        var m :| i - 1 < m < j - 1 && !IsSpace(t[m]);
        assert u[m + 1] == t[m];
      }
    }
  }

  /** A run of whitespace in front is passed through. */
  lemma {:induction false} CollapseSpaces(w: string, y: string)
    requires forall m :: 0 <= m < |w| ==> IsSpace(w[m])
    ensures CollapseTagGaps(w + y) == w + CollapseTagGaps(y)
    decreases |w|
  {
    if w == [] {
      assert w + y == y;
    } else {
      assert (w + y)[0] == w[0] && !GapAt(w + y);
      assert (w + y)[1..] == w[1..] + y;
      CollapseSpaces(w[1..], y);
      assert CollapseTagGaps(w + y) == [w[0]] + (w[1..] + CollapseTagGaps(y));
      assert [w[0]] + w[1..] == w;
    }
  }

  /** After a `>` that does not start a gap, the whitespace run is followed
      by the end of the text or by a character other than `<`, so the
      output has no gap at its front. */
  lemma {:induction false} NoGapAfterFront(s: string)
    requires |s| > 0 && s[0] == '>' && !GapAt(s)
    ensures forall j :: 1 < j <= |CollapseTagGaps(s[1..])| && CollapseTagGaps(s[1..])[j - 1] == '<' ==>
      !SpacesBetween([s[0]] + CollapseTagGaps(s[1..]), 0, j)
  {
    var k := SkipSpaces(s, 1);
    var w := s[1..k];
    var y := s[k..];
    assert s[1..] == w + y;
    CollapseSpaces(w, y);
    var c := CollapseTagGaps(s[1..]);
    var t := [s[0]] + c;
    assert forall m :: 1 <= m < k ==> t[m] == w[m - 1];
    if k < |t| {
      assert t[k] == CollapseTagGaps(y)[0] == y[0];
    }
    FrontRun(t, k);
  }

  /** A run of whitespace from index 1 up to `k`, ended by the end of the
      text or by a character that cannot close a gap opened at index 0. */
  lemma FrontRun(t: string, k: nat)
    requires 1 <= k <= |t|
    requires forall m :: 1 <= m < k ==> IsSpace(t[m])
    requires k < |t| ==> !IsSpace(t[k]) && (k == 1 || t[k] != '<')
    ensures forall j :: 1 < j < |t| && t[j] == '<' ==> !SpacesBetween(t, 0, j)
  {
    forall j | 1 < j < |t| && t[j] == '<'
      ensures !SpacesBetween(t, 0, j)
    {
      if j > k {
        assert !IsSpace(t[k]);
      }
    }
  }

  /** The output of the second step contains no tag gap. */
  lemma {:induction false} CollapseGapFree(s: string)
    ensures GapFree(CollapseTagGaps(s))
    decreases |s|
  {
    if s == [] {
    } else if GapAt(s) {
      var r := s[SkipSpaces(s, 1) + 1..];
      CollapseGapFree(r);
      var c := CollapseTagGaps(r);
      ConsGapFree('<', c);
      var u := ['>'] + (['<'] + c);
      assert u[1] == '<';
      assert forall j :: 1 < j <= |['<'] + c| ==> !SpacesBetween(u, 0, j);
      ConsGapFree('>', ['<'] + c);
      assert "><" + c == ['>'] + (['<'] + c);
    } else {
      CollapseGapFree(s[1..]);
      if s[0] == '>' {
        NoGapAfterFront(s);
      }
      ConsGapFree(s[0], CollapseTagGaps(s[1..]));
    }
  }

  /** Text without a gap passes through the second step unchanged. */
  lemma {:induction false} CollapseGapFreeIdentity(s: string)
    requires GapFree(s)
    ensures CollapseTagGaps(s) == s
    decreases |s|
  {
    if s != [] {
      if 1 < |s| {
        var k := SkipSpaces(s, 1);
        assert k < |s| && 1 < k && s[0] == '>' && s[k] == '<' ==> !SpacesBetween(s, 0, k);
      }
      GapFreeSlice(s, 1, |s|);
      CollapseGapFreeIdentity(s[1..]);
    }
  }

  /** A slice of gap-free text is gap-free. */
  lemma GapFreeSlice(s: string, a: nat, b: nat)
    requires a <= b <= |s| && GapFree(s)
    ensures GapFree(s[a..b])
  {
    var t := s[a..b];
    forall i, j | 0 <= i && i + 1 < j < |t| && t[i] == '>' && t[j] == '<'
      ensures !SpacesBetween(t, i, j)
    {
      assert s[a + i] == '>' && s[a + j] == '<';
      assert !SpacesBetween(s, a + i, a + j);
      var m :| a + i < m < a + j && !IsSpace(s[m]);
      assert t[m - a] == s[m];
    }
  }

  /** Position `p` lies strictly inside a `>`, whitespace, `<` run, that
      is inside some match of `>\s+<`. */
  ghost predicate InGap(s: string, p: nat) {
    exists i, j :: 0 <= i < p < j < |s| && s[i] == '>' && s[j] == '<' && SpacesBetween(s, i, j)
  }

  /** Position `p` lies in the leading or in the trailing whitespace of `s`. */
  ghost predicate AtEdge(s: string, p: nat) {
    || (forall m :: 0 <= m <= p && m < |s| ==> IsSpace(s[m]))
    || (forall m :: p <= m < |s| ==> IsSpace(s[m]))
  }

  /** `t` is `s` with only whitespace inside tag gaps deleted; `idx` lists
      the positions kept. */
  ghost predicate DropsGaps(s: string, t: string, idx: seq<nat>) {
    KeepsOf(s, t, idx) && forall p :: 0 <= p < |s| && p !in idx ==> InGap(s, p)
  }

  /** `t` is `s` with only leading and trailing whitespace deleted. */
  ghost predicate DropsEdges(s: string, t: string, idx: seq<nat>) {
    KeepsOf(s, t, idx) && forall p :: 0 <= p < |s| && p !in idx ==> AtEdge(s, p)
  }

  /** A gap position holds whitespace. */
  lemma GapIsSpace(s: string, p: nat)
    requires p < |s| && InGap(s, p)
    ensures IsSpace(s[p])
  {
  }

  /** A gap of a suffix is a gap of the whole text. */
  lemma InGapShift(s: string, d: nat, q: nat)
    requires d <= |s| && q < |s| - d && InGap(s[d..], q)
    ensures InGap(s, q + d)
  {
    var u := s[d..];
    var i, j :| 0 <= i < q < j < |u| && u[i] == '>' && u[j] == '<' && SpacesBetween(u, i, j);
    forall m | i + d < m < j + d
      ensures IsSpace(s[m])
    {
      assert u[m - d] == s[m];
    }
    assert SpacesBetween(s, i + d, j + d);
  }

  /** Keeping `head` among the first `d` positions, deleting only gap
      whitespace there, then a gap deletion from `s[d..]`. */
  lemma DropsGapsStep(s: string, head: seq<nat>, d: nat, t: string, tail: seq<nat>) returns (idx: seq<nat>)
    requires d <= |s| && Increasing(head) && Below(head, d)
    requires forall p :: 0 <= p < d && p !in head ==> InGap(s, p)
    requires DropsGaps(s[d..], t, tail)
    ensures DropsGaps(s, Select(s, head) + t, idx)
  {
    idx := head + Offset(tail, d);
    KeepThenSkip(s, head, d, tail);
    forall p | 0 <= p < |s| && p !in idx
      ensures InGap(s, p)
    {
      if p >= d {
        OffsetMember(tail, d, p);
        InGapShift(s, d, p - d);
      }
    }
  }

  /** The whitespace of a gap at the front lies in that gap. */
  lemma GapHead(s: string)
    requires GapAt(s)
    ensures forall p :: 0 <= p < SkipSpaces(s, 1) + 1 && p !in [0, SkipSpaces(s, 1)] ==> InGap(s, p)
  {
    var k := SkipSpaces(s, 1);
    assert SpacesBetween(s, 0, k);
  }

  /** The positions the second step keeps; it deletes gap whitespace only. */
  lemma CollapseKeeps(s: string) returns (idx: seq<nat>)
    ensures DropsGaps(s, CollapseTagGaps(s), idx)
    decreases |s|
  {
    if s == [] {
      idx := [];
    } else if GapAt(s) {
      var k := SkipSpaces(s, 1);
      var tail := CollapseKeeps(s[k + 1..]);
      GapHead(s);
      idx := DropsGapsStep(s, [0, k], k + 1, CollapseTagGaps(s[k + 1..]), tail);
      assert Select(s, [0, k]) == "><";
    } else {
      var tail := CollapseKeeps(s[1..]);
      idx := DropsGapsStep(s, [0], 1, CollapseTagGaps(s[1..]), tail);
      assert Select(s, [0]) == [s[0]];
    }
  }

  /** `re.sub(r'>\s+<', '><', ...)` deletes whitespace lying between a `>`
      and a `<`, and nothing else. */
  lemma CollapseDropsSpaces(s: string)
    ensures exists idx :: DropsGaps(s, CollapseTagGaps(s), idx)
  {
    var idx := CollapseKeeps(s);
  }

  /** The positions `strip()` keeps: one contiguous run. */
  lemma StripKeeps(c: string) returns (idx: seq<nat>)
    ensures DropsEdges(c, Strip(c), idx)
  {
    var a := LeadingSpaces(c);
    var t := Strip(c);
    idx := Range(a, a + |t|);
    assert Select(c, idx) == c[a..a + |t|];
    forall p | 0 <= p < |c| && p !in idx
      ensures AtEdge(c, p)
    {
      RangeMember(a, a + |t|, p);
      if p < a {
        assert forall m :: 0 <= m <= p && m < |c| ==> IsSpace(c[m]);
      } else {
        assert forall m :: p <= m < |c| ==> IsSpace(c[m]);
      }
    }
  }

  /** Edge whitespace of the collapsed text sits at the edge of the text it
      came from, since collapsing deletes whitespace only. */
  lemma EdgeTransfer(s: string, g: string, i: seq<nat>, m: nat)
    requires DropsGaps(s, g, i) && m < |i| && AtEdge(g, m)
    ensures AtEdge(s, i[m])
  {
    if forall n :: 0 <= n <= m && n < |g| ==> IsSpace(g[n]) {
      forall q | 0 <= q <= i[m] && q < |s|
        ensures IsSpace(s[q])
      {
        if q in i {
          var n :| 0 <= n < |i| && i[n] == q;
          assert n <= m;
          assert g[n] == s[q];
        } else {
          GapIsSpace(s, q);
        }
      }
    } else {
      forall q | i[m] <= q < |s|
        ensures IsSpace(s[q])
      {
        if q in i {
          var n :| 0 <= n < |i| && i[n] == q;
          assert n >= m;
          assert g[n] == s[q];
        } else {
          GapIsSpace(s, q);
        }
      }
    }
  }

  /** What minification deletes from comment-free markup: whitespace inside
      a tag gap, or leading and trailing whitespace. */
  ghost predicate MinifiedFrom(s: string, t: string, idx: seq<nat>) {
    KeepsOf(s, t, idx) && forall p :: 0 <= p < |s| && p !in idx ==> InGap(s, p) || AtEdge(s, p)
  }

  /** Collapsing gaps and then stripping, as one deletion. */
  lemma CollapseThenStrip(s: string, g: string, u: string, i: seq<nat>, j: seq<nat>) returns (k: seq<nat>)
    requires DropsGaps(s, g, i) && DropsEdges(g, u, j)
    ensures MinifiedFrom(s, u, k)
  {
    k := Compose(i, j);
    KeepsCompose(s, g, u, i, j);
    forall p | 0 <= p < |s| && p !in k && !InGap(s, p)
      ensures AtEdge(s, p)
    {
      var m :| 0 <= m < |i| && i[m] == p;
      assert m !in j;
      EdgeTransfer(s, g, i, m);
    }
  }

  /** `minify_html`: comments removed, whitespace between tags removed,
      then stripped. */
  function MinifyHtml(html: string): (r: string)
    ensures r == [] || (!IsSpace(r[0]) && !IsSpace(r[|r| - 1]))
    ensures GapFree(r)
    ensures |r| <= |html|
  {
    var c := CollapseTagGaps(RemoveComments(html));
    CollapseGapFree(RemoveComments(html));
    StripGapFree(c);
    Strip(c)
  }

  /** Stripping keeps gap-free text gap-free. */
  lemma StripGapFree(c: string)
    requires GapFree(c)
    ensures GapFree(Strip(c))
  {
    var t := Strip(c);
    var a := LeadingSpaces(c);
    assert t == c[a..a + |t|];
    GapFreeSlice(c, a, a + |t|);
  }

  /** Markup with no comment opener, no tag gap and no outer whitespace is
      already minified. */
  lemma MinifyKeepsMinified(html: string)
    requires forall i :: 0 <= i < |html| ==> !OpensAt(html, i)
    requires GapFree(html)
    requires html == [] || (!IsSpace(html[0]) && !IsSpace(html[|html| - 1]))
    ensures MinifyHtml(html) == html
  {
    RemoveCommentsNoOpener(html);
    CollapseGapFreeIdentity(html);
  }

  /** Minification only deletes characters: the page is the input read at
      strictly increasing positions. */
  lemma MinifyDeletesOnly(html: string)
    ensures exists idx :: KeepsOf(html, MinifyHtml(html), idx)
  {
    var c := RemoveComments(html);
    var g := CollapseTagGaps(c);
    var i := RemoveCommentsKeeps(html);
    var j2 := CollapseKeeps(c);
    var j3 := StripKeeps(g);
    var j := CollapseThenStrip(c, g, MinifyHtml(html), j2, j3);
    KeepsCompose(html, c, MinifyHtml(html), i, j);
  }

  /** On markup without comments, minification deletes exactly the kinds of
      whitespace the last two steps target: whitespace between a `>` and a
      `<`, and leading or trailing whitespace. Everything else survives, in
      order. */
  lemma MinifyCommentFreeDropsSpaces(html: string)
    requires forall i :: 0 <= i < |html| ==> !OpensAt(html, i)
    ensures exists idx :: MinifiedFrom(html, MinifyHtml(html), idx)
  {
    RemoveCommentsNoOpener(html);
    var g := CollapseTagGaps(html);
    var j2 := CollapseKeeps(html);
    var j3 := StripKeeps(g);
    var j := CollapseThenStrip(html, g, MinifyHtml(html), j2, j3);
  }

  const StaticPrefix: string := "/static/"

  /** `optimize_static_urls` with `int(time.time())` given as `version`. */
  function OptimizeStaticUrl(url: string, version: nat): (r: string)
    ensures !StartsWith(url, StaticPrefix) ==> r == url
    ensures StartsWith(url, StaticPrefix) ==>
      && |r| > |url| + 3
      && r[..|url|] == url
      && r[|url|] == (if '?' in url then '&' else '?')
      && r[|url| + 1..|url| + 3] == "v="
      && (forall i :: |url| + 3 <= i < |r| ==> '0' <= r[i] <= '9')
      && ParseNat(r[|url| + 3..]) == version
    ensures StartsWith(url, StaticPrefix) ==> (r[|url| + 3] == '0' ==> |r| == |url| + 4)
  {
    if StartsWith(url, StaticPrefix) then
      var separator := if '?' in url then "&" else "?";
      var digits := NatToString(version);
      var r := url + separator + "v=" + digits;
      assert r[|url| + 3..] == digits;
      ParseNatToString(version);
      r
    else url
  }

  const SecurityHeaders: map<string, string> := map[
    "X-Content-Type-Options" := "nosniff",
    "X-Frame-Options" := "SAMEORIGIN",
    "X-XSS-Protection" := "1; mode=block"
  ]

  /** The header names the policy may set for a request path. */
  function Touched(path: string): set<string>
  {
    SecurityHeaders.Keys + {"Cache-Control"} +
    (if StartsWith(path, StaticPrefix) then {} else {"Pragma", "Expires"})
  }

  /** `add_performance_headers` on the response headers of a request for
      `path`. */
  function AddPerformanceHeaders(path: string, headers: map<string, string>): (h: map<string, string>)
    ensures forall k :: k in SecurityHeaders ==> k in h && h[k] == SecurityHeaders[k]
    ensures StartsWith(path, StaticPrefix) ==>
      "Cache-Control" in h && h["Cache-Control"] == "public, max-age=31536000"
    ensures !StartsWith(path, StaticPrefix) ==>
      && "Cache-Control" in h && h["Cache-Control"] == "no-cache, no-store, must-revalidate"
      && "Pragma" in h && h["Pragma"] == "no-cache"
      && "Expires" in h && h["Expires"] == "0"
    ensures forall k :: k !in Touched(path) ==> (k in h <==> k in headers)
    ensures forall k :: k !in Touched(path) && k in h ==> h[k] == headers[k]
  {
    var secured := headers
      ["X-Content-Type-Options" := "nosniff"]
      ["X-Frame-Options" := "SAMEORIGIN"]
      ["X-XSS-Protection" := "1; mode=block"];
    if StartsWith(path, StaticPrefix) then
      secured["Cache-Control" := "public, max-age=31536000"]
    else
      secured
        ["Cache-Control" := "no-cache, no-store, must-revalidate"]
        ["Pragma" := "no-cache"]
        ["Expires" := "0"]
  }
}
