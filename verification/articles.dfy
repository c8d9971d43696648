/**
 * The raw provider record and its normalisation into the article record the
 * pages display (the loops of `get_headlines`, `get_indian_news` and
 * `search_news` in news_service.py).
 *
 * Date formatting (`_format_date` on a truthy date), the AI enrichment
 * (`_process_article_with_ai`) and URL quoting are collaborators whose
 * behaviour is not modelled; they are passed in as functions.
 */
module Articles {

  import opened Wrappers
  import opened Seqs

  /** A value read from the provider's JSON object by key: the key may be
      missing, hold JSON null, or hold a string. */
  datatype Field = Absent | Null | Text(s: string) {

    /** Python truthiness of the value: a non-empty string. */
    predicate Truthy() {
      Text? && s != ""
    }

    /** `obj.get(key)`: a missing key and a null both read as None. */
    function Get(): Option<string> {
      if Text? then Some(s) else None
    }

    /** `obj.get(key, default)`: the default replaces a missing key only;
        a null stays None. */
    function GetOr(default: string): (r: Option<string>)
      ensures Absent? ==> r == Some(default)
      ensures Null? ==> r == None
      ensures Text? ==> r == Some(s)
    {
      match this
      case Absent => Some(default)
      case Null => None
      case Text(v) => Some(v)
    }

    /** The string held, or "" when there is none. */
    function Str(): string {
      if Text? then s else ""
    }
  }

  datatype RawArticle = RawArticle(
    articleId: Field,
    title: Field,
    description: Field,
    link: Field,
    imageUrl: Field,
    sourceId: Field,
    pubDate: Field)

  /** What the AI enrichment stores for an article. */
  datatype Enrichment = Enrichment(summary: string, sentiment: string, tags: seq<string>)

  datatype Article =
    | Story(
        title: Option<string>,
        description: string,
        imageUrl: Option<string>,
        source: Option<string>,
        publishedAt: Option<string>,
        url: string,
        id: string,
        summary: Option<string>,
        sentiment: Option<string>,
        tags: seq<string>)
      /** The "did you mean" entry a search appends. */
    | Suggestion(heading: string, description: string, url: string)

  /** Collaborators whose results are taken as given. */
  datatype Services = Services(
    formatDate: string -> string,
    enrich: RawArticle -> Option<Enrichment>,
    quotePlus: string -> string)

  /** Which key a normalisation loop deduplicates on. */
  datatype DedupBy = ById | ByLink | NoDedup

  /** Records without a truthy description or link are skipped. */
  predicate IsValid(r: RawArticle) {
    r.description.Truthy() && r.link.Truthy()
  }

  /** `article.get('article_id') or article.get('link')`. */
  function IdOf(r: RawArticle): (id: string)
    ensures IsValid(r) ==> id != ""
  {
    if r.articleId.Truthy() then r.articleId.s else r.link.Str()
  }

  function Key(r: RawArticle, mode: DedupBy): string {
    if mode.ByLink? then r.link.Str() else IdOf(r)
  }

  /** `_format_date`: a falsy date gives None; the formatting of a truthy
      date is the collaborator's. */
  function PublishedAt(r: RawArticle, svc: Services): (p: Option<string>)
    ensures p.None? <==> !r.pubDate.Truthy()
  {
    if r.pubDate.Truthy() then Some(svc.formatDate(r.pubDate.s)) else None
  }

  /** The dict a normalisation loop appends for one accepted record. */
  function ToStory(r: RawArticle, svc: Services): (a: Article)
    requires IsValid(r)
    ensures a.Story?
    ensures a.description == r.description.s && a.description != ""
    ensures a.url == r.link.s && a.url != ""
    ensures a.id == IdOf(r)
    ensures a.title == r.title.GetOr("Untitled Article")
    ensures a.source == r.sourceId.GetOr("Unknown Source")
    ensures a.imageUrl == r.imageUrl.Get()
  {
    var tags := svc.enrich(r);
    Story(
      title := r.title.GetOr("Untitled Article"),
      description := r.description.GetOr("No description available").value,
      imageUrl := r.imageUrl.Get(),
      source := r.sourceId.GetOr("Unknown Source"),
      publishedAt := PublishedAt(r, svc),
      url := r.link.GetOr("#").value,
      id := IdOf(r),
      summary := if tags.Some? then Some(tags.value.summary) else None,
      sentiment := if tags.Some? then Some(tags.value.sentiment) else None,
      tags := if tags.Some? then tags.value.tags else [])
  }

  /** Some already accepted record has the same key as record j. */
  predicate KeySeen(rs: seq<RawArticle>, accepted: seq<nat>, mode: DedupBy, j: nat)
    requires Below(accepted, |rs|) && j < |rs|
  {
    exists a :: 0 <= a < |accepted| && Key(rs[accepted[a]], mode) == Key(rs[j], mode)
  }

  /** Reference definition of a normalisation loop: the indices of the
      first n raw records that it turns into articles. */
  function AcceptedIdx(rs: seq<RawArticle>, mode: DedupBy, n: nat): (idx: seq<nat>)
    requires n <= |rs|
    ensures Increasing(idx) && ValidAt(rs, idx) && Below(idx, n)
  {
    if n == 0 then []
    else
      var prev := AcceptedIdx(rs, mode, n - 1);
      if IsValid(rs[n - 1]) && (mode.NoDedup? || !KeySeen(rs, prev, mode, n - 1)) then prev + [n - 1] else prev
  }

  /** The indices point at valid records. */
  predicate ValidAt(rs: seq<RawArticle>, idx: seq<nat>) {
    Below(idx, |rs|) && forall a :: 0 <= a < |idx| ==> IsValid(rs[idx[a]])
  }

  /** The articles made from the records at the given indices. */
  function Stories(rs: seq<RawArticle>, idx: seq<nat>, svc: Services): (out: seq<Article>)
    requires ValidAt(rs, idx)
    ensures |out| == |idx|
  {
    seq(|idx|, a requires 0 <= a < |idx| => ToStory(rs[idx[a]], svc))
  }

  /** The articles the loop emits for the given raw records. */
  function Normalized(rs: seq<RawArticle>, mode: DedupBy, svc: Services): (out: seq<Article>)
  {
    Stories(rs, AcceptedIdx(rs, mode, |rs|), svc)
  }

  /** The keys of the records at the given indices. */
  function KeysOf(rs: seq<RawArticle>, idx: seq<nat>, mode: DedupBy): set<string>
    requires Below(idx, |rs|)
  {
    set a | 0 <= a < |idx| :: Key(rs[idx[a]], mode)
  }

  /** One more record for the reference definition: `KeySeen` is the
      loop's membership test on `seen`. */
  lemma AcceptedStep(rs: seq<RawArticle>, mode: DedupBy, i: nat)
    requires i < |rs|
    ensures var prev := AcceptedIdx(rs, mode, i);
      AcceptedIdx(rs, mode, i + 1) ==
        if IsValid(rs[i]) && (mode.NoDedup? || Key(rs[i], mode) !in KeysOf(rs, prev, mode))
        then prev + [i] else prev
  {
    var prev := AcceptedIdx(rs, mode, i);
    if Key(rs[i], mode) in KeysOf(rs, prev, mode) {
      var a :| 0 <= a < |prev| && Key(rs[prev[a]], mode) == Key(rs[i], mode);
      assert KeySeen(rs, prev, mode, i);
    }
  }

  lemma StoriesAppend(rs: seq<RawArticle>, idx: seq<nat>, i: nat, svc: Services)
    requires ValidAt(rs, idx)
    requires i < |rs| && IsValid(rs[i])
    ensures ValidAt(rs, idx + [i])
    ensures Stories(rs, idx + [i], svc) == Stories(rs, idx, svc) + [ToStory(rs[i], svc)]
  {
    var ext := idx + [i];
    assert forall a :: 0 <= a < |idx| ==> ext[a] == idx[a];
  }

  lemma KeysOfAppend(rs: seq<RawArticle>, idx: seq<nat>, mode: DedupBy, i: nat)
    requires Below(idx, |rs|) && i < |rs|
    ensures KeysOf(rs, idx + [i], mode) == KeysOf(rs, idx, mode) + {Key(rs[i], mode)}
  {
    var ext := idx + [i];
    assert ext[|idx|] == i;
    forall x | x in KeysOf(rs, idx, mode)
      ensures x in KeysOf(rs, ext, mode)
    {
      var a :| 0 <= a < |idx| && Key(rs[idx[a]], mode) == x;
      assert ext[a] == idx[a];
    }
  }

  /** What the loop has built after its first i iterations. */
  predicate Progress(rs: seq<RawArticle>, mode: DedupBy, svc: Services, i: nat,
                     articles: seq<Article>, seen: set<string>)
    requires i <= |rs|
  {
    && articles == Stories(rs, AcceptedIdx(rs, mode, i), svc)
    && seen == KeysOf(rs, AcceptedIdx(rs, mode, i), mode)
  }

  /** An iteration that accepts record i keeps `Progress`. */
  lemma AcceptProgress(rs: seq<RawArticle>, mode: DedupBy, svc: Services, i: nat,
                       articles: seq<Article>, seen: set<string>)
    requires i < |rs| && Progress(rs, mode, svc, i, articles, seen)
    requires IsValid(rs[i]) && (mode.NoDedup? || Key(rs[i], mode) !in seen)
    ensures Progress(rs, mode, svc, i + 1, articles + [ToStory(rs[i], svc)], seen + {Key(rs[i], mode)})
  {
    var idx := AcceptedIdx(rs, mode, i);
    AcceptedStep(rs, mode, i);
    KeysOfAppend(rs, idx, mode, i);
    StoriesAppend(rs, idx, i, svc);
  }

  /** An iteration that skips record i keeps `Progress`. */
  lemma SkipProgress(rs: seq<RawArticle>, mode: DedupBy, svc: Services, i: nat,
                     articles: seq<Article>, seen: set<string>)
    requires i < |rs| && Progress(rs, mode, svc, i, articles, seen)
    requires !(IsValid(rs[i]) && (mode.NoDedup? || Key(rs[i], mode) !in seen))
    ensures Progress(rs, mode, svc, i + 1, articles, seen)
  {
    AcceptedStep(rs, mode, i);
  }

  /** One iteration of the loop: record i is skipped when it lacks a
      description or link or, when deduplicating, its key is in `seen`;
      otherwise its key is remembered and its article appended. */
  method Visit(results: seq<RawArticle>, mode: DedupBy, svc: Services, i: nat,
               articles: seq<Article>, seen: set<string>)
    returns (articles': seq<Article>, seen': set<string>)
    requires i < |results| && Progress(results, mode, svc, i, articles, seen)
    ensures Progress(results, mode, svc, i + 1, articles', seen')
  {
    var r := results[i];
    if IsValid(r) && (mode.NoDedup? || Key(r, mode) !in seen) {
      AcceptProgress(results, mode, svc, i, articles, seen);
      seen' := seen + {Key(r, mode)};
      articles' := articles + [ToStory(r, svc)];
    } else {
      SkipProgress(results, mode, svc, i, articles, seen);
      articles', seen' := articles, seen;
    }
  }

  /** The loop as the source writes it, with its `seen` set of keys. */
  method Normalize(results: seq<RawArticle>, mode: DedupBy, svc: Services) returns (articles: seq<Article>)
    ensures articles == Normalized(results, mode, svc)
  {
    articles := [];
    var seen: set<string> := {};
    var i := 0;
    while i < |results|
      invariant 0 <= i <= |results|
      invariant Progress(results, mode, svc, i, articles, seen)
    {
      articles, seen := Visit(results, mode, svc, i, articles, seen);
      i := i + 1;
    }
  }

  /** The emitted articles are stories with a description and a link, and
      their keys are pairwise distinct when the loop deduplicates. */
  lemma NormalizedFacts(rs: seq<RawArticle>, mode: DedupBy, svc: Services)
    ensures var out := Normalized(rs, mode, svc);
      && (forall k :: 0 <= k < |out| ==> out[k].Story? && out[k].description != "" && out[k].url != "")
      && (mode.ById? ==> forall a, b :: 0 <= a < b < |out| ==> out[a].id != out[b].id)
      && (mode.ByLink? ==> forall a, b :: 0 <= a < b < |out| ==> out[a].url != out[b].url)
  {
    var idx := AcceptedIdx(rs, mode, |rs|);
    if !mode.NoDedup? {
      forall a, b | 0 <= a < b < |idx|
        ensures Key(rs[idx[a]], mode) != Key(rs[idx[b]], mode)
      {
        AcceptedExactly(rs, mode, |rs|, idx[b]);
        assert idx[b] in idx;
      }
    }
  }

  /** Record j becomes an article exactly when it is valid and, if the loop
      deduplicates, no earlier valid record has the same key: the first
      occurrence of each key wins. */
  lemma {:induction false} AcceptedExactly(rs: seq<RawArticle>, mode: DedupBy, n: nat, j: nat)
    requires j < n <= |rs|
    ensures j in AcceptedIdx(rs, mode, n) <==>
      IsValid(rs[j]) &&
      (mode.NoDedup? || forall p :: 0 <= p < j && IsValid(rs[p]) ==> Key(rs[p], mode) != Key(rs[j], mode))
  {
    var prev := AcceptedIdx(rs, mode, n - 1);
    if j < n - 1 {
      AcceptedExactly(rs, mode, n - 1, j);
      assert j != n - 1;
    } else if !mode.NoDedup? && IsValid(rs[j]) && !KeySeen(rs, prev, mode, j) {
      forall p | 0 <= p < j && IsValid(rs[p])
        ensures Key(rs[p], mode) != Key(rs[j], mode)
      {
        KeyCovered(rs, mode, j, p);
      }
    }
  }

  /** Among the first n records, every valid record's key is the key of some
      emitted article. */
  lemma {:induction false} KeyCovered(rs: seq<RawArticle>, mode: DedupBy, n: nat, p: nat)
    requires p < n <= |rs| && IsValid(rs[p])
    ensures exists a :: 0 <= a < |AcceptedIdx(rs, mode, n)| && Key(rs[AcceptedIdx(rs, mode, n)[a]], mode) == Key(rs[p], mode)
  {
    var idx := AcceptedIdx(rs, mode, n);
    var prev := AcceptedIdx(rs, mode, n - 1);
    if p < n - 1 {
      KeyCovered(rs, mode, n - 1, p);
      var a :| 0 <= a < |prev| && Key(rs[prev[a]], mode) == Key(rs[p], mode);
      assert idx[a] == prev[a];
    } else if idx == prev + [n - 1] {
      assert idx[|prev|] == p;
    } else {
      assert KeySeen(rs, prev, mode, n - 1);
    }
  }
}
