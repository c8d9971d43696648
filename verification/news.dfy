/**
 * The fetch pipeline of `NewsService`: the primary/fallback request helper,
 * the three fetchers that read the provider's reply, normalise it and drop
 * near-duplicates, and the balancing of global against Indian headlines for
 * the home page.
 *
 * The HTTP calls are not modelled: each call's outcome (an exception or a
 * response with a status code and a decoded body) is a parameter.
 */
module News {

  import opened Wrappers
  import opened Seqs
  import opened Similarity
  import opened Articles

  /** The decoded JSON body of a provider reply. */
  datatype Payload =
      /** `response.json()` raises, or the decoded value is not an object so
          that `data.get` raises: either way the handler returns `([], None)`. */
    | Malformed
    | Payload(
        status: Field,
        nextPage: Field,
        /** `data.get('results', [])`: a missing key reads as the empty list;
            None stands for a JSON null, which the loop cannot iterate. */
        results: Option<seq<RawArticle>>,
        suggestedQuery: Field)

  datatype Response = Response(statusCode: int, payload: Payload)

  /** The outcome of one `requests.get`. */
  datatype Attempt = Raises | Responds(response: Response)

  /** What the network does for one call of the request helper: the primary
      attempt, the configured fallback key, and the fallback attempt (only
      consulted when the helper makes it). */
  datatype Network = Network(primary: Attempt, fallbackKey: Option<string>, fallback: Attempt)

  /** The request helper's result, and whether it made the fallback call. */
  datatype Request = Request(response: Option<Response>, triedFallback: bool)

  /** A fetcher's `(articles, next_page)` pair. */
  datatype Page = Page(articles: seq<Article>, nextPage: Option<string>)

  const EmptyPage := Page([], None)

  predicate Truthy(s: Option<string>) {
    s.Some? && s.value != ""
  }

  predicate PrimaryAccepted(net: Network) {
    net.primary.Responds? && net.primary.response.statusCode == 200
  }

  /** `_make_api_request`: the primary response when its status is 200;
      otherwise, when a fallback key is configured, whatever the fallback
      call returns (None if it raises); otherwise None. */
  function MakeApiRequest(net: Network): (r: Request)
    ensures PrimaryAccepted(net) <==> (!r.triedFallback && r.response.Some?)
    ensures PrimaryAccepted(net) ==> r.response == Some(net.primary.response)
    ensures r.triedFallback <==> !PrimaryAccepted(net) && Truthy(net.fallbackKey)
    ensures r.triedFallback ==>
      r.response == (if net.fallback.Responds? then Some(net.fallback.response) else None)
    ensures !PrimaryAccepted(net) && !Truthy(net.fallbackKey) ==> r.response == None
  {
    if PrimaryAccepted(net) then Request(Some(net.primary.response), false)
    else if Truthy(net.fallbackKey) then
      Request(if net.fallback.Responds? then Some(net.fallback.response) else None, true)
    else Request(None, false)
  }

  /** `raise_for_status` raises for 400 <= status < 600; this is also the
      truthiness of a `requests.Response`. */
  predicate StatusOk(status: int) {
    !(400 <= status < 600)
  }

  /** `if not response`: no response, or one whose status is an error. */
  predicate NoUsableResponse(r: Option<Response>) {
    r.None? || !StatusOk(r.value.statusCode)
  }

  /** The body when it decodes, reports success and carries a results list. */
  function SuccessBody(r: Response): (p: Option<Payload>)
    ensures p.Some? <==> r.payload.Payload? && r.payload.status == Text("success") && r.payload.results.Some?
    ensures p.Some? ==> p.value == r.payload
  {
    if r.payload.Payload? && r.payload.status == Text("success") && r.payload.results.Some?
    then Some(r.payload) else None
  }

  /** The page a fetcher builds from one request: empty when no usable
      reply arrives, otherwise the normalised records (deduplicated as
      `mode` says) after the near-duplicate pass, with the reply's
      next-page token. */
  function FeedPage(net: Network, step: SimilarityStep, svc: Services, mode: DedupBy): (page: Page)
    ensures forall k :: 0 <= k < |page.articles| ==>
      page.articles[k].Story? && page.articles[k].description != "" && page.articles[k].url != ""
    ensures MakeApiRequest(net).response.None? ==> page == EmptyPage
  {
    var resp := MakeApiRequest(net).response;
    if NoUsableResponse(resp) || SuccessBody(resp.value).None? then EmptyPage
    else
      var body := SuccessBody(resp.value).value;
      NormalizedFacts(body.results.value, mode, svc);
      Page(Deduplicated(Normalized(body.results.value, mode, svc), step), body.nextPage.Get())
  }

  /** `get_headlines`: records deduplicated by id, then near-duplicates removed. */
  method GetHeadlines(net: Network, step: SimilarityStep, svc: Services) returns (page: Page)
    ensures page == FeedPage(net, step, svc, ById)
    ensures var resp := MakeApiRequest(net).response;
      NoUsableResponse(resp) || SuccessBody(resp.value).None? ==> page == EmptyPage
    ensures var resp := MakeApiRequest(net).response;
      !NoUsableResponse(resp) && SuccessBody(resp.value).Some? ==>
        var body := SuccessBody(resp.value).value;
        page == Page(Deduplicated(Normalized(body.results.value, ById, svc), step), body.nextPage.Get())
  {
    var resp := MakeApiRequest(net).response;
    if NoUsableResponse(resp) {
      return EmptyPage;
    }
    var body := SuccessBody(resp.value);
    if body.None? {
      return EmptyPage;
    }
    var articles := Normalize(body.value.results.value, ById, svc);
    articles := DetectSimilarContent(articles, step);
    return Page(articles, body.value.nextPage.Get());
  }

  /** `get_indian_news`: the same as headlines but without deduplication by id. */
  method GetIndianNews(net: Network, step: SimilarityStep, svc: Services) returns (page: Page)
    ensures page == FeedPage(net, step, svc, NoDedup)
    ensures var resp := MakeApiRequest(net).response;
      NoUsableResponse(resp) || SuccessBody(resp.value).None? ==> page == EmptyPage
    ensures var resp := MakeApiRequest(net).response;
      !NoUsableResponse(resp) && SuccessBody(resp.value).Some? ==>
        var body := SuccessBody(resp.value).value;
        page == Page(Deduplicated(Normalized(body.results.value, NoDedup, svc), step), body.nextPage.Get())
  {
    var resp := MakeApiRequest(net).response;
    if NoUsableResponse(resp) {
      return EmptyPage;
    }
    var body := SuccessBody(resp.value);
    if body.None? {
      return EmptyPage;
    }
    var articles := Normalize(body.value.results.value, NoDedup, svc);
    articles := DetectSimilarContent(articles, step);
    return Page(articles, body.value.nextPage.Get());
  }

  /** The entry a search appends when the provider suggests another query. */
  function SuggestionFor(query: string, svc: Services): Article
  {
    Suggestion(
      "Did you mean \"" + query + "\"?",
      "We found more results for \"" + query + "\". Click to search with this term.",
      "/search?q=" + svc.quotePlus(query))
  }

  /** What a search returns for a reply, once the key and status checks pass. */
  function SearchArticles(body: Payload, svc: Services): seq<Article>
    requires body.Payload? && body.results.Some?
  {
    Normalized(body.results.value, ByLink, svc)
      + (if body.suggestedQuery.Truthy() then [SuggestionFor(body.suggestedQuery.s, svc)] else [])
  }

  /** `search_news`: refuses without an API key, treats status 422 as an
      error, deduplicates by link and appends a suggestion entry when the
      provider offers a corrected query. The result says whether a request
      was made at all. */
  method SearchNews(apiKey: Option<string>, net: Network, step: SimilarityStep, svc: Services)
    returns (page: Page, requested: bool)
    ensures !Truthy(apiKey) ==> page == EmptyPage && !requested
    ensures Truthy(apiKey) ==> requested
    ensures var resp := MakeApiRequest(net).response;
      (NoUsableResponse(resp) || resp.value.statusCode == 422 || SuccessBody(resp.value).None?)
      ==> page == EmptyPage
    ensures var resp := MakeApiRequest(net).response;
      Truthy(apiKey) && !NoUsableResponse(resp) && resp.value.statusCode != 422 && SuccessBody(resp.value).Some? ==>
        var body := SuccessBody(resp.value).value;
        page == Page(Deduplicated(SearchArticles(body, svc), step), body.nextPage.Get())
  {
    if !Truthy(apiKey) {
      return EmptyPage, false;
    }
    requested := true;
    var resp := MakeApiRequest(net).response;
    if NoUsableResponse(resp) {
      return EmptyPage, requested;
    }
    if resp.value.statusCode == 422 {
      return EmptyPage, requested;
    }
    var body := SuccessBody(resp.value);
    if body.None? {
      return EmptyPage, requested;
    }
    page := SearchPage(body.value, step, svc);
  }

  /** The tail of `search_news` once a usable reply is in hand: the by-link
      loop, the suggestion entry, then the near-duplicate pass. */
  method SearchPage(body: Payload, step: SimilarityStep, svc: Services) returns (page: Page)
    requires body.Payload? && body.results.Some?
    ensures page == Page(Deduplicated(SearchArticles(body, svc), step), body.nextPage.Get())
  {
    var articles := Normalize(body.results.value, ByLink, svc);
    if body.suggestedQuery.Truthy() {
      articles := articles + [SuggestionFor(body.suggestedQuery.s, svc)];
    }
    assert articles == SearchArticles(body, svc);
    var unique := DetectSimilarContent(articles, step);
    return Page(unique, body.nextPage.Get());
  }

  /** Status 422 never reaches the search's own 422 test: a response with
      that status is already falsy. */
  lemma Search422IsAlreadyFalsy(resp: Option<Response>)
    requires resp.Some? && resp.value.statusCode == 422
    ensures NoUsableResponse(resp)
  {
  }

  function UrlsOf(xs: seq<Article>): set<string> {
    set a | a in xs :: a.url
  }

  /** The Indian articles whose URL no global article has, in order. */
  function WithoutUrls(xs: seq<Article>, urls: set<string>): (r: seq<Article>)
    ensures |r| <= |xs|
    ensures forall a :: a in r ==> a in xs && a.url !in urls
    ensures forall a :: a in xs && a.url !in urls ==> a in r
  {
    if xs == [] then []
    else (if xs[0].url in urls then [] else [xs[0]]) + WithoutUrls(xs[1..], urls)
  }

  /** The filter keeps the surviving articles in their original order,
      repeats included: it selects exactly the positions whose url is not
      in `urls`, at increasing positions. */
  lemma {:induction false} WithoutUrlsInOrder(xs: seq<Article>, urls: set<string>)
    ensures exists idx ::
      && KeepsOf(xs, WithoutUrls(xs, urls), idx)
      && (forall p :: 0 <= p < |xs| ==> (p in idx <==> xs[p].url !in urls))
    decreases |xs|
  {
    if xs == [] {
      assert KeepsOf(xs, WithoutUrls(xs, urls), []);
    } else {
      WithoutUrlsInOrder(xs[1..], urls);
      var tail :|
        && KeepsOf(xs[1..], WithoutUrls(xs[1..], urls), tail)
        && (forall p :: 0 <= p < |xs| - 1 ==> (p in tail <==> xs[1..][p].url !in urls));
      var idx := ConsPositions(xs, urls, tail);
    }
  }

  /** The positions of the first article (if it survives) and of the
      survivors of the rest. */
  lemma ConsPositions(xs: seq<Article>, urls: set<string>, tail: seq<nat>) returns (idx: seq<nat>)
    requires |xs| > 0 && KeepsOf(xs[1..], WithoutUrls(xs[1..], urls), tail)
    requires forall p :: 0 <= p < |xs| - 1 ==> (p in tail <==> xs[1..][p].url !in urls)
    ensures KeepsOf(xs, WithoutUrls(xs, urls), idx)
    ensures forall p :: 0 <= p < |xs| ==> (p in idx <==> xs[p].url !in urls)
  {
    idx := ConsKeeps(xs, xs[0].url !in urls, WithoutUrls(xs[1..], urls), tail);
    forall p | 0 < p < |xs|
      ensures p in idx <==> xs[p].url !in urls
    {
      assert xs[1..][p - 1] == xs[p];
    }
  }

  datatype HomeNews = HomeNews(
    globalNews: seq<Article>,
    indianNews: seq<Article>,
    globalNext: Option<string>,
    indianNext: Option<string>)

  /** The balancing step of `get_global_and_local_news`. */
  function Balance(global: Page, indian: Page): (h: HomeNews)
    ensures |h.globalNews| == |h.indianNews|
    ensures |h.globalNews| <= |global.articles|
    ensures h.globalNews == global.articles[..|h.globalNews|]
    ensures var unique := WithoutUrls(indian.articles, UrlsOf(global.articles));
      && |h.indianNews| <= |unique|
      && h.indianNews == unique[..|h.indianNews|]
      && (|h.globalNews| == |global.articles| || |h.indianNews| == |unique|)
    ensures forall a, b :: a in h.globalNews && b in h.indianNews ==> a.url != b.url
    ensures h.globalNext == global.nextPage && h.indianNext == indian.nextPage
  {
    var unique := WithoutUrls(indian.articles, UrlsOf(global.articles));
    var n := if |global.articles| <= |unique| then |global.articles| else |unique|;
    var g := global.articles[..n];
    var i := unique[..n];
    assert forall a :: a in g ==> a in global.articles;
    assert forall b :: b in i ==> b in unique;
    HomeNews(g, i, global.nextPage, indian.nextPage)
  }

  /** `get_global_and_local_news`: both feeds fetched independently, then
      balanced. */
  method GetGlobalAndLocalNews(globalNet: Network, globalStep: SimilarityStep,
                               indianNet: Network, indianStep: SimilarityStep, svc: Services)
    returns (home: HomeNews)
    ensures home == Balance(FeedPage(globalNet, globalStep, svc, ById), FeedPage(indianNet, indianStep, svc, NoDedup))
    ensures |home.globalNews| == |home.indianNews|
    ensures forall a, b :: a in home.globalNews && b in home.indianNews ==> a.url != b.url
    ensures home.globalNews == FeedPage(globalNet, globalStep, svc, ById).articles[..|home.globalNews|]
    ensures home.globalNext == FeedPage(globalNet, globalStep, svc, ById).nextPage
    ensures home.indianNext == FeedPage(indianNet, indianStep, svc, NoDedup).nextPage
  {
    var global := GetHeadlines(globalNet, globalStep, svc);
    var indian := GetIndianNews(indianNet, indianStep, svc);
    home := Balance(global, indian);
  }
}
