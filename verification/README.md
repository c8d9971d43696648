# SmartNewsHub core rules in Dafny

SmartNewsHub is a Flask news site. It fetches headlines, Indian news and
search results from a news provider, normalises and de-duplicates them,
enriches them with AI summaries and tags, and serves them through a few
routes. The site also has a daily-fact widget and response
post-processing. This project models the deterministic rules inside that
glue and proves what they guarantee:

- **`Similarity`**: the greedy near-duplicate pass of
  `_detect_similar_content`. The TF-IDF cosine test is an oracle
  `similar(i, j)`.
- **`Articles`**: the record-normalisation loops of the fetchers. This
  covers the validity filter, the id choice `article_id or link`, and
  first-occurrence de-duplication by id or by link.
- **`News`**, covering:
  - the primary/fallback decision of `_make_api_request`;
  - the three fetchers with their empty-result error paths;
  - the balancing of global against Indian headlines in
    `get_global_and_local_news`.
- **`Summaries`**: word chunking (`_split_text`), the summary-length
  arithmetic and the truncation fallback of `_generate_summary`.
- **`Keywords`**: stop-word keyword extraction with `Counter.most_common(5)`
  ranking (`_extract_keywords`), and tag merging (`_generate_tags`).
- **`Routes`**: the category URL decision (redirect, error or render) and
  the empty-search short cut.
- **`Performance`**: `minify_html`, `optimize_static_urls` and
  `add_performance_headers`.
- **`Facts`**: the `get_daily_fact` cache as a state-transition function.
- **`Text`**, **`Seqs`**, **`Wrappers`**: Python string built-ins on ASCII
  (`split`, `" ".join`, `strip`, `lower`, decimal digits), index
  sequences, and `Option`.

Everything outside the program is a parameter. That means each HTTP
call's outcome (it raises, or a status code with a decoded body), the
clock, the similarity oracle, the summarisation model, and the opaque
collaborators: date formatting, AI enrichment and URL quoting.

JSON fields of a provider record are three-valued: absent, `null`, or a
string. `.get(k, d)` substitutes `d` only for an absent key, while
truthiness means "a non-empty string".

A `requests.Response` is truthy exactly when its status is below 400 or
at least 600. So the fetchers' `if not response` also rejects HTTP error
statuses. As a result, the explicit `status_code == 422` test in
`search_news` can never fire, and `News.Search422IsAlreadyFalsy` records
this. The outcome is the same empty result either way.

The fallback credential is tried after any primary status other than 200,
not only after error statuses.

## Model

| member | source | states |
|---|---|---|
| Similarity.Kept | flask_app/news_service.py:187-201 | The indices the greedy pass keeps are strictly increasing, below the input length, and no more than it |
| Similarity.DetectSimilarContent | flask_app/news_service.py:160-208 | The loop with its `seen_indices` set returns exactly the articles at the kept indices, in order. An empty input, or a similarity step that raises, is returned unchanged. The output is never longer than the input, and a non-empty input keeps its first article |
| Similarity.Deduplicated | flask_app/news_service.py:160-208 | The near-duplicate pass only deletes: its output is its input read at strictly increasing positions, never longer, and a non-empty input keeps its first article |
| Similarity.MarkSimilarAfter | flask_app/news_service.py:195-201 | After the inner loop for article i, a later index is marked if and only if it was marked before or is similar to i |
| Similarity.KeptStartsWithFirst | flask_app/news_service.py:187-192 | Index 0 is always the first kept index |
| Similarity.KeptExactly | flask_app/news_service.py:187-201 | Index j is kept if and only if no kept index below j is similar to it |
| Similarity.KeptStable | flask_app/news_service.py:187-201 | Whether an earlier article is kept never depends on the articles after it |
| Similarity.KeptPairsDissimilar | flask_app/news_service.py:195-201 | No two kept articles i < j are similar |
| Similarity.DroppedHasKeeper | flask_app/news_service.py:188-201 | Every dropped article has an earlier kept article similar to it |
| Articles.IdOf | flask_app/news_service.py:262 | The id `article_id or link` of a record that passed the filter is never empty |
| Articles.PublishedAt | flask_app/news_service.py:555-556 | The published date is None exactly when the raw `pubDate` is falsy |
| Articles.ToStory | flask_app/news_service.py:270-284 | The article built from a record copies its description and link, takes the chosen id, and defaults a missing title to "Untitled Article" and a missing source to "Unknown Source" |
| Articles.AcceptedIdx | flask_app/news_service.py:253-268 | The records among the first n that a normalisation loop turns into articles are valid, below n, and taken in increasing input order |
| Articles.Visit | flask_app/news_service.py:256-284 | One iteration keeps the loop's invariant: the articles and the `seen` keys are those of the records the reference definition accepts among those read so far |
| Articles.Normalize | flask_app/news_service.py:253-284 | The loop with its `seen` set of keys emits exactly the articles of the accepted records, in input order |
| Articles.AcceptedExactly | flask_app/news_service.py:256-268 | A record is emitted if and only if it has a truthy description and link and, when the loop deduplicates, no earlier valid record has the same key: the first occurrence wins |
| Articles.KeyCovered | flask_app/news_service.py:265-268 | Every valid record's key is the key of some emitted article |
| Articles.NormalizedFacts | flask_app/news_service.py:256-284 | Every emitted article has a non-empty description and url. Ids are pairwise distinct when deduplicating by id, and urls when deduplicating by link |
| News.MakeApiRequest | flask_app/news_service.py:130-158 | The primary response is returned if and only if its status is 200. The fallback is tried exactly when the primary failed or raised and a fallback key is set, and its response is returned whatever its status. Otherwise the result is None |
| News.SuccessBody | flask_app/news_service.py:240-251 | A body is used if and only if it decodes, has status 'success' and carries a results list, and the body used is the reply's own |
| News.FeedPage | flask_app/news_service.py:210-358 | Every article on a feed page is a story with a non-empty description and url, and a request that gets no response gives `([], None)` |
| News.GetHeadlines | flask_app/news_service.py:210-293 | No usable response, or a body that is not a success, gives `([], None)`. Otherwise the result is the by-id deduplicated articles after the near-duplicate pass (unfiltered when the similarity step raises), with the reply's next-page token. The method equals the page function `FeedPage` in by-id mode |
| News.GetIndianNews | flask_app/news_service.py:295-358 | The same as the headlines, except that records are not deduplicated by id: the method equals `FeedPage` without deduplication, and its articles go through the same near-duplicate pass (unfiltered when the similarity step raises) |
| News.SearchNews | flask_app/news_service.py:387-486 | Without an API key, no request is made and the result is `([], None)`. A falsy response, status 422 or a non-success body also gives `([], None)`. Otherwise the result is the by-link deduplicated articles plus a suggestion entry when the provider suggests a query, after the near-duplicate pass (unfiltered when the similarity step raises) |
| News.SearchPage | flask_app/news_service.py:436-482 | Once a usable reply is in hand, the page is the by-link loop's articles plus the suggestion entry, after the near-duplicate pass, with the reply's next-page token |
| News.Search422IsAlreadyFalsy | flask_app/news_service.py:409-416 | A response with status 422 is already rejected by the falsy-response test |
| News.WithoutUrls | flask_app/news_service.py:370-371 | The filtered Indian list holds exactly the Indian articles whose url is not a global url, and is no longer than the input |
| News.WithoutUrlsInOrder | flask_app/news_service.py:370-371 | The filter keeps exactly the positions whose url is not a global url, repeats included, in input order: the result is the input read at those positions |
| News.Balance | flask_app/news_service.py:369-385 | Both lists have equal length. Each is a prefix of its source, with the Indian source URL-filtered first, and one of them is taken whole. No Indian url equals a global url, and the next-page tokens pass through |
| News.GetGlobalAndLocalNews | flask_app/news_service.py:360-385 | The home page is the balancing of the by-id global feed page and the undeduplicated Indian feed page, each as `FeedPage` builds it from its own request. So the lists are equally long and share no url, the global list is a prefix of the fetched global articles, and the two next-page tokens are those of the two fetches |
| Summaries.SplitText | flask_app/ai_service.py:246-277 | The loop's chunks are those of the word-by-word reference packing. The words of the chunks, in order, are exactly `text.split()`. A chunk of two or more words is at most `max_length` long. Only the first chunk can be empty, and it is empty if and only if the first word is at least `max_length` long. Empty or whitespace-only text gives no chunks |
| Summaries.SummaryLength | flask_app/ai_service.py:104-110 | The requested length never exceeds `max_length` and is at least 30 when `max_length` allows it. Texts of 100 words or more get at least 50, shorter texts less than 50 |
| Summaries.DefaultSummaryLength | flask_app/ai_service.py:104-122 | With the default limit of 150 the requested length lies in [30, 150], and the minimum passed with it does not exceed it |
| Summaries.SummaryLengthMonotonic | flask_app/ai_service.py:104-110 | A longer text never gets a shorter requested summary |
| Summaries.PrefixSlice | flask_app/ai_service.py:101 | `text[:m]` is a prefix of the text of length min(m, len) for m >= 0, and len + m (at least 0) for negative m |
| Summaries.Truncated | flask_app/ai_service.py:100-101 | The fallback summary is a prefix of the text followed by "...". It is at most `max_length` + 3 long, and it is the whole text plus "..." when the text fits |
| Summaries.SummarizeChunks | flask_app/ai_service.py:117-124 | The loop over the chunks gives an answer for every chunk, in order, exactly when no call raises, and nothing otherwise |
| Summaries.GenerateSummary | flask_app/ai_service.py:87-129 | Without a model the summary is the truncation. With a model, the chunks are those of the reference packing with limit 1024 and cover the text's words. If every chunk's call succeeds, the summary is their summaries joined by spaces, each requested with the computed lengths. If a call raises, the summary is the truncation |
| Keywords.Clean | flask_app/ai_service.py:231 | The cleaned text holds only word and whitespace characters, none of them upper case |
| Keywords.CleanExactly | flask_app/ai_service.py:231 | The cleaned text is the lower-cased text read at exactly the positions holding a word or whitespace character, in order: only punctuation is removed |
| Keywords.CleanKeepsClean | flask_app/ai_service.py:231 | Text that is already lower case and free of punctuation is unchanged by cleaning |
| Keywords.RemoveStopWords | flask_app/ai_service.py:234-235 | A word survives if and only if it occurs in the list and is not one of the 14 stop words |
| Keywords.RemoveStopWordsExactly | flask_app/ai_service.py:234-235 | The filter keeps exactly the positions that do not hold a stop word, repeats included, in input order |
| Keywords.ContentWordsShape | flask_app/ai_service.py:231-235 | Every counted word is a non-empty lower-case run of word characters and not a stop word |
| Keywords.FirstSeen | flask_app/ai_service.py:238 | The Counter's keys are distinct and are exactly the words of the list |
| Keywords.Insert | flask_app/ai_service.py:241 | Inserting an entry into a ranked list gives a ranked list of the old entries plus the new one |
| Keywords.Sort | flask_app/ai_service.py:241 | Sorting gives the same entries ranked by count descending, ties by first occurrence |
| Keywords.Ranked | flask_app/ai_service.py:238-241 | `most_common()` ranks one entry per distinct counted word, each with its own count and first index, by count descending and then by first occurrence |
| Keywords.ExtractKeywords | flask_app/ai_service.py:241 | At most five keywords are returned |
| Keywords.KeywordsRanked | flask_app/ai_service.py:235-241 | The keywords are distinct counted words, min(5, number of distinct words) of them. Each ranks strictly before the next: a higher count, or an equal count and an earlier first occurrence |
| Keywords.KeywordsComplete | flask_app/ai_service.py:238-241 | Every counted word that is not a keyword ranks after every keyword |
| Keywords.KeywordsShape | flask_app/ai_service.py:231-241 | Every keyword is a non-empty lower-case run of word characters and not a stop word |
| Keywords.GenerateTags | flask_app/ai_service.py:197-214 | The tags are distinct, and each is a topic or a keyword. There are min(5, number of distinct topics and keywords) of them |
| Routes.CategoryRoute | flask_app/routes.py:37-64 | A redirect always targets a valid category. A rendered page has a valid category and the cache key `category_` + that category |
| Routes.CategoryDecision | flask_app/routes.py:37-64 | Exactly one of three outcomes. A name in the valid list renders under itself. A name not in the list whose lower-case form is valid redirects to that form. A name whose lower-case form is not valid gets the error page |
| Routes.RedirectSettles | flask_app/routes.py:45-46 | Following a redirect always reaches a rendered page, so there are no redirect chains or loops |
| Routes.SearchRoute | flask_app/routes.py:66-77 | An absent or empty `q` renders an empty result without searching. Any other query is searched as given |
| Performance.RemoveComments | flask_app/utils/performance.py:23 | Removing comments never makes the text longer |
| Performance.RemoveCommentsNoOpener | flask_app/utils/performance.py:23 | Text containing no `<!--` is unchanged by comment removal |
| Performance.RemoveCommentsDropsComment | flask_app/utils/performance.py:23 | A comment `<!--` x `-->` whose body holds no `-->` is removed with both delimiters, and removal continues after it |
| Performance.RemoveCommentsPrefix | flask_app/utils/performance.py:23 | Text in which no `<!--` starts is kept as it is, and removal continues with what follows |
| Performance.RemoveCommentsDeletesOnly | flask_app/utils/performance.py:23 | Comment removal only deletes characters: the output is the input read at strictly increasing positions |
| Performance.CollapseTagGaps | flask_app/utils/performance.py:26 | Collapsing gaps never makes the text longer and keeps its first character |
| Performance.CollapseGapFree | flask_app/utils/performance.py:26 | After the substitution, no `>` is followed by whitespace only and then `<` |
| Performance.CollapseGapFreeIdentity | flask_app/utils/performance.py:26 | Text with no such gap is unchanged by the substitution |
| Performance.CollapseDropsSpaces | flask_app/utils/performance.py:26 | The substitution deletes only whitespace lying strictly between a `>` and a `<` with nothing but whitespace between them. Every other character is kept, in order |
| Performance.MinifyHtml | flask_app/utils/performance.py:12-31 | The minified html has no leading or trailing whitespace, no `>` whitespace `<` run, and is no longer than the input |
| Performance.MinifyDeletesOnly | flask_app/utils/performance.py:12-31 | Minification only deletes characters: the page is the input read at strictly increasing positions |
| Performance.MinifyCommentFreeDropsSpaces | flask_app/utils/performance.py:26-29 | On markup without `<!--`, every deleted character is whitespace in a `>`-whitespace-`<` gap, or leading or trailing whitespace. Everything else survives, in order |
| Performance.MinifyKeepsMinified | flask_app/utils/performance.py:23-29 | Markup with no `<!--`, no tag gap and no outer whitespace is returned unchanged |
| Performance.OptimizeStaticUrl | flask_app/utils/performance.py:87-101 | A url not under `/static/` is unchanged. A static url is followed by `&` if it already contains `?`, else by `?`, then `v=` and the decimal digits of the version, with no leading zero |
| Performance.AddPerformanceHeaders | flask_app/utils/performance.py:63-84 | The three security headers are always set. A `/static/` path gets only the long-lived Cache-Control; any other path gets the no-cache Cache-Control, Pragma and Expires. No other header is added, removed or changed |
| Facts.GetDailyFact | flask_app/facts_service.py:10-40 | The web service is asked if and only if the call is forced, nothing is cached, or the cache is at least a day old. Without a request, the cached fact is returned and the state is unchanged. On status 200 the new fact becomes the cache, stamped with the fetch time. On any other status, or on an exception (including a missing `text`), a fixed fallback is returned and the state is untouched. From a consistent state every returned fact has source 'PlanetPulse' |
| Facts.StepKeepsConsistent | flask_app/facts_service.py:5-27 | The two fields start unset and are always set together, and a cached fact always has source 'PlanetPulse' |
| Facts.CachedWithinDay | flask_app/facts_service.py:12-27 | After a successful fetch, an unforced call less than a day later returns the same fact without a request. At a day or more it fetches again |
| Facts.InitialFetches | flask_app/facts_service.py:5-14 | The first call of a fresh service always makes a request |
| Text.Split | flask_app/ai_service.py:258 | `split()` yields non-empty words free of whitespace, and text starting with a non-space character has a first word starting with it |
| Text.SplitAtSpace | flask_app/ai_service.py:258 | Any whitespace character separates words: splitting two texts joined by one gives the two splits concatenated. With `Split("") == []` and `SplitWord` this determines `split()` on every text |
| Text.SplitJoin | flask_app/ai_service.py:258-277 | Splitting words joined by single spaces gives the words back |
| Text.Strip | flask_app/utils/performance.py:29 | `strip()` gives the slice of the text that starts after the leading whitespace and has no outer whitespace. Everything cut off on either side is whitespace, and text without outer whitespace is unchanged |
| Text.ParseNatToString | flask_app/utils/performance.py:98-100 | The decimal rendering of a number reads back as that number |

## Left out

- HTTP, configuration and request parameters: the provider and fact API
  calls, `.env` loading, the API-key probe in the constructor, and the
  page/category/query parameters sent to the provider. Each call is an
  outcome parameter.
- TF-IDF vectorisation and cosine similarity (floating point, sklearn).
  The boolean oracle `similar(i, j)` stands for "similarity above 0.7".
- AI enrichment (`_process_article_with_ai`, the transformers pipelines,
  TextBlob, the ORM writes). It is an opaque function giving optional
  summary, sentiment and tags.
- `_format_date`: the strptime/strftime formatting is an opaque function.
  Only its falsy-input branch is modelled.
- `get_local_news` and `get_breaking_news` fall outside the modelled core.
- The `country=` keyword passed to `get_headlines` by the category route
  and the scheduler: `get_headlines` does not accept it. These call sites
  are not modelled.
- A `results` value that is not a list of objects is not modelled. An
  entry that is not an object makes `article.get` raise, and the fetcher's
  catch-all handler then returns `([], None)`. The model assumes every
  entry is an object. A body that is not an object is modelled as
  `Malformed`, which leads to the same empty result.
- Non-string JSON values (numbers, lists) in provider records and in the
  fact body are not modelled. The fact body's `permalink` is absent or a
  string, never `null`.
- Summaries.SplitText: the `except` branch returning `[text]` is not
  modelled, because nothing in the loop can raise.
- Keywords.GenerateTags: the `except` branch returning `[]` is not
  modelled, because keyword extraction already catches its own errors.
  Topics are assumed to be a list of strings.
- Keywords.ExtractKeywords: its `except` branch is not modelled, because
  nothing in it can raise on a string.
- Summaries.GenerateSummary: the summarisation model either answers with
  one summary text or raises. A reply without `summary_text` counts as
  raising.
- Performance.MinifyHtml: no idempotence is claimed. Removing one comment
  can splice a new one together: "<!-<!---->- x -->" becomes
  "<!-- x -->".
- Performance.MinifyDeletesOnly: on markup with comments it states only
  that characters are deleted. Which ones is stated for each comment by
  Performance.RemoveCommentsDropsComment and Performance.RemoveCommentsPrefix.
- Performance.AddPerformanceHeaders: header names are compared exactly,
  whereas Werkzeug's header map ignores case.
- Unicode: `\w`, `\s`, `lower()`, `split()` and `strip()` are modelled on
  ASCII only.
- Flask routing, templates, `flask_caching`, the scheduler, the
  `performance_monitor` timer, and the other modules (models, auth,
  personalisation, sitemap, image optimiser, JavaScript) fall outside the
  modelled core.
- The `index` and `random_fact` views are not modelled. Their cache
  lookups are framework plumbing.
