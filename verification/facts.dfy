/**
 * `FactsService.get_daily_fact`: a two-field cache (the last fact and when
 * it was fetched) in front of a random-fact web service. The clock and
 * the outcome of the web request are parameters; times are in
 * microseconds, the resolution of Python's `datetime`.
 */
module Facts {

  import opened Wrappers

  datatype Fact = Fact(text: string, source: string, permalink: string)

  /** The service's two mutable fields. */
  datatype State = State(cachedFact: Option<Fact>, lastFetchTime: Option<int>)

  const Initial: State := State(None, None)

  /** The decoded JSON body of a reply: undecodable, or an object with or
      without the `text` and `permalink` members. */
  datatype FactJson =
    | Undecodable
    | FactJson(text: Option<string>, permalink: Option<string>)

  /** What `requests.get` does: raise, or answer with a status and body. */
  datatype Fetch =
    | Raises
    | Responds(status: int, body: FactJson)

  /** One call: the state afterwards, the fact returned and whether the web
      service was asked. */
  datatype Step = Step(state: State, fact: Fact, fetched: bool)

  const Day: int := 24 * 60 * 60 * 1000000

  const Source: string := "PlanetPulse"

  const ErrorStatusFact: Fact :=
    Fact("Did you know? The internet is full of interesting facts, but sometimes they're hard to find!", Source, "")

  const ExceptionFact: Fact :=
    Fact("Did you know? Even the most reliable systems sometimes need a break!", Source, "")

  /** The cached fact may be served: not forced, both fields set and
      fetched strictly less than a day before `now`. */
  predicate Fresh(s: State, forceNew: bool, now: int) {
    && !forceNew
    && s.cachedFact.Some? && s.lastFetchTime.Some?
    && now - s.lastFetchTime.value < Day
  }

  /** `get_daily_fact(force_new)` called at time `now`; when the request is
      made its outcome is `fetch` and the clock reads `fetchedAt` after
      it. */
  function GetDailyFact(s: State, forceNew: bool, now: int, fetch: Fetch, fetchedAt: int): (r: Step)
    ensures Consistent(s) ==> r.fact.source == Source
    ensures r.fetched <==> !Fresh(s, forceNew, now)
    ensures !r.fetched ==> r.state == s && r.fact == s.cachedFact.value
    ensures r.state != s ==> r.state == State(Some(r.fact), Some(fetchedAt))
    ensures r.fetched && fetch.Responds? && fetch.status != 200 ==>
      r.fact == ErrorStatusFact && r.state == s
    ensures r.fetched && fetch.Raises? ==> r.fact == ExceptionFact && r.state == s
    ensures r.fetched && fetch.Responds? && fetch.status == 200 ==>
      if fetch.body.FactJson? && fetch.body.text.Some?
      then r.fact == Fact(fetch.body.text.value, Source, fetch.body.permalink.GetOr(""))
           && r.state == State(Some(r.fact), Some(fetchedAt))
      else r.fact == ExceptionFact && r.state == s
  {
    if Fresh(s, forceNew, now) then Step(s, s.cachedFact.value, false)
    else
      match fetch
      case Raises => Step(s, ExceptionFact, true)
      case Responds(status, body) =>
        if status != 200 then Step(s, ErrorStatusFact, true)
        else if body.Undecodable? || body.text.None? then Step(s, ExceptionFact, true)
        else
          var fact := Fact(body.text.value, Source, body.permalink.GetOr(""));
          Step(State(Some(fact), Some(fetchedAt)), fact, true)
  }

  /** The states the service can be in: both fields are set together and
      a cached fact carries the service's source name. */
  predicate Consistent(s: State) {
    && (s.cachedFact.Some? <==> s.lastFetchTime.Some?)
    && (s.cachedFact.Some? ==> s.cachedFact.value.source == Source)
  }

  /** The initial state is consistent and every call keeps it so. */
  lemma StepKeepsConsistent(s: State, forceNew: bool, now: int, fetch: Fetch, fetchedAt: int)
    requires Consistent(s)
    ensures Consistent(GetDailyFact(s, forceNew, now, fetch, fetchedAt).state)
    ensures Consistent(Initial)
  {
  }

  /** After a successful fetch, an unforced call less than a day later
      returns the same fact without asking the web service again, whatever
      that would have answered; at a day or more it asks again. */
  lemma {:induction false} CachedWithinDay(s: State, forceNew: bool, now: int, fetch: Fetch, fetchedAt: int,
                                           later: int, fetch2: Fetch, fetchedAt2: int)
    requires fetch.Responds? && fetch.status == 200 && fetch.body.FactJson? && fetch.body.text.Some?
    requires !Fresh(s, forceNew, now)
    ensures var first := GetDailyFact(s, forceNew, now, fetch, fetchedAt);
      var second := GetDailyFact(first.state, false, later, fetch2, fetchedAt2);
      && (later - fetchedAt < Day ==> second == Step(first.state, first.fact, false))
      && (later - fetchedAt >= Day ==> second.fetched)
  {
    var first := GetDailyFact(s, forceNew, now, fetch, fetchedAt);
    assert first.state == State(Some(first.fact), Some(fetchedAt));
  }

  /** The first call of a fresh service always asks the web service. */
  lemma InitialFetches(forceNew: bool, now: int, fetch: Fetch, fetchedAt: int)
    ensures GetDailyFact(Initial, forceNew, now, fetch, fetchedAt).fetched
  {
  }
}
