/**
 What a caller of the HTTP cache is promised, in terms of the messages alone: when a stored response is
 given out, what it carries, what a 304 confirms, and what an unsafe method empties.
 */
module CachePromises {
  import opened Options
  import opened Text
  import opened Headers
  import opened HttpDates
  import opened CacheEntries
  import opened CachePolicy
  import opened CacheReading
  import opened CacheStoreRuns
  import opened HttpCaching
  import opened HttpCacheRuns

  // ----- Dates and ages -----

  predicate Dated(h: HeaderMap, name: string) {
    var values := GetAll(h, name);
    values != [] && AllVisible(values[0]) && HttpDate(values[0]).Some?
  }

  /** The instant a date field names, in nanoseconds. */
  function Instant(h: HeaderMap, name: string): int
    requires Dated(h, name)
  {
    HttpDate(GetAll(h, name)[0]).value * 1_000_000_000
  }

  /** When the response was made: its `Date`, or when it arrived if that cannot be read. */
  function MadeAt(e: CacheEntry): int {
    if Dated(e.headers, "date") then Instant(e.headers, "date") else e.receivedAt
  }

  /** The seconds of age it arrived with. */
  function ArrivedAged(e: CacheEntry): nat {
    var values := GetAll(e.headers, "age");
    if values == [] || !AllVisible(values[0]) then 0
    else match DeltaSeconds(values[0]) case None => 0 case Some(n) => n
  }

  /** Time from one instant to another; a clock that went back passes none. */
  function Passed(from: int, to: int): nat {
    if from < to then to - from else 0
  }

  /** Both ways of reckoning its age at `now` come out below `limit`. */
  predicate Younger(e: CacheEntry, now: int, limit: int) {
    && Passed(MadeAt(e), e.receivedAt) + Passed(e.receivedAt, now) < limit
    && ArrivedAged(e) * 1_000_000_000 + Passed(e.requestedAt, e.receivedAt) + Passed(e.receivedAt, now) < limit
  }

  lemma FieldsAreRead(e: CacheEntry)
    ensures EffectiveDate(e) == MadeAt(e)
    ensures (match AgeField(e) case Some(n) => n case None => 0) == ArrivedAged(e)
  {
  }

  lemma DateIsRead(h: HeaderMap, name: string)
    ensures DateField(h, name) == if Dated(h, name) then Some(Instant(h, name)) else None
  {
  }

  lemma YoungerIff(e: CacheEntry, now: int, limit: nat)
    ensures CurrentAge(e, now) < limit <==> Younger(e, now, limit) || DURATION_MAX < limit
  {
    FieldsAreRead(e);
  }

  /** The least upper bound of the two reckonings, or the largest duration. */
  ghost predicate IsItsAge(e: CacheEntry, now: int, age: nat) {
    forall limit: nat {:trigger Younger(e, now, limit)} :: limit <= DURATION_MAX ==> (age < limit <==> Younger(e, now, limit))
  }

  // ----- Freshness -----

  predicate WithinExpiry(e: CacheEntry, now: int, expires: int) {
    MadeAt(e) < expires && (Younger(e, now, expires - MadeAt(e)) || DURATION_MAX < expires - MadeAt(e))
  }

  predicate WithinGuess(config: CacheConfig, e: CacheEntry, now: int, modified: int) {
    var tenth := (MadeAt(e) - modified) / 10;
    && modified <= MadeAt(e)
    && (Younger(e, now, tenth) || DURATION_MAX < tenth)
    && (Younger(e, now, config.heuristicCap) || DURATION_MAX < config.heuristicCap)
  }

  /** Statuses whose lifetime may be guessed. */
  predicate Guessable(status: nat) {
    status in {200, 203, 204, 300, 301, 308, 404, 405, 410, 414, 501}
  }

  /** What may be stored is what may be guessed about, and the two temporary redirects. */
  lemma StorableStatusIff(status: nat)
    ensures CacheableStatus(status) <==> Guessable(status) || status == 302 || status == 307
  {
  }

  ghost predicate HasMaxAge(h: HeaderMap) {
    exists n: nat :: LastGiven(Directives(h), "max-age", n)
  }

  ghost predicate WithinMaxAge(e: CacheEntry, now: int) {
    exists n: nat :: LastGiven(Directives(e.headers), "max-age", n) && Younger(e, now, n * 1_000_000_000)
  }

  /** Within its lifetime: `max-age` if given, else `Expires`, else a tenth of the time since its last change. */
  ghost predicate StillGood(config: CacheConfig, e: CacheEntry, now: int) {
    if HasMaxAge(e.headers) then WithinMaxAge(e, now)
    else if GetAll(e.headers, "expires") != [] then
      WithinExpiry(e, now, if Dated(e.headers, "expires") then Instant(e.headers, "expires") else 0)
    else
      Guessable(e.status) && Dated(e.headers, "last-modified") && WithinGuess(config, e, now, Instant(e.headers, "last-modified"))
  }

  lemma FreshByMaxAge(config: CacheConfig, e: CacheEntry, cc: CacheControl, now: int)
    requires cc.maxAge.Some? && cc.maxAge.value <= U64_MAX && !cc.noCache
    ensures IsFresh(e, cc, config, now) <==> Younger(e, now, cc.maxAge.value * 1_000_000_000)
  {
    YoungerIff(e, now, cc.maxAge.value * SECOND);
  }

  lemma FreshByExpiry(config: CacheConfig, e: CacheEntry, cc: CacheControl, now: int)
    requires cc.maxAge.None? && !cc.noCache && GetAll(e.headers, "expires") != []
    ensures IsFresh(e, cc, config, now) <==>
            WithinExpiry(e, now, if Dated(e.headers, "expires") then Instant(e.headers, "expires") else 0)
  {
    FieldsAreRead(e);
    DateIsRead(e.headers, "expires");
    var expires := if Dated(e.headers, "expires") then Instant(e.headers, "expires") else 0;
    assert ExpiresField(e) == Some(expires);
    YoungerIff(e, now, Since(expires, MadeAt(e)));
  }

  lemma GuessIff(config: CacheConfig, e: CacheEntry, now: int, modified: int)
    requires modified <= MadeAt(e)
    ensures CurrentAge(e, now) < MinNat((MadeAt(e) - modified) / 10, config.heuristicCap) <==>
            WithinGuess(config, e, now, modified)
  {
    var tenth, cap := (MadeAt(e) - modified) / 10, config.heuristicCap;
    YoungerIff(e, now, tenth);
    YoungerIff(e, now, cap);
  }

  lemma GuessIs(config: CacheConfig, e: CacheEntry)
    ensures GuessFor(e, config) ==
            if !Guessable(e.status) then None
            else Tenth(MadeAt(e), if Dated(e.headers, "last-modified") then Some(Instant(e.headers, "last-modified")) else None,
                       config.heuristicCap)
  {
    FieldsAreRead(e);
    DateIsRead(e.headers, "last-modified");
  }

  lemma TenthIs(made: int, modified: Option<int>, cap: nat)
    ensures Tenth(made, modified, cap).Some? <==> modified.Some? && modified.value <= made
    ensures modified.Some? && modified.value <= made ==>
              Tenth(made, modified, cap) == Some(MinNat((made - modified.value) / 10, cap))
  {
  }

  lemma FreshByGuess(config: CacheConfig, e: CacheEntry, cc: CacheControl, now: int)
    requires cc.maxAge.None? && !cc.noCache && GetAll(e.headers, "expires") == []
    ensures IsFresh(e, cc, config, now) <==>
            && Guessable(e.status) && Dated(e.headers, "last-modified")
            && WithinGuess(config, e, now, Instant(e.headers, "last-modified"))
  {
    var dated := Dated(e.headers, "last-modified");
    var modified := if dated then Some(Instant(e.headers, "last-modified")) else None;
    GuessIs(config, e);
    TenthIs(MadeAt(e), modified, config.heuristicCap);
    if dated && modified.value <= MadeAt(e) { GuessIff(config, e, now, modified.value); }
  }

  lemma FreshIff(config: CacheConfig, e: CacheEntry, now: int)
    ensures IsFresh(e, ControlOf(e.headers), config, now) <==>
            !Lists(Directives(e.headers), "no-cache") && StillGood(config, e, now)
  {
    var cc := ControlOf(e.headers);
    DirectiveIffListed(e.headers);
    forall n: nat ensures cc.maxAge == Some(n) <==> LastGiven(Directives(e.headers), "max-age", n) {
      SecondsAreTheLast(e.headers, n);
    }
    if !cc.noCache {
      if cc.maxAge.Some? {
        assert LastGiven(Directives(e.headers), "max-age", cc.maxAge.value);
        assert WithinMaxAge(e, now) <==> Younger(e, now, cc.maxAge.value * 1_000_000_000);
        GivenIsBounded(Directives(e.headers), "max-age", cc.maxAge.value);
        FreshByMaxAge(config, e, cc, now);
      } else if GetAll(e.headers, "expires") != [] {
        FreshByExpiry(config, e, cc, now);
      } else {
        FreshByGuess(config, e, cc, now);
      }
    }
  }

  lemma GivenIsBounded(tokens: seq<string>, name: string, n: nat)
    requires LastGiven(tokens, name, n)
    ensures n <= U64_MAX
  {
    var i :| 0 <= i < |tokens| && AllGiven(tokens, name)[i] == Some(n);
    assert Given(tokens[i], name) == Some(n);
  }

  // ----- Hits -----

  /** The first variant whose recorded fields the request repeats. */
  predicate Candidate(variants: seq<CacheEntry>, request: HeaderMap, e: CacheEntry) {
    exists i :: 0 <= i < |variants| && variants[i] == e && e.selector.Matches(request)
                && forall k :: 0 <= k < i ==> !variants[k].selector.Matches(request)
  }

  lemma {:induction false} CandidateIsFirstMatch(variants: seq<CacheEntry>, request: HeaderMap, i: nat, e: CacheEntry)
    requires i <= |variants| && forall k :: 0 <= k < i ==> !variants[k].selector.Matches(request)
    ensures FirstMatch(variants, request, i) == Some(e) <==> Candidate(variants, request, e)
    decreases |variants| - i
  {
    if i < |variants| && !variants[i].selector.Matches(request) {
      CandidateIsFirstMatch(variants, request, i + 1, e);
    }
  }

  /** A request the cache takes on: a plain `GET` that makes no condition of its own and may be stored. */
  predicate Plain(verb: string, h: HeaderMap) {
    && verb == "GET"
    && GetAll(h, "if-none-match") == [] && GetAll(h, "if-modified-since") == [] && GetAll(h, "range") == []
    && !Lists(Directives(h), "no-store")
  }

  lemma PlainIff(verb: string, h: HeaderMap)
    ensures SetsAside(verb, h) <==> !Plain(verb, h)
  {
    InsistsIff(h);
  }

  /** A request that a stored response may answer without asking. */
  predicate Accepts(h: HeaderMap) {
    !Insists(h) && !LastGiven(Directives(h), "max-age", 0)
  }

  lemma AcceptsIff(h: HeaderMap)
    ensures RequestForcesRevalidation(ControlOfRequest(h)) <==> !Accepts(h)
  {
    InsistsIff(h);
    SecondsAreTheLast(h, 0);
  }

  lemma ServesIff(config: CacheConfig, e: CacheEntry, h: HeaderMap, now: int)
    ensures ServesAsIs(config, e, h, now) <==>
            Accepts(h) && !Lists(Directives(e.headers), "no-cache") && StillGood(config, e, now)
  {
    AcceptsIff(h);
    FreshIff(config, e, now);
  }

  /** A request takes the entry as it is, and the entry may be given out as it is. */
  ghost predicate Suits(config: CacheConfig, verb: string, h: HeaderMap, now: int, e: CacheEntry) {
    Plain(verb, h) && Accepts(h) && !Lists(Directives(e.headers), "no-cache") && StillGood(config, e, now)
  }

  /** What consulting the cache answers from, given the variants it holds: the candidate, while it suits. */
  ghost predicate AnswersFrom(config: CacheConfig, variants: seq<CacheEntry>, verb: string, h: HeaderMap, now: int,
                              served: Option<Served>) {
    served.Some? <==> exists e :: Candidate(variants, h, e) && Suits(config, verb, h, now, e)
  }

  lemma CandidateIsServedIff(config: CacheConfig, variants: seq<CacheEntry>, verb: string, h: HeaderMap, url: Url, now: int,
                             e: CacheEntry)
    requires Candidate(variants, h, e)
    ensures Before(config, variants, verb, h, url, now).served.Some? <==> Suits(config, verb, h, now, e)
  {
    CandidateIsFirstMatch(variants, h, 0, e);
    PlainIff(verb, h);
    ServesIff(config, e, h, now);
  }

  lemma BeforeAnswersFrom(config: CacheConfig, variants: seq<CacheEntry>, verb: string, h: HeaderMap, url: Url, now: int)
    ensures AnswersFrom(config, variants, verb, h, now, Before(config, variants, verb, h, url, now).served)
  {
    var r := Before(config, variants, verb, h, url, now);
    if r.served.Some? {
      var e := Select(variants, h).value;
      CandidateIsFirstMatch(variants, h, 0, e);
      CandidateIsServedIff(config, variants, verb, h, url, now, e);
    }
    if e :| Candidate(variants, h, e) && Suits(config, verb, h, now, e) {
      CandidateIsServedIff(config, variants, verb, h, url, now, e);
    }
  }

  /** A stored response is given out exactly to a request it fits, while it is still good. */
  lemma HitIff(s: Setting, c: Cache, verb: string, h: HeaderMap, url: Url, now: int, e: CacheEntry)
    requires Candidate(IdealAt(c.store, CacheKey("GET", url.target)), h, e)
    ensures Begun(s, c, verb, h, url, now).served.Some? <==>
            Plain(verb, h) && Accepts(h) && !Lists(Directives(e.headers), "no-cache") && StillGood(s.config, e, now)
  {
    PlainIff(verb, h);
    if verb == "GET" { CandidateIsServedIff(s.config, IdealAt(c.store, KeyOf(verb, url)), verb, h, url, now, e); }
  }

  /** Nothing is given out that does not fit. */
  lemma HitHasACandidate(s: Setting, c: Cache, verb: string, h: HeaderMap, url: Url, now: int) returns (e: CacheEntry)
    requires Begun(s, c, verb, h, url, now).served.Some?
    ensures Candidate(IdealAt(c.store, CacheKey("GET", url.target)), h, e)
    ensures Begun(s, c, verb, h, url, now).served.value == Serve(e, CurrentAge(e, now), Hit)
  {
    e := HitIsSelected(s, c, verb, h, url, now);
    CandidateIsFirstMatch(IdealAt(c.store, CacheKey("GET", url.target)), h, 0, e);
  }

  /** In every run, a hit on a response with a `max-age` comes before that many seconds have passed here. */
  lemma HitIsWithinMaxAge(s: Setting, events: seq<Event>, verb: string, h: HeaderMap, url: Url, now: int, n: nat)
    returns (e: CacheEntry)
    requires Begun(s, RunOf(s, events), verb, h, url, now).served.Some?
    ensures Candidate(IdealAt(RunOf(s, events).store, CacheKey("GET", url.target)), h, e)
    ensures !Lists(Directives(e.headers), "no-cache")
    ensures LastGiven(Directives(e.headers), "max-age", n) ==> now - e.receivedAt < n * 1_000_000_000
  {
    e := HitHasACandidate(s, RunOf(s, events), verb, h, url, now);
    HitIff(s, RunOf(s, events), verb, h, url, now, e);
    if LastGiven(Directives(e.headers), "max-age", n) { GoodByMaxAge(s.config, e, now, n); }
  }

  lemma OnlyLast(h: HeaderMap, n: nat)
    requires LastGiven(Directives(h), "max-age", n)
    ensures forall m: nat :: LastGiven(Directives(h), "max-age", m) <==> m == n
  {
    forall m: nat ensures LastGiven(Directives(h), "max-age", m) <==> m == n {
      SecondsAreTheLast(h, n);
      SecondsAreTheLast(h, m);
    }
  }

  /** Straight from its origin: made on arrival, with no age of its own and no delay on the way. */
  predicate Immediate(e: CacheEntry) {
    e.receivedAt <= MadeAt(e) && ArrivedAged(e) == 0 && e.receivedAt <= e.requestedAt
  }

  lemma ImmediateAge(e: CacheEntry, now: int, limit: int)
    requires Immediate(e) && e.receivedAt <= now
    ensures Younger(e, now, limit) <==> now - e.receivedAt < limit
  {
  }

  lemma GoodByMaxAge(config: CacheConfig, e: CacheEntry, now: int, n: nat)
    requires LastGiven(Directives(e.headers), "max-age", n)
    ensures StillGood(config, e, now) <==> Younger(e, now, n * 1_000_000_000)
  {
    OnlyLast(e.headers, n);
  }

  /** Such a response is a hit for exactly the seconds its `max-age` says. */
  lemma HitExactlyWithinMaxAge(s: Setting, c: Cache, h: HeaderMap, url: Url, now: int, e: CacheEntry, n: nat)
    requires Candidate(IdealAt(c.store, CacheKey("GET", url.target)), h, e) && Plain("GET", h) && Accepts(h)
    requires LastGiven(Directives(e.headers), "max-age", n) && !Lists(Directives(e.headers), "no-cache")
    requires Immediate(e) && e.receivedAt <= now
    ensures Begun(s, c, "GET", h, url, now).served.Some? <==> now - e.receivedAt < n * 1_000_000_000
  {
    HitIff(s, c, "GET", h, url, now, e);
    GoodByMaxAge(s.config, e, now, n);
    ImmediateAge(e, now, n * 1_000_000_000);
  }

  /** One without a `max-age` is a hit for as long as its `Expires` is after its `Date`. */
  lemma HitExactlyUntilExpiry(s: Setting, c: Cache, h: HeaderMap, url: Url, now: int, e: CacheEntry)
    requires Candidate(IdealAt(c.store, CacheKey("GET", url.target)), h, e) && Plain("GET", h) && Accepts(h)
    requires !HasMaxAge(e.headers) && !Lists(Directives(e.headers), "no-cache") && Dated(e.headers, "expires")
    requires Immediate(e) && e.receivedAt <= now <= e.receivedAt + DURATION_MAX
    ensures Begun(s, c, "GET", h, url, now).served.Some? <==>
            now - e.receivedAt < Instant(e.headers, "expires") - MadeAt(e)
  {
    HitIff(s, c, "GET", h, url, now, e);
    ImmediateAge(e, now, Instant(e.headers, "expires") - MadeAt(e));
  }

  /** A copy that may not be given out is asked about exactly when it has something to ask by. */
  lemma AskedAboutIff(s: Setting, c: Cache, verb: string, h: HeaderMap, url: Url, now: int, e: CacheEntry)
    requires Candidate(IdealAt(c.store, CacheKey("GET", url.target)), h, e)
    ensures var r := Begun(s, c, verb, h, url, now);
            var asked := r.pending.Store? && r.pending.state.revalidating.Some?;
            && (asked ==> r.pending.state.revalidating.value == e)
            && (asked <==> Plain(verb, h) && r.served.None?
                           && (GetAll(e.headers, "etag") != [] || GetAll(e.headers, "last-modified") != []))
  {
    CandidateIsFirstMatch(IdealAt(c.store, CacheKey("GET", url.target)), h, 0, e);
    PlainIff(verb, h);
  }

  // ----- What is given out -----

  lemma CurrentAgeIsItsAge(e: CacheEntry, now: int)
    ensures IsItsAge(e, now, CurrentAge(e, now))
  {
    forall limit: nat | limit <= DURATION_MAX ensures CurrentAge(e, now) < limit <==> Younger(e, now, limit) {
      YoungerIff(e, now, limit);
    }
  }

  /** The stored response with its age written in, in whole seconds. */
  ghost predicate GivesOut(served: Served, e: CacheEntry, age: nat) {
    && served.status == e.status && served.version == e.version && served.body == e.body
    && (forall name :: name != "age" ==> GetAll(served.headers, name) == GetAll(e.headers, name))
    && |GetAll(served.headers, "age")| == 1
    && AllDigits(GetAll(served.headers, "age")[0])
    && (var seconds := Decimal(GetAll(served.headers, "age")[0]);
        seconds * 1_000_000_000 <= age < (seconds + 1) * 1_000_000_000)
  }

  lemma ServeGivesOut(e: CacheEntry, age: nat, how: CacheStatus)
    ensures GivesOut(Serve(e, age, how), e, age)
  {
    ToTextReadsBack(age / SECOND);
  }

  /** A hit is the stored response, with its age. */
  lemma HitGivesOut(s: Setting, c: Cache, verb: string, h: HeaderMap, url: Url, now: int) returns (e: CacheEntry, age: nat)
    requires Begun(s, c, verb, h, url, now).served.Some?
    ensures Candidate(IdealAt(c.store, CacheKey("GET", url.target)), h, e)
    ensures IsItsAge(e, now, age) && GivesOut(Begun(s, c, verb, h, url, now).served.value, e, age)
  {
    e := HitHasACandidate(s, c, verb, h, url, now);
    age := CurrentAge(e, now);
    CurrentAgeIsItsAge(e, now);
    ServeGivesOut(e, age, Hit);
  }

  // ----- What a 304 confirms -----

  /** The tag without the mark that makes it weak. */
  predicate Tags(value: string, tag: string) {
    value == "W/" + tag || (value == tag && !(|tag| >= 2 && tag[0] == 'W' && tag[1] == '/'))
  }

  ghost predicate SameTag(a: string, b: string) {
    exists tag :: Tags(a, tag) && Tags(b, tag)
  }

  lemma TagIs(value: string, tag: string)
    ensures Tags(value, tag) <==> OpaqueTag(value) == tag
  {
    assert value == "W/" + tag ==> value[2..] == tag;
    assert "W/" <= value ==> value == "W/" + value[2..];
  }

  lemma SameTagIff(a: string, b: string)
    ensures SameTag(a, b) <==> OpaqueTag(a) == OpaqueTag(b)
  {
    forall tag ensures (Tags(a, tag) <==> OpaqueTag(a) == tag) && (Tags(b, tag) <==> OpaqueTag(b) == tag) {
      TagIs(a, tag);
      TagIs(b, tag);
    }
    assert Tags(a, OpaqueTag(a));
  }

  /** The 304 names no other representation, and selects by no other fields. */
  ghost predicate SpeaksOf(stored: HeaderMap, notModified: HeaderMap) {
    && (GetAll(stored, "etag") != [] && GetAll(notModified, "etag") != [] ==>
          SameTag(GetAll(stored, "etag")[0], GetAll(notModified, "etag")[0]))
    && (GetAll(notModified, "vary") != [] ==> SelectsAlike(GetAll(stored, "vary"), GetAll(notModified, "vary")))
  }

  ghost predicate SelectsAlike(a: seq<string>, b: seq<string>) {
    Selectable(a) && Selectable(b) && forall name :: VariesOn(a, name) <==> VariesOn(b, name)
  }

  lemma SelectsAlikeIff(a: HeaderMap, b: HeaderMap)
    ensures SelectsAlike(GetAll(a, "vary"), GetAll(b, "vary")) <==> VaryNames(a).Some? && VaryNames(b) == VaryNames(a)
  {
    VaryIsRead(a);
    VaryIsRead(b);
    if Selectable(GetAll(a, "vary")) && Selectable(GetAll(b, "vary")) { VaryAgreesIff(a, b); }
  }

  lemma ConfirmsIff(e: CacheEntry, response: Response)
    ensures Confirms(e, response) <==> response.status == 304 && SpeaksOf(e.headers, response.headers)
  {
    SelectsAlikeIff(e.headers, response.headers);
    if GetAll(e.headers, "etag") != [] && GetAll(response.headers, "etag") != [] {
      SameTagIff(GetAll(e.headers, "etag")[0], GetAll(response.headers, "etag")[0]);
    }
  }

  /** The stored body is used again exactly when its revalidation is answered by a 304 that speaks of it. */
  lemma ReuseIff(s: Setting, pending: Pending, url: Url, response: Response, now: int)
    ensures HttpCaching.After(s.config, s.resolve, pending, url, response, now).Reuse? <==>
            && pending.Store? && pending.state.revalidating.Some?
            && response.status == 304 && SpeaksOf(pending.state.revalidating.value.headers, response.headers)
  {
    if pending.Store? && pending.state.revalidating.Some? { ConfirmsIff(pending.state.revalidating.value, response); }
  }

  /** Fields of a 304 that are about the connection or about the 304 itself. */
  predicate OfTheMessage(name: string) {
    name in {"connection", "keep-alive", "proxy-authenticate", "proxy-authorization", "proxy-connection", "te", "trailer",
             "transfer-encoding", "upgrade", "content-length"}
  }

  /** The entry brought up to date: the 304's fields over its own, and its clock started again. */
  ghost predicate UpToDate(e: CacheEntry, x: Exchange, notModified: HeaderMap, now: int, r: CacheEntry) {
    && r.status == e.status && r.version == e.version && r.body == e.body && r.selector == e.selector
    && r.requestedAt == x.requestedAt && r.receivedAt == now
    && forall name :: GetAll(r.headers, name) ==
                      if GetAll(notModified, name) != [] && !OfTheMessage(name) then GetAll(notModified, name)
                      else GetAll(e.headers, name)
  }

  lemma RefreshedIsUpToDate(e: CacheEntry, x: Exchange, notModified: HeaderMap, now: int)
    ensures UpToDate(e, x, notModified, now, Refreshed(e, notModified, x.requestedAt, now))
  {
    forall name ensures GetAll(Merged(e.headers, notModified), name) ==
                        if GetAll(notModified, name) != [] && !OfTheMessage(name) then GetAll(notModified, name)
                        else GetAll(e.headers, name) {
      MergedField(e.headers, notModified, name);
    }
  }

  /** What a revalidated caller gets, and what is kept of it. */
  lemma RevalidatedGivesOut(s: Setting, pending: Pending, url: Url, response: Response, now: int) returns (age: nat)
    requires HttpCaching.After(s.config, s.resolve, pending, url, response, now).Reuse?
    ensures pending.Store? && pending.state.revalidating.Some?
    ensures var v, x := HttpCaching.After(s.config, s.resolve, pending, url, response, now), pending.state;
            && v.key == x.key && UpToDate(x.revalidating.value, x, response.headers, now, v.refreshed)
            && v.served.how == Revalidated && IsItsAge(v.refreshed, now, age) && GivesOut(v.served, v.refreshed, age)
            && (v.keep <==> exists names :: MayStore(s.config, "GET", x.requestHeaders, x.requestCc, v.refreshed.status,
                                                     v.refreshed.headers, ControlOf(v.refreshed.headers), names))
  {
    var x := pending.state;
    var r := Refreshed(x.revalidating.value, response.headers, x.requestedAt, now);
    RefreshedIsUpToDate(x.revalidating.value, x, response.headers, now);
    age := CurrentAge(r, now);
    CurrentAgeIsItsAge(r, now);
    ServeGivesOut(r, age, Revalidated);
    AdmissionIff(s.config, x, r.status, r.headers);
  }

  lemma AdmissionIff(config: CacheConfig, x: Exchange, status: nat, h: HeaderMap)
    ensures Admission(config, x, status, h).Ok? <==>
            exists names :: MayStore(config, "GET", x.requestHeaders, x.requestCc, status, h, ControlOf(h), names)
  {
    var r := Admission(config, x, status, h);
    forall names
      ensures r == Ok(names) <==> MayStore(config, "GET", x.requestHeaders, x.requestCc, status, h, ControlOf(h), names)
    {
      AdmittedIff(config, "GET", x.requestHeaders, x.requestCc, status, h, ControlOf(h), names);
    }
  }

  /** Any other answer is recorded exactly when it may be stored and is not declared too long. */
  lemma RecordedIff(s: Setting, pending: Pending, url: Url, response: Response, now: int)
    ensures var v := HttpCaching.After(s.config, s.resolve, pending, url, response, now);
            v.RecordAs? <==>
            && pending.Store? && !v.Reuse?
            && (exists names :: MayStore(s.config, "GET", pending.state.requestHeaders, pending.state.requestCc, response.status,
                                         response.headers, ControlOf(response.headers), names))
            && (response.length.None? || response.length.value <= s.config.maxBodyBytes)
  {
    if pending.Store? { AdmissionIff(s.config, pending.state, response.status, response.headers); }
  }

  /** What is recorded of an answer: itself, its selector, and when it was asked for and came. */
  lemma RecordedAs(s: Setting, pending: Pending, url: Url, response: Response, now: int)
    requires HttpCaching.After(s.config, s.resolve, pending, url, response, now).RecordAs?
    ensures pending.Store?
    ensures var v := HttpCaching.After(s.config, s.resolve, pending, url, response, now);
            && v.commit.key == pending.state.key && v.commit.status == response.status && v.commit.version == response.version
            && v.commit.requestedAt == pending.state.requestedAt && v.commit.receivedAt == now
            && v.commit.limit == s.config.maxBodyBytes && v.commit.headers == WithoutHopByHop(response.headers)
            && v.commit.selector == SelectorOf(v.names, pending.state.requestHeaders)
            && VaryNames(response.headers) == Some(v.names)
  {
    AdmittedIff(s.config, "GET", pending.state.requestHeaders, pending.state.requestCc, response.status, response.headers,
                ControlOf(response.headers), HttpCaching.After(s.config, s.resolve, pending, url, response, now).names);
  }

  // ----- What is emptied -----

  /** The field names a target of the same origin. */
  predicate Refers(resolve: (Url, string) -> Option<Url>, url: Url, h: HeaderMap, name: string, key: CacheKey) {
    var values := GetAll(h, name);
    values != [] && AllVisible(values[0]) &&
    match resolve(url, values[0])
    case None => false
    case Some(target) => target.origin == url.origin && key == CacheKey("GET", target.target)
  }

  lemma ReferencedIff(resolve: (Url, string) -> Option<Url>, url: Url, h: HeaderMap, name: string, key: CacheKey)
    ensures key in Referenced(resolve, url, h, name) <==> Refers(resolve, url, h, name, key)
  {
  }

  /** What a successful answer to an unsafe method makes untrue. */
  predicate MadeUntrue(resolve: (Url, string) -> Option<Url>, url: Url, response: Response, key: CacheKey) {
    && response.status < 400
    && (|| key == CacheKey("GET", url.target)
        || Refers(resolve, url, response.headers, "location", key)
        || Refers(resolve, url, response.headers, "content-location", key))
  }

  lemma InvalidatedIff(s: Setting, store: Ideal, url: Url, response: Response, key: CacheKey)
    ensures IdealAt(Dropping(store, Invalidated(s.resolve, url, response)), key) ==
            if MadeUntrue(s.resolve, url, response, key) then [] else IdealAt(store, key)
  {
    ReferencedIff(s.resolve, url, response.headers, "location", key);
    ReferencedIff(s.resolve, url, response.headers, "content-location", key);
    DroppingIsExact(store, Invalidated(s.resolve, url, response), key);
  }

  /**
   The answer to a request the cache stands aside from: an unsafe method empties exactly what it made
   untrue, and a safe one nothing.
   */
  lemma AsideEmpties(s: Setting, c: Cache, id: nat, begun: Cache, verb: string, h: HeaderMap, url: Url, sent: int,
                     response: Response, now: int, key: CacheKey)
    requires !Plain(verb, h)
    ensures var pending := Begun(s, begun, verb, h, url, sent).pending;
            IdealAt(Replied(s, c, id, pending, url, response, now).store, key) ==
            if verb !in {"GET", "HEAD", "OPTIONS", "TRACE"} && MadeUntrue(s.resolve, url, response, key) then []
            else IdealAt(c.store, key)
  {
    PlainIff(verb, h);
    InvalidatedIff(s, c.store, url, response, key);
    assert IsSafe(verb) <==> verb in {"GET", "HEAD", "OPTIONS", "TRACE"};
  }

  /**
   An answer that is neither used again nor recorded drops its own target exactly when it may not be
   stored and either forbids storing or superseded what was asked about; it touches no other.
   */
  lemma PassedOnDrops(s: Setting, c: Cache, id: nat, x: Exchange, url: Url, response: Response, now: int, key: CacheKey)
    requires HttpCaching.After(s.config, s.resolve, Store(x), url, response, now).PassOn?
    ensures var mayStore := exists names :: MayStore(s.config, "GET", x.requestHeaders, x.requestCc, response.status,
                                                     response.headers, ControlOf(response.headers), names);
            IdealAt(Replied(s, c, id, Store(x), url, response, now).store, key) ==
            if key == x.key && !mayStore && (Lists(Directives(response.headers), "no-store") || x.revalidating.Some?) then []
            else IdealAt(c.store, key)
  {
    AdmissionIff(s.config, x, response.status, response.headers);
    DirectiveIffListed(response.headers);
    DroppingIsExact(c.store, [x.key], key);
    DroppingIsExact(c.store, [], key);
  }
}
