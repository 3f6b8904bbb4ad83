/** Runs of the cache that show where a plausible statement about it fails. */
module HttpCacheExhibits {
  import opened Options
  import opened Text
  import opened Headers
  import opened Octets
  import opened CacheEntries
  import opened CachePolicy
  import opened CacheStore
  import opened CacheStoreRuns
  import opened CacheStreams
  import opened HttpCaching
  import opened HttpCacheRuns
  import opened HttpCacheService

  // ----- A response with a validator and nothing else to decide by -----

  predicate Plain(h: HeaderMap) {
    && GetAll(h, "vary") == [] && GetAll(h, "cache-control") == []
    && !Has(h, "set-cookie") && !Has(h, "expires") && !Has(h, "last-modified") && Has(h, "etag")
  }

  lemma PlainIsAdmitted(config: CacheConfig, x: Exchange, h: HeaderMap)
    requires Plain(h) && x.requestHeaders == map[] && x.requestCc == NO_DIRECTIVES
    ensures Admission(config, x, 200, h) == Ok([])
  {
    assert VaryNames(h) == Some([]);
    AdmittedIff(config, "GET", map[], NO_DIRECTIVES, 200, h, ControlOf(h), []);
  }

  lemma PlainIsNeverFresh(config: CacheConfig, e: CacheEntry, request: HeaderMap, now: int)
    requires Plain(e.headers)
    ensures !ServesAsIs(config, e, request, now)
  {
    assert ControlOf(e.headers) == NO_DIRECTIVES;
  }

  lemma EmptyRequestIsTaken()
    ensures ControlOfRequest(map[]) == NO_DIRECTIVES && !SetsAside("GET", map[])
  {
  }

  function VisitTo(url: Url, h: HeaderMap): Visit {
    Visit(map[], url, 0, Response(200, 11, h, None), 0)
  }

  lemma NothingToStrip(h: HeaderMap)
    requires forall name :: name in h ==> !IsHopByHop(name)
    ensures WithoutHopByHop(h) == h
  {
    assert IsHopByHop("connection");
    assert GetAll(h, "connection") == [];
    assert NamedByConnection(h) == {};
    assert HopFields(h) == {};
  }

  lemma VisitIsStorable(s: Setting, url: Url, h: HeaderMap, chunk: Bytes)
    requires Plain(h) && (forall name :: name in h ==> !IsHopByHop(name))
    requires |chunk| <= s.config.maxBodyBytes && DeclaresItsLength(h, |chunk|)
    ensures Storing(s, VisitTo(url, h), [], chunk)
    ensures EntryFor(s, VisitTo(url, h), [], chunk).headers == h
  {
    EmptyRequestIsTaken();
    PlainIsAdmitted(s.config, ExchangeFor(map[], url, 0), h);
    NothingToStrip(h);
  }

  lemma {:induction false} RunInTwo(s: Setting, a: seq<Event>, b: seq<Event>)
    ensures RunOf(s, a + b) == RunFrom(s, RunOf(s, a), b)
    decreases |b|
  {
    if b == [] {
      assert a + b == a;
    } else {
      assert (a + b)[..|a + b| - 1] == a + b[..|b| - 1];
      RunInTwo(s, a, b[..|b| - 1]);
    }
  }

  lemma RunOne(s: Setting, a: seq<Event>, ev: Event)
    ensures RunOf(s, a + [ev]) == Next(s, RunOf(s, a), ev)
  {
    assert (a + [ev])[..|a|] == a;
  }

  function EntryOfVisit(s: Setting, url: Url, h: HeaderMap, chunk: Bytes): CacheEntry {
    EntryFor(s, VisitTo(url, h), [], chunk)
  }

  /** A response without hop-by-hop fields that may be stored and declares its length. */
  predicate Fits(s: Setting, h: HeaderMap, chunk: Bytes) {
    && Plain(h) && (forall name :: name in h ==> !IsHopByHop(name))
    && |chunk| <= s.config.maxBodyBytes && DeclaresItsLength(h, |chunk|)
  }

  /** After any run, a visit by an exchange of its own stores its response. */
  lemma VisitIsStored(s: Setting, events: seq<Event>, id: nat, url: Url, h: HeaderMap, chunk: Bytes)
    requires Fits(s, h, chunk) && id !in RunOf(s, events).slots
    ensures RunOf(s, events + OneChunk(id, VisitTo(url, h), chunk)).store ==
            Putting(RunOf(s, events).store, KeyOf("GET", url), EntryOfVisit(s, url, h, chunk))
  {
    VisitIsStorable(s, url, h, chunk);
    RunInTwo(s, events, OneChunk(id, VisitTo(url, h), chunk));
    OneChunkIsStored(s, RunOf(s, events), id, VisitTo(url, h), chunk, []);
  }

  lemma FirstVisit(s: Setting, url: Url, h: HeaderMap, chunk: Bytes)
    requires Fits(s, h, chunk)
    ensures IdealAt(RunOf(s, OneChunk(0, VisitTo(url, h), chunk)).store, KeyOf("GET", url)) ==
            [EntryOfVisit(s, url, h, chunk)]
  {
    var events := OneChunk(0, VisitTo(url, h), chunk);
    VisitIsStored(s, [], 0, url, h, chunk);
    assert [] + events == events;
    FirstVariant(EntryOfVisit(s, url, h, chunk));
  }

  lemma FirstVariant(e: CacheEntry)
    ensures MergeVariants([], e) == [e]
  {
    assert Standing([], e.selector, 0) == [];
  }

  // ----- A false length -----

  const TWO_LENGTHS: HeaderMap := map["etag" := ["v"], "content-length" := ["1", "2"]]

  lemma TwoLengthsArePlain()
    ensures Plain(TWO_LENGTHS)
  {
  }

  lemma EndToEnd(name: string)
    requires |name| == 4 || |name| == 14
    ensures !IsHopByHop(name)
  {
    assert forall n :: n in HOP_BY_HOP ==> |n| != 4 && |n| != 14;
  }

  lemma TwoLengthsFit(s: Setting)
    requires s.config.maxBodyBytes >= 1
    ensures Fits(s, TWO_LENGTHS, [0]) && !EveryLengthIsTrue(TWO_LENGTHS, 1)
  {
    TwoLengthsArePlain();
    SecondLengthIsUnchecked(TWO_LENGTHS);
    forall name | name in TWO_LENGTHS ensures !IsHopByHop(name) { EndToEnd(name); }
  }

  /** A run that stores it: a one-byte body is kept under a `Content-Length` of `1` and one of `2`. */
  lemma FalseLengthIsStored(s: Setting, url: Url) returns (events: seq<Event>, e: CacheEntry)
    requires s.config.maxBodyBytes >= 1
    ensures e in IdealAt(RunOf(s, events).store, KeyOf("GET", url))
    ensures !EveryLengthIsTrue(e.headers, |e.body|)
  {
    TwoLengthsFit(s);
    var h := TWO_LENGTHS;
    events := OneChunk(0, VisitTo(url, h), [0]);
    e := EntryOfVisit(s, url, h, [0]);
    FirstVisit(s, url, h, [0]);
    VisitIsStorable(s, url, h, [0]);
  }

  // ----- A confirmation -----

  /** The stored response is asked about, since it is never fresh and has a validator. */
  lemma PlainIsAskedAbout(s: Setting, c: Cache, id: nat, url: Url, e: CacheEntry)
    requires id !in c.slots && Plain(e.headers) && e.selector.Matches(map[])
    requires IdealAt(c.store, KeyOf("GET", url)) == [e]
    ensures var begun := Next(s, c, Begin(id, "GET", map[], url, 0));
            && begun.store == c.store && id in begun.slots
            && begun.slots[id] == Sent(Store(ExchangeFor(map[], url, 0).(revalidating := Some(e))), url)
  {
    EmptyRequestIsTaken();
    PlainIsNeverFresh(s.config, e, map[], 0);
    assert Select([e], map[]) == Some(e);
  }

  /** A 304 that confirms the remembered entry, and leaves it plain, puts it back refreshed. */
  lemma ConfirmedIsPutBack(s: Setting, c: Cache, id: nat, url: Url, e: CacheEntry, response: Response)
    requires e.status == 200 && Confirms(e, response) && Plain(Merged(e.headers, response.headers))
    requires id in c.slots && c.slots[id] == Sent(Store(ExchangeFor(map[], url, 0).(revalidating := Some(e))), url)
    ensures Next(s, c, Reply(id, response, 0)).store ==
            Putting(c.store, KeyOf("GET", url), Refreshed(e, response.headers, 0, 0))
  {
    var x := ExchangeFor(map[], url, 0).(revalidating := Some(e));
    EmptyRequestIsTaken();
    PlainIsAdmitted(s.config, x, Merged(e.headers, response.headers));
  }

  lemma VisitedEntry(s: Setting, url: Url, h: HeaderMap, chunk: Bytes)
    requires Fits(s, h, chunk)
    ensures var e := EntryOfVisit(s, url, h, chunk);
            && e.headers == h && e.body == chunk && e.status == 200 && e.selector == SelectorOf([], map[])
            && e.selector.Matches(map[])
  {
    VisitIsStorable(s, url, h, chunk);
  }

  lemma ReplacedVariant(d: CacheEntry, e: CacheEntry)
    requires d.selector == e.selector
    ensures MergeVariants([d], e) == [e]
  {
    assert Standing([d], e.selector, 0) == [];
  }

  // ----- A field that `Connection` names -----

  const TAGGED: HeaderMap := map["etag" := ["v"]]

  lemma TaggedFits(s: Setting, chunk: Bytes)
    requires |chunk| <= s.config.maxBodyBytes
    ensures Fits(s, TAGGED, chunk)
  {
    assert Plain(TAGGED);
    forall name | name in TAGGED ensures !IsHopByHop(name) { EndToEnd(name); }
  }

  /** A 304 with a `Connection` line that names the other field it carries. */
  const NAMING: HeaderMap := map["connection" := ["x"], "x" := ["1"]]

  lemma NamingIsHarmless()
    ensures !Has(NAMING, "etag") && !Has(NAMING, "vary") && !Has(NAMING, "cache-control") && !Has(NAMING, "set-cookie")
    ensures !Has(NAMING, "expires") && !Has(NAMING, "last-modified")
  {
  }

  lemma NamedStaysPlain()
    ensures Plain(Merged(TAGGED, NAMING))
  {
    NamingIsHarmless();
    assert Plain(TAGGED);
    MergedField(TAGGED, NAMING, "vary");
    MergedField(TAGGED, NAMING, "cache-control");
    MergedField(TAGGED, NAMING, "set-cookie");
    MergedField(TAGGED, NAMING, "expires");
    MergedField(TAGGED, NAMING, "last-modified");
    MergedField(TAGGED, NAMING, "etag");
  }

  lemma ConnectionNamesX(h: HeaderMap)
    requires GetAll(h, "connection") == ["x"]
    ensures "x" in NamedByConnection(h)
  {
    assert Trim("x") == "x" && Split("x", ',') == ["x"] by {
      SplitByOnly("x", c => c == ',');
    }
    assert Pieces("x") == ["x"] && NameOf("x") == Some("x") by {
      assert ToLower("x") == "x";
    }
    assert NamedByPieces(["x"], 1) == {"x"} && NamedIn("x") == {"x"};
    var values := GetAll(h, "connection");
    assert NamedByValues(values, 0) == {} && NamedByValues(values, 1) == {} + NamedIn(values[0]);
  }

  lemma OrdinaryX()
    ensures !IsHopByHop("x") && "x" != "content-length"
  {
    assert |"x"| == 1 && forall n :: n in HOP_BY_HOP ==> |n| >= 2;
    assert |"content-length"| == 14;
  }

  lemma NamedGetsIn()
    ensures "x" in NamedByConnection(NAMING) && Has(Merged(TAGGED, NAMING), "x")
  {
    ConnectionNamesX(NAMING);
    OrdinaryX();
    MergedField(TAGGED, NAMING, "x");
  }

  /** A run that stores it: after the 304 the entry carries the field that the 304's own `Connection` names. */
  lemma NamedFieldIsStored(s: Setting, url: Url) returns (events: seq<Event>, e: CacheEntry)
    ensures e in IdealAt(RunOf(s, events).store, KeyOf("GET", url))
    ensures events != [] && events[|events| - 1].Reply?
    ensures "x" in NamedByConnection(events[|events| - 1].response.headers) && Has(e.headers, "x")
  {
    var first := OneChunk(0, VisitTo(url, TAGGED), []);
    var begin, reply := Begin(1, "GET", map[], url, 0), Reply(1, Response(304, 11, NAMING, None), 0);
    var d := EntryOfVisit(s, url, TAGGED, []);
    TaggedFits(s, []);
    FirstVisit(s, url, TAGGED, []);
    VisitedEntry(s, url, TAGGED, []);
    OnlyItsSlot(s, 0, VisitTo(url, TAGGED), [], 1);
    PlainIsAskedAbout(s, RunOf(s, first), 1, url, d);
    RunOne(s, first, begin);
    NamedStaysPlain();
    NamedGetsIn();
    NamingIsHarmless();
    ConfirmedIsPutBack(s, RunOf(s, first + [begin]), 1, url, d, reply.response);
    RunOne(s, first + [begin], reply);
    events := first + [begin] + [reply];
    e := Refreshed(d, NAMING, 0, 0);
    ReplacedVariant(d, e);
  }

  /** An exchange of its own leaves every other slot as it was. */
  lemma OnlyItsSlot(s: Setting, id: nat, v: Visit, chunk: Bytes, other: nat)
    requires other != id
    ensures other !in RunOf(s, OneChunk(id, v, chunk)).slots
  {
    RunInTwo(s, [], OneChunk(id, v, chunk));
    assert [] + OneChunk(id, v, chunk) == OneChunk(id, v, chunk);
    ForeignEventsLeaveSlot(s, EMPTY, OneChunk(id, v, chunk), other);
  }

  // ----- An invalidated target, refilled -----

  function Posted(id: nat, url: Url): seq<Event> {
    [Begin(id, "POST", map[], url, 0), Reply(id, Response(200, 11, map[], None), 0)]
  }

  /** A successful `POST` empties its target. */
  lemma PostEmpties(s: Setting, c: Cache, id: nat, url: Url)
    requires id !in c.slots
    ensures IdealAt(RunFrom(s, c, Posted(id, url)).store, KeyOf("GET", url)) == []
  {
    var posted := Posted(id, url);
    assert posted[..1] == [posted[0]] && [posted[0]][..0] == [];
    assert RunFrom(s, c, [posted[0]]) == Next(s, c, posted[0]);
    assert Begun(s, c, "POST", map[], url, 0).pending == Invalidate;
    TargetIsInvalidated(s, c.store, url, posted[1].response);
  }

  lemma RunOfThree(s: Setting, e: Event, f: Event, g: Event)
    ensures RunOf(s, [e, f, g]) == Next(s, Next(s, Next(s, EMPTY, e), f), g)
  {
    assert [e, f, g][..2] == [e, f] && [e, f][..1] == [e] && [e][..0] == [];
    assert RunOf(s, [e]) == Next(s, EMPTY, e);
    assert RunOf(s, [e, f]) == Next(s, RunOf(s, [e]), f);
  }

  /** An exchange up to its last byte. */
  function Opened(id: nat, v: Visit): seq<Event> {
    [Begin(id, "GET", v.headers, v.url, v.sent), Reply(id, v.response, v.answered), Read(id, Data([]))]
  }

  lemma OthersAreNotOpened(s: Setting, id: nat, v: Visit, other: nat)
    requires other != id
    ensures other !in RunOf(s, Opened(id, v)).slots
  {
    RunInTwo(s, [], Opened(id, v));
    assert [] + Opened(id, v) == Opened(id, v);
    ForeignEventsLeaveSlot(s, EMPTY, Opened(id, v), other);
  }

  /** The exchange before its last byte, a `POST` having come and gone after its answer arrived. */
  lemma PostInBetween(s: Setting, v: Visit, step: ReadStep)
    requires step.chunk == []
    ensures BeforeEnd(s, EMPTY, 0, v, [], [step]) == RunFrom(s, RunOf(s, Opened(0, v)), step.meanwhile)
  {
    var e := Opened(0, v);
    RunOfThree(s, e[0], e[1], e[2]);
    assert [step][..0] == [];
    var begun := Next(s, EMPTY, e[0]);
    var replied := Next(s, begun, e[1]);
    assert RunFrom(s, begun, []) == begun && ReadAmong(s, replied, 0, []) == replied;
  }

  /**
   A run in which it is: the answer to a `GET` arrives, a `POST` empties the target, and the rest of the
   `GET`'s body then fills it again, with nothing asked for in between.
   */
  lemma InvalidatedIsRefilled(s: Setting, url: Url) returns (events: seq<Event>, i: nat, e: CacheEntry)
    ensures i < |events| && IdealAt(RunOf(s, events[..i]).store, KeyOf("GET", url)) == []
    ensures IdealAt(RunOf(s, events).store, KeyOf("GET", url)) == [e]
    ensures forall k :: i <= k < |events| ==> !events[k].Begin?
  {
    var v := VisitTo(url, TAGGED);
    var front, post := Opened(0, v), Posted(1, url);
    e := EntryOfVisit(s, url, TAGGED, []);
    OthersAreNotOpened(s, 0, v, 1);
    PostEmpties(s, RunOf(s, front), 1, url);
    RunInTwo(s, front, post);
    RunOne(s, front + post, Read(0, End));
    RefilledAtTheEnd(s, url, e);
    events, i := front + post + [Read(0, End)], 5;
    assert events[..5] == front + post;
  }

  lemma RefilledAtTheEnd(s: Setting, url: Url, e: CacheEntry)
    requires e == EntryOfVisit(s, url, TAGGED, [])
    ensures var mid := RunFrom(s, RunOf(s, Opened(0, VisitTo(url, TAGGED))), Posted(1, url));
            Next(s, mid, Read(0, End)).store == Putting(mid.store, KeyOf("GET", url), e)
    ensures MergeVariants([], e) == [e]
  {
    var v, step := VisitTo(url, TAGGED), ReadStep([], Posted(1, url));
    TaggedFits(s, []);
    VisitIsStorable(s, url, TAGGED, []);
    PostInBetween(s, v, step);
    StepIsForeign(step, 0);
    FetchedIsStored(s, EMPTY, 0, v, [], [step], []);
    FirstVariant(e);
  }

  lemma StepIsForeign(step: ReadStep, id: nat)
    requires Foreign(step.meanwhile, id)
    ensures Apart([step], id) && Whole([step]) == step.chunk && Foreign([], id)
  {
    assert [step][..0] == [] && [] + step.chunk == step.chunk;
  }

  // ----- An older body in a newer one's place -----

  /**
   A run in which it happens: a response is stored and asked about, a newer one is fetched and stored in
   its place, and the 304 that confirms the first then puts the first body back.
   */
  lemma OlderBodyComesBack(s: Setting, url: Url) returns (events: seq<Event>, n: CacheEntry, r: CacheEntry)
    requires s.config.maxBodyBytes >= 1
    ensures events != [] && IdealAt(RunOf(s, events[..|events| - 1]).store, KeyOf("GET", url)) == [n] && n.body == [0]
    ensures IdealAt(RunOf(s, events).store, KeyOf("GET", url)) == [r] && r.body == []
  {
    var first, second := OneChunk(0, VisitTo(url, TAGGED), []), OneChunk(2, VisitTo(url, TAGGED), [0]);
    var begin, reply := Begin(1, "GET", map[], url, 0), Reply(1, Response(304, 11, map[], None), 0);
    var d := EntryOfVisit(s, url, TAGGED, []);
    n, r := EntryOfVisit(s, url, TAGGED, [0]), Refreshed(d, map[], 0, 0);
    AskedAbout(s, url, d);
    FetchedMeanwhile(s, url, d, n);
    RunOne(s, first + [begin] + second, reply);
    events := first + [begin] + second + [reply];
    assert events[..|events| - 1] == first + [begin] + second;
    TaggedFits(s, []);
    TaggedFits(s, [0]);
    VisitedEntry(s, url, TAGGED, []);
    VisitedEntry(s, url, TAGGED, [0]);
    PlainIsConfirmed(d);
    ConfirmedIsPutBack(s, RunOf(s, first + [begin] + second), 1, url, d, reply.response);
    ReplacedVariant(n, r);
  }

  lemma PlainIsConfirmed(d: CacheEntry)
    requires d.headers == TAGGED
    ensures Merged(d.headers, map[]) == TAGGED && Plain(TAGGED) && Confirms(d, Response(304, 11, map[], None))
  {
  }

  lemma AskedAbout(s: Setting, url: Url, d: CacheEntry)
    requires d == EntryOfVisit(s, url, TAGGED, [])
    ensures var c := RunOf(s, OneChunk(0, VisitTo(url, TAGGED), []) + [Begin(1, "GET", map[], url, 0)]);
            && IdealAt(c.store, KeyOf("GET", url)) == [d] && 2 !in c.slots && 1 in c.slots
            && c.slots[1] == Sent(Store(ExchangeFor(map[], url, 0).(revalidating := Some(d))), url)
  {
    var first, begin := OneChunk(0, VisitTo(url, TAGGED), []), Begin(1, "GET", map[], url, 0);
    TaggedFits(s, []);
    FirstVisit(s, url, TAGGED, []);
    VisitedEntry(s, url, TAGGED, []);
    OnlyItsSlot(s, 0, VisitTo(url, TAGGED), [], 1);
    OnlyItsSlot(s, 0, VisitTo(url, TAGGED), [], 2);
    PlainIsAskedAbout(s, RunOf(s, first), 1, url, d);
    RunOne(s, first, begin);
    ForeignEventLeavesSlot(s, RunOf(s, first), begin, 2);
  }

  /** Whatever another exchange does, one that waits for its answer keeps waiting. */
  lemma StillWaiting(s: Setting, events: seq<Event>, id: nat, v: Visit, chunk: Bytes, other: nat)
    requires other != id
    ensures SameSlot(RunOf(s, events + OneChunk(id, v, chunk)), RunOf(s, events), other)
  {
    RunInTwo(s, events, OneChunk(id, v, chunk));
    ForeignEventsLeaveSlot(s, RunOf(s, events), OneChunk(id, v, chunk), other);
  }

  lemma FetchedMeanwhile(s: Setting, url: Url, d: CacheEntry, n: CacheEntry)
    requires s.config.maxBodyBytes >= 1
    requires d == EntryOfVisit(s, url, TAGGED, []) && n == EntryOfVisit(s, url, TAGGED, [0])
    ensures var events := OneChunk(0, VisitTo(url, TAGGED), []) + [Begin(1, "GET", map[], url, 0)];
            var c := RunOf(s, events + OneChunk(2, VisitTo(url, TAGGED), [0]));
            && IdealAt(c.store, KeyOf("GET", url)) == [n] && 1 in c.slots
            && c.slots[1] == Sent(Store(ExchangeFor(map[], url, 0).(revalidating := Some(d))), url)
  {
    var events := OneChunk(0, VisitTo(url, TAGGED), []) + [Begin(1, "GET", map[], url, 0)];
    AskedAbout(s, url, d);
    TaggedFits(s, []);
    TaggedFits(s, [0]);
    VisitedEntry(s, url, TAGGED, []);
    VisitedEntry(s, url, TAGGED, [0]);
    VisitIsStored(s, events, 2, url, TAGGED, [0]);
    ReplacedVariant(d, n);
    StillWaiting(s, events, 2, VisitTo(url, TAGGED), [0], 1);
  }
}
