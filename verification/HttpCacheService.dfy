/** What the cache gives back for what it was given, whatever other exchanges run in between. */
module HttpCacheService {
  import opened Options
  import opened Headers
  import opened Octets
  import opened CacheEntries
  import opened CachePolicy
  import opened CacheStore
  import opened CacheStoreRuns
  import opened CacheStreams
  import opened HttpCaching
  import opened HttpCacheRuns

  // ----- One exchange among others -----

  predicate Addresses(e: Event, id: nat) {
    !e.Forget? && e.id == id
  }

  /** Events of other exchanges, and the store forgetting. */
  predicate Foreign(events: seq<Event>, id: nat) {
    forall i :: 0 <= i < |events| ==> !Addresses(events[i], id)
  }

  function RunFrom(s: Setting, c: Cache, events: seq<Event>): Cache {
    if events == [] then c else Next(s, RunFrom(s, c, events[..|events| - 1]), events[|events| - 1])
  }

  predicate SameSlot(a: Cache, b: Cache, id: nat) {
    (id in a.slots <==> id in b.slots) && (id in a.slots ==> a.slots[id] == b.slots[id])
  }

  lemma ForeignEventLeavesSlot(s: Setting, c: Cache, e: Event, id: nat)
    requires !Addresses(e, id)
    ensures SameSlot(Next(s, c, e), c, id)
  {
  }

  lemma {:induction false} ForeignEventsLeaveSlot(s: Setting, c: Cache, events: seq<Event>, id: nat)
    requires Foreign(events, id)
    ensures SameSlot(RunFrom(s, c, events), c, id)
    decreases |events|
  {
    if events != [] {
      var front := events[..|events| - 1];
      ForeignEventsLeaveSlot(s, c, front, id);
      ForeignEventLeavesSlot(s, RunFrom(s, c, front), events[|events| - 1], id);
    }
  }

  /** A chunk the caller steps, and what happens elsewhere before it steps on. */
  datatype ReadStep = ReadStep(chunk: Bytes, meanwhile: seq<Event>)

  function Whole(steps: seq<ReadStep>): Bytes {
    if steps == [] then [] else Whole(steps[..|steps| - 1]) + steps[|steps| - 1].chunk
  }

  predicate Apart(steps: seq<ReadStep>, id: nat) {
    forall i :: 0 <= i < |steps| ==> Foreign(steps[i].meanwhile, id)
  }

  function ReadAmong(s: Setting, c: Cache, id: nat, steps: seq<ReadStep>): Cache {
    if steps == [] then c
    else
      var last := steps[|steps| - 1];
      RunFrom(s, Next(s, ReadAmong(s, c, id, steps[..|steps| - 1]), Read(id, Data(last.chunk))), last.meanwhile)
  }

  predicate Recording(c: Cache, id: nat, slot: Slot, commit: Commit, body: Bytes)
    requires slot.Reading?
  {
    id in c.slots && c.slots[id] == slot.(recorder := Recorder(body, Some(commit)), delivered := body, whole := true)
  }

  lemma ChunkIsRecorded(s: Setting, c: Cache, id: nat, slot: Slot, commit: Commit, body: Bytes, chunk: Bytes)
    requires slot.Reading? && Recording(c, id, slot, commit, body) && |body + chunk| <= commit.limit
    ensures Recording(Next(s, c, Read(id, Data(chunk))), id, slot, commit, body + chunk)
  {
  }

  /** Reading only fills the recorder with what the caller was given, while it fits. */
  lemma {:induction false} ChunksAreRecorded(s: Setting, c: Cache, id: nat, slot: Slot, commit: Commit,
                                             steps: seq<ReadStep>)
    requires slot.Reading? && Recording(c, id, slot, commit, []) && Apart(steps, id)
    requires |Whole(steps)| <= commit.limit
    ensures Recording(ReadAmong(s, c, id, steps), id, slot, commit, Whole(steps))
    decreases |steps|
  {
    if steps != [] {
      var front, last := steps[..|steps| - 1], steps[|steps| - 1];
      ChunksAreRecorded(s, c, id, slot, commit, front);
      ChunkIsRecorded(s, ReadAmong(s, c, id, front), id, slot, commit, Whole(front), last.chunk);
      ForeignEventsLeaveSlot(s, Next(s, ReadAmong(s, c, id, front), Read(id, Data(last.chunk))), last.meanwhile, id);
    }
  }

  // ----- Fetching -----

  function ExchangeFor(h: HeaderMap, url: Url, sent: int): Exchange {
    Exchange(KeyOf("GET", url), h, ControlOfRequest(h), sent, None)
  }

  /** A request, the answer it gets, and when each was seen. */
  datatype Visit = Visit(headers: HeaderMap, url: Url, sent: int, response: Response, answered: int)
  {
    function Key(): CacheKey {
      KeyOf("GET", url)
    }
  }

  function EntryFor(s: Setting, v: Visit, names: seq<string>, body: Bytes): CacheEntry {
    EntryOf(CommitFor(s.config, ExchangeFor(v.headers, v.url, v.sent), v.response, names, v.answered), body)
  }

  /** An answer that may be stored, with a body that fits and is as long as it declares. */
  predicate Storing(s: Setting, v: Visit, names: seq<string>, body: Bytes) {
    && !SetsAside("GET", v.headers)
    && Admission(s.config, ExchangeFor(v.headers, v.url, v.sent), v.response.status, v.response.headers) == Ok(names)
    && (v.response.length.Some? ==> v.response.length.value <= s.config.maxBodyBytes)
    && |body| <= s.config.maxBodyBytes
    && DeclaresItsLength(WithoutHopByHop(v.response.headers), |body|)
  }

  /** The exchange up to its last byte, with other exchanges in between. */
  function BeforeEnd(s: Setting, c: Cache, id: nat, v: Visit, between: seq<Event>, steps: seq<ReadStep>): Cache {
    var begun := Next(s, c, Begin(id, "GET", v.headers, v.url, v.sent));
    var replied := Next(s, RunFrom(s, begun, between), Reply(id, v.response, v.answered));
    ReadAmong(s, replied, id, steps)
  }

  function Fetched(s: Setting, c: Cache, id: nat, v: Visit, between: seq<Event>, steps: seq<ReadStep>): Cache {
    Next(s, BeforeEnd(s, c, id, v, between, steps), Read(id, End))
  }

  lemma RequestIsRemembered(s: Setting, c: Cache, id: nat, v: Visit)
    requires id !in c.slots && !SetsAside("GET", v.headers)
    ensures var begun := Next(s, c, Begin(id, "GET", v.headers, v.url, v.sent));
            && id in begun.slots && begun.slots[id].Sent? && begun.slots[id].url == v.url && begun.slots[id].pending.Store?
            && begun.slots[id].pending.state.(revalidating := None) == ExchangeFor(v.headers, v.url, v.sent)
  {
    PendingShape(s.config, IdealAt(c.store, v.Key()), "GET", v.headers, v.url, v.sent);
  }

  lemma StorableAnswerIsRecorded(s: Setting, x: Exchange, v: Visit, names: seq<string>, body: Bytes)
    requires Storing(s, v, names, body) && x.(revalidating := None) == ExchangeFor(v.headers, v.url, v.sent)
    ensures Judge(s.config, x, v.response, v.answered) ==
            RecordAs(names, CommitFor(s.config, ExchangeFor(v.headers, v.url, v.sent), v.response, names, v.answered))
  {
    AdmittedIff(s.config, "GET", v.headers, ControlOfRequest(v.headers), v.response.status, v.response.headers,
                ControlOf(v.response.headers), names);
    assert v.response.status != 304;
  }

  lemma ReplyIsRecorded(s: Setting, c: Cache, id: nat, x: Exchange, v: Visit, names: seq<string>, body: Bytes)
    requires Storing(s, v, names, body) && x.(revalidating := None) == ExchangeFor(v.headers, v.url, v.sent)
    requires id in c.slots && c.slots[id] == Sent(Store(x), v.url)
    ensures var commit := CommitFor(s.config, ExchangeFor(v.headers, v.url, v.sent), v.response, names, v.answered);
            Next(s, c, Reply(id, v.response, v.answered)) ==
            c.(slots := c.slots[id := Reading(x, v.response, names, Recorder([], Some(commit)), [], true)])
  {
    StorableAnswerIsRecorded(s, x, v, names, body);
  }

  lemma EndIsCommitted(s: Setting, c: Cache, id: nat, slot: Slot, commit: Commit, body: Bytes)
    requires slot.Reading? && Recording(c, id, slot, commit, body) && DeclaresItsLength(commit.headers, |body|)
    ensures var after := Next(s, c, Read(id, End));
            && after.store == Putting(c.store, slot.state.key, EntryOf(commit, body))
            && after.log == c.log + [Fetch(slot.state.key, slot.state.requestHeaders, slot.head.headers, body)]
  {
  }

  /**
   However it is interleaved with others, an exchange whose answer may be stored and is read to its end
   puts exactly that response under its target, in place of whatever had its selector, and nothing else.
   */
  lemma FetchedIsStored(s: Setting, c: Cache, id: nat, v: Visit, between: seq<Event>, steps: seq<ReadStep>,
                        names: seq<string>)
    requires id !in c.slots && Foreign(between, id) && Apart(steps, id) && Storing(s, v, names, Whole(steps))
    ensures var before, after := BeforeEnd(s, c, id, v, between, steps), Fetched(s, c, id, v, between, steps);
            && after.store == Putting(before.store, v.Key(), EntryFor(s, v, names, Whole(steps)))
            && after.log == before.log + [Fetch(v.Key(), v.headers, v.response.headers, Whole(steps))]
  {
    var begun := Next(s, c, Begin(id, "GET", v.headers, v.url, v.sent));
    var waited := RunFrom(s, begun, between);
    var x := begun.slots[id].pending.state;
    RequestIsRemembered(s, c, id, v);
    ForeignEventsLeaveSlot(s, begun, between, id);
    ReplyIsRecorded(s, waited, id, x, v, names, Whole(steps));
    var replied := Next(s, waited, Reply(id, v.response, v.answered));
    var commit := CommitFor(s.config, ExchangeFor(v.headers, v.url, v.sent), v.response, names, v.answered);
    ChunksAreRecorded(s, replied, id, replied.slots[id], commit, steps);
    EndIsCommitted(s, ReadAmong(s, replied, id, steps), id, replied.slots[id], commit, Whole(steps));
  }

  // ----- Serving -----

  /** No variant already there answers the request under another selector. */
  predicate NoRival(existing: seq<CacheEntry>, e: CacheEntry, h: HeaderMap) {
    forall x :: x in existing && x.selector.Matches(h) ==> x.selector == e.selector
  }

  lemma {:induction false} StandingHolds(existing: seq<CacheEntry>, selector: Selector, n: nat, x: CacheEntry)
    requires n <= |existing| && x in existing[..n] && x.selector != selector
    ensures x in Standing(existing, selector, n)
  {
    if n > 0 {
      assert existing[..n] == existing[..n - 1] + [existing[n - 1]];
      if x in existing[..n - 1] { StandingHolds(existing, selector, n - 1, x); }
    }
  }

  lemma FirstMatchAmong(front: seq<CacheEntry>, e: CacheEntry, h: HeaderMap)
    requires e.selector.Matches(h)
    ensures (forall x :: x in front ==> !x.selector.Matches(h)) ==> Select(front + [e], h) == Some(e)
    ensures (exists x :: x in front && x.selector.Matches(h)) ==> Select(front + [e], h).Some? && Select(front + [e], h).value in front
  {
    var all := front + [e];
    FirstMatchIsFirst(all, h, 0);
    var found := Select(all, h);
    assert all[|front|] == e && forall k :: 0 <= k < |front| ==> all[k] == front[k] && front[k] in front;
    var i :| 0 <= i < |all| && found == Some(all[i]) && all[i].selector.Matches(h) && forall k :: 0 <= k < i ==> !all[k].selector.Matches(h);
    if x :| x in front && x.selector.Matches(h) {
      var j :| 0 <= j < |front| && front[j] == x;
      assert all[j] == x;
      assert i <= j && all[i] == front[i];
    }
  }

  lemma {:induction false} FirstMatchIsFirst(variants: seq<CacheEntry>, h: HeaderMap, i: nat)
    requires i <= |variants|
    ensures FirstMatch(variants, h, i).Some? ==>
              exists k :: i <= k < |variants| && FirstMatch(variants, h, i) == Some(variants[k]) && variants[k].selector.Matches(h)
                          && forall j :: i <= j < k ==> !variants[j].selector.Matches(h)
    decreases |variants| - i
  {
    if i < |variants| && !variants[i].selector.Matches(h) { FirstMatchIsFirst(variants, h, i + 1); }
  }

  /** A merged entry is the one selected exactly when it has no rival. */
  lemma NewestIsSelectedIff(existing: seq<CacheEntry>, e: CacheEntry, h: HeaderMap)
    requires e.selector.Matches(h)
    ensures Select(MergeVariants(existing, e), h) == Some(e) <==> NoRival(existing, e, h)
  {
    var front := Standing(existing, e.selector, |existing|);
    StandingIsWithin(existing, e.selector, |existing|);
    FirstMatchAmong(front, e, h);
    if !NoRival(existing, e, h) {
      var x :| x in existing && x.selector.Matches(h) && x.selector != e.selector;
      assert existing[..|existing|] == existing;
      StandingHolds(existing, e.selector, |existing|, x);
    }
  }

  lemma SelectedIsServed(config: CacheConfig, variants: seq<CacheEntry>, e: CacheEntry, h: HeaderMap, url: Url,
                         now: int)
    requires Select(variants, h) == Some(e) && !SetsAside("GET", h) && ServesAsIs(config, e, h, now)
    ensures Before(config, variants, "GET", h, url, now).served == Some(Serve(e, CurrentAge(e, now), Hit))
  {
  }

  lemma SelectedIsAskedAbout(config: CacheConfig, variants: seq<CacheEntry>, e: CacheEntry, h: HeaderMap, url: Url,
                             now: int)
    requires Select(variants, h) == Some(e) && !SetsAside("GET", h) && !ServesAsIs(config, e, h, now) && HasValidator(e.headers)
    ensures var pending := Before(config, variants, "GET", h, url, now).pending;
            pending.Store? && pending.state.revalidating == Some(e)
  {
  }

  lemma FetchedIsSelected(s: Setting, c: Cache, id: nat, v: Visit, between: seq<Event>, steps: seq<ReadStep>,
                          names: seq<string>)
    requires id !in c.slots && Foreign(between, id) && Apart(steps, id) && Storing(s, v, names, Whole(steps))
    ensures var e := EntryFor(s, v, names, Whole(steps));
            Select(IdealAt(Fetched(s, c, id, v, between, steps).store, v.Key()), v.headers) == Some(e) <==>
            NoRival(IdealAt(BeforeEnd(s, c, id, v, between, steps).store, v.Key()), e, v.headers)
  {
    FetchedIsStored(s, c, id, v, between, steps, names);
    NewestIsSelectedIff(IdealAt(BeforeEnd(s, c, id, v, between, steps).store, v.Key()),
                        EntryFor(s, v, names, Whole(steps)), v.headers);
  }

  /**
   Fetched once, served again: with no rival variant, and while the stored copy is fresh, the same request
   gets the whole body back without the origin, whatever chunks it arrived in and whatever ran in between.
   */
  lemma FreshCopyIsServed(s: Setting, c: Cache, id: nat, v: Visit, between: seq<Event>, steps: seq<ReadStep>,
                          names: seq<string>, now: int)
    requires id !in c.slots && Foreign(between, id) && Apart(steps, id) && Storing(s, v, names, Whole(steps))
    requires var e := EntryFor(s, v, names, Whole(steps));
             && NoRival(IdealAt(BeforeEnd(s, c, id, v, between, steps).store, v.Key()), e, v.headers)
             && ServesAsIs(s.config, e, v.headers, now)
    ensures var served := Begun(s, Fetched(s, c, id, v, between, steps), "GET", v.headers, v.url, now).served;
            && served.Some? && served.value.how == Hit
            && served.value.body == Whole(steps) && served.value.status == v.response.status
  {
    FetchedIsSelected(s, c, id, v, between, steps, names);
    SelectedIsServed(s.config, IdealAt(Fetched(s, c, id, v, between, steps).store, v.Key()),
                     EntryFor(s, v, names, Whole(steps)), v.headers, v.url, now);
  }

  /**
   Once stale, a copy with a validator is asked about, and a 304 that confirms it gives the same body
   back, however the 304 changes its headers.
   */
  lemma StaleCopyIsRevalidated(s: Setting, c: Cache, id: nat, v: Visit, between: seq<Event>, steps: seq<ReadStep>,
                               names: seq<string>, now: int, notModified: Response, later: int)
    requires id !in c.slots && Foreign(between, id) && Apart(steps, id) && Storing(s, v, names, Whole(steps))
    requires var e := EntryFor(s, v, names, Whole(steps));
             && NoRival(IdealAt(BeforeEnd(s, c, id, v, between, steps).store, v.Key()), e, v.headers)
             && !ServesAsIs(s.config, e, v.headers, now) && HasValidator(e.headers) && Confirms(e, notModified)
    ensures var pending := Begun(s, Fetched(s, c, id, v, between, steps), "GET", v.headers, v.url, now).pending;
            var verdict := HttpCaching.After(s.config, s.resolve, pending, v.url, notModified, later);
            verdict.Reuse? && verdict.served.body == Whole(steps) && verdict.served.how == Revalidated
  {
    FetchedIsSelected(s, c, id, v, between, steps, names);
    var e := EntryFor(s, v, names, Whole(steps));
    SelectedIsAskedAbout(s.config, IdealAt(Fetched(s, c, id, v, between, steps).store, v.Key()), e, v.headers, v.url, now);
    ConfirmedIsReused(s, Begun(s, Fetched(s, c, id, v, between, steps), "GET", v.headers, v.url, now).pending, v.url, e, notModified, later);
  }

  lemma ConfirmedIsReused(s: Setting, pending: Pending, url: Url, e: CacheEntry, notModified: Response, later: int)
    requires pending.Store? && pending.state.revalidating == Some(e) && Confirms(e, notModified)
    ensures var verdict := HttpCaching.After(s.config, s.resolve, pending, url, notModified, later);
            verdict.Reuse? && verdict.served.body == e.body && verdict.served.how == Revalidated
  {
  }

  // ----- One chunk, and nothing in between -----

  lemma RunFromFour(s: Setting, c: Cache, e: Event, f: Event, g: Event, h: Event)
    ensures RunFrom(s, c, [e, f, g, h]) == Next(s, Next(s, Next(s, Next(s, c, e), f), g), h)
  {
    assert [e, f, g, h][..3] == [e, f, g] && [e, f, g][..2] == [e, f] && [e, f][..1] == [e] && [e][..0] == [];
    assert RunFrom(s, c, [e]) == Next(s, c, e);
    assert RunFrom(s, c, [e, f]) == Next(s, RunFrom(s, c, [e]), f);
    assert RunFrom(s, c, [e, f, g]) == Next(s, RunFrom(s, c, [e, f]), g);
  }

  lemma DataLeavesStore(s: Setting, c: Cache, id: nat, chunk: Bytes)
    ensures Next(s, c, Read(id, Data(chunk))).store == c.store
  {
  }

  /** An exchange of one chunk with nothing in between changes the store only at its end. */
  lemma AloneUntilItsEnd(s: Setting, c: Cache, id: nat, v: Visit, chunk: Bytes, names: seq<string>)
    requires id !in c.slots && Storing(s, v, names, chunk)
    ensures BeforeEnd(s, c, id, v, [], [ReadStep(chunk, [])]).store == c.store
    ensures Whole([ReadStep(chunk, [])]) == chunk
    ensures var begun := Next(s, c, Begin(id, "GET", v.headers, v.url, v.sent));
            var replied := Next(s, begun, Reply(id, v.response, v.answered));
            BeforeEnd(s, c, id, v, [], [ReadStep(chunk, [])]) == Next(s, replied, Read(id, Data(chunk)))
  {
    var step := ReadStep(chunk, []);
    assert [step][..0] == [] && Whole([step]) == [] + chunk == chunk;
    var begun := Next(s, c, Begin(id, "GET", v.headers, v.url, v.sent));
    RequestIsRemembered(s, c, id, v);
    ReplyIsRecorded(s, begun, id, begun.slots[id].pending.state, v, names, chunk);
    var replied := Next(s, begun, Reply(id, v.response, v.answered));
    assert ReadAmong(s, replied, id, []) == replied;
    DataLeavesStore(s, replied, id, chunk);
  }

  /** The whole of an exchange whose body comes in one chunk. */
  function OneChunk(id: nat, v: Visit, chunk: Bytes): seq<Event> {
    [Begin(id, "GET", v.headers, v.url, v.sent), Reply(id, v.response, v.answered), Read(id, Data(chunk)), Read(id, End)]
  }

  lemma OneChunkIsStored(s: Setting, c: Cache, id: nat, v: Visit, chunk: Bytes, names: seq<string>)
    requires id !in c.slots && Storing(s, v, names, chunk)
    ensures RunFrom(s, c, OneChunk(id, v, chunk)).store == Putting(c.store, v.Key(), EntryFor(s, v, names, chunk))
  {
    var e := OneChunk(id, v, chunk);
    RunFromFour(s, c, e[0], e[1], e[2], e[3]);
    AloneUntilItsEnd(s, c, id, v, chunk, names);
    FetchedIsStored(s, c, id, v, [], [ReadStep(chunk, [])], names);
  }
}
