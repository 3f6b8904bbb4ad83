/**
 Every interleaving of exchanges over one cache: consulting it, answering, reading and abandoning
 bodies, and the store forgetting whatever it likes in between.
 */
module HttpCacheRuns {
  import opened Options
  import opened Headers
  import opened Octets
  import opened CacheEntries
  import opened CachePolicy
  import opened CacheStore
  import opened CacheStoreRuns
  import opened CacheStreams
  import opened HttpCaching

  /** One origin response that was read to its end: the exchange it answered and its whole body. */
  datatype Fetch = Fetch(key: CacheKey, request: HeaderMap, response: HeaderMap, body: Bytes)

  datatype Slot =
    | Sent(pending: Pending, url: Url)
    /** A body being read: what has been recorded, what the caller has had, and whether it is still whole. */
    | Reading(state: Exchange, head: Response, names: seq<string>, recorder: Recorder, delivered: Bytes, whole: bool)

  datatype Cache = Cache(store: Ideal, slots: map<nat, Slot>, log: seq<Fetch>)

  datatype Setting = Setting(config: CacheConfig, resolve: (Url, string) -> Option<Url>)

  datatype Event =
    | Begin(id: nat, verb: string, headers: HeaderMap, url: Url, now: int)
    | Reply(id: nat, response: Response, now: int)
    | Read(id: nat, frame: Frame)
    | Abandon(id: nat)
    | Forget(keys: set<CacheKey>)

  const EMPTY := Cache(map[], map[], [])

  function Dropping(store: Ideal, keys: seq<CacheKey>): Ideal {
    if keys == [] then store else Dropping(store, keys[..|keys| - 1]) - {keys[|keys| - 1]}
  }

  function Putting(store: Ideal, key: CacheKey, e: CacheEntry): Ideal {
    store[key := MergeVariants(IdealAt(store, key), e)]
  }

  function Begun(s: Setting, c: Cache, verb: string, h: HeaderMap, url: Url, now: int): Consulted {
    Before(s.config, IdealAt(c.store, KeyOf(verb, url)), verb, h, url, now)
  }

  /** What a verdict does to the store at once; a recorder acts later. */
  function Judged(store: Ideal, v: Verdict): Ideal {
    match v
    case PassOn(dropped) => Dropping(store, dropped)
    case Reuse(key, refreshed, keep, _) => if keep then Putting(store, key, refreshed) else store - {key}
    case RecordAs(_, _) => store
  }

  function Replied(s: Setting, c: Cache, id: nat, pending: Pending, url: Url, response: Response, now: int): Cache {
    match HttpCaching.After(s.config, s.resolve, pending, url, response, now)
    case RecordAs(names, commit) =>
      c.(slots := c.slots[id := Reading(pending.state, response, names, Recorder([], Some(commit)), [], true)])
    case v => c.(store := Judged(c.store, v), slots := c.slots - {id})
  }

  predicate Answers(slots: map<nat, Slot>, e: Event) {
    e.Reply? && e.id in slots && slots[e.id].Sent?
  }

  /** The verdict on a reply; an event that is none passes on and drops nothing. */
  function VerdictOn(s: Setting, slots: map<nat, Slot>, e: Event): Verdict {
    if Answers(slots, e)
    then HttpCaching.After(s.config, s.resolve, slots[e.id].pending, slots[e.id].url, e.response, e.now) else PassOn([])
  }

  function WasRead(c: Cache, id: nat, slot: Slot, f: Frame): Cache
    requires slot.Reading?
  {
    var (recorder, entry) := Take(slot.recorder, f);
    var delivered := if f.Data? then slot.delivered + f.chunk else slot.delivered;
    var log := if f.End? && slot.whole
               then c.log + [Fetch(slot.state.key, slot.state.requestHeaders, slot.head.headers, slot.delivered)] else c.log;
    Cache(if entry.Some? then Putting(c.store, slot.state.key, entry.value) else c.store,
          c.slots[id := slot.(recorder := recorder, delivered := delivered, whole := slot.whole && !f.Failed? && !f.End?)],
          log)
  }

  /** What an event does; one that does not apply leaves everything as it was. */
  function Next(s: Setting, c: Cache, e: Event): Cache {
    match e
    case Begin(id, verb, h, url, now) =>
      if id in c.slots then c else c.(slots := c.slots[id := Sent(Begun(s, c, verb, h, url, now).pending, url)])
    case Reply(id, response, now) =>
      if id in c.slots && c.slots[id].Sent? then Replied(s, c, id, c.slots[id].pending, c.slots[id].url, response, now) else c
    case Read(id, f) =>
      if id in c.slots && c.slots[id].Reading? then WasRead(c, id, c.slots[id], f) else c
    case Abandon(id) => c.(slots := c.slots - {id})
    case Forget(keys) => c.(store := c.store - keys)
  }

  function RunOf(s: Setting, events: seq<Event>): Cache {
    if events == [] then EMPTY else Next(s, RunOf(s, events[..|events| - 1]), events[|events| - 1])
  }

  // ----- What every reachable state keeps -----

  /** The fetch behind an entry: same key, the whole body, and the selector its `Vary` made of its request. */
  predicate Behind(f: Fetch, key: CacheKey, e: CacheEntry) {
    && f.key == key
    && f.body == e.body
    && VaryNames(f.response).Some?
    && e.selector == SelectorOf(VaryNames(f.response).value, f.request)
  }

  ghost predicate Backed(log: seq<Fetch>, key: CacheKey, e: CacheEntry) {
    exists i :: 0 <= i < |log| && Behind(log[i], key, e)
  }

  ghost predicate EntryOk(s: Setting, log: seq<Fetch>, key: CacheKey, e: CacheEntry) {
    key.verb == "GET" && Backed(log, key, e) && Keepable(s.config, e)
  }

  ghost predicate StoreSound(s: Setting, log: seq<Fetch>, store: Ideal) {
    forall key, e :: key in store && e in store[key] ==> EntryOk(s, log, key, e)
  }

  ghost predicate ExchangeOk(s: Setting, log: seq<Fetch>, x: Exchange) {
    && x.key.verb == "GET"
    && (x.revalidating.Some? ==>
          EntryOk(s, log, x.key, x.revalidating.value) && x.revalidating.value.selector.Matches(x.requestHeaders))
  }

  predicate ReadingOk(s: Setting, slot: Slot)
    requires slot.Reading?
  {
    && slot.state.key.verb == "GET"
    && (slot.recorder.commit.Some? ==>
          && slot.whole
          && slot.recorder.buffered == slot.delivered
          && |slot.delivered| <= s.config.maxBodyBytes
          && Admission(s.config, slot.state, slot.head.status, slot.head.headers) == Ok(slot.names)
          && slot.recorder.commit.value == CommitFor(s.config, slot.state, slot.head, slot.names, slot.recorder.commit.value.receivedAt))
  }

  ghost predicate SlotOk(s: Setting, log: seq<Fetch>, slot: Slot) {
    match slot
    case Sent(pending, _) => pending.Store? ==> ExchangeOk(s, log, pending.state)
    case Reading(_, _, _, _, _, _) => ReadingOk(s, slot)
  }

  ghost predicate SlotsOk(s: Setting, log: seq<Fetch>, slots: map<nat, Slot>) {
    forall id :: id in slots ==> SlotOk(s, log, slots[id])
  }

  ghost predicate Sound(s: Setting, c: Cache) {
    StoreSound(s, c.log, c.store) && SlotsOk(s, c.log, c.slots)
  }

  // ----- Preservation -----

  lemma BackedStays(log: seq<Fetch>, f: Fetch, key: CacheKey, e: CacheEntry)
    requires Backed(log, key, e)
    ensures Backed(log + [f], key, e)
  {
    var i :| 0 <= i < |log| && Behind(log[i], key, e);
    assert (log + [f])[i] == log[i];
  }

  lemma LogGrows(s: Setting, c: Cache, f: Fetch)
    requires Sound(s, c)
    ensures Sound(s, c.(log := c.log + [f]))
  {
    forall key, e | EntryOk(s, c.log, key, e) ensures EntryOk(s, c.log + [f], key, e) {
      BackedStays(c.log, f, key, e);
    }
  }

  lemma PuttingIsSound(s: Setting, log: seq<Fetch>, store: Ideal, key: CacheKey, e: CacheEntry)
    requires StoreSound(s, log, store) && EntryOk(s, log, key, e)
    ensures StoreSound(s, log, Putting(store, key, e))
  {
    StandingIsWithin(IdealAt(store, key), e.selector, |IdealAt(store, key)|);
  }

  lemma {:induction false} DroppingIsSound(s: Setting, log: seq<Fetch>, store: Ideal, keys: seq<CacheKey>)
    requires StoreSound(s, log, store)
    ensures StoreSound(s, log, Dropping(store, keys))
    decreases |keys|
  {
    if keys != [] { DroppingIsSound(s, log, store, keys[..|keys| - 1]); }
  }

  lemma SelectedIsOk(s: Setting, c: Cache, key: CacheKey, h: HeaderMap)
    requires StoreSound(s, c.log, c.store)
    ensures var found := Select(IdealAt(c.store, key), h);
            found.Some? ==> EntryOk(s, c.log, key, found.value) && found.value.selector.Matches(h)
  {
  }

  lemma BeginIsSound(s: Setting, c: Cache, verb: string, h: HeaderMap, url: Url, now: int)
    requires StoreSound(s, c.log, c.store)
    ensures var pending := Begun(s, c, verb, h, url, now).pending;
            pending.Store? ==> ExchangeOk(s, c.log, pending.state)
  {
    PendingShape(s.config, IdealAt(c.store, KeyOf(verb, url)), verb, h, url, now);
    ShapedIsOk(s, c, Begun(s, c, verb, h, url, now).pending, KeyOf(verb, url), h);
  }

  lemma ShapedIsOk(s: Setting, c: Cache, pending: Pending, key: CacheKey, h: HeaderMap)
    requires StoreSound(s, c.log, c.store)
    requires pending.Store? ==>
               && key.verb == "GET" && pending.state.key == key && pending.state.requestHeaders == h
               && (pending.state.revalidating.None? || pending.state.revalidating == Select(IdealAt(c.store, key), h))
    ensures pending.Store? ==> ExchangeOk(s, c.log, pending.state)
  {
    SelectedIsOk(s, c, key, h);
  }

  /** A refreshed entry has the same body and selector, so the same fetch stands behind it. */
  lemma RefreshIsSound(s: Setting, log: seq<Fetch>, x: Exchange, response: Response, now: int)
    requires ExchangeOk(s, log, x) && x.revalidating.Some?
    requires var r := Refreshed(x.revalidating.value, response.headers, x.requestedAt, now);
             Admission(s.config, x, r.status, r.headers).Ok?
    ensures EntryOk(s, log, x.key, Refreshed(x.revalidating.value, response.headers, x.requestedAt, now))
  {
    var e := x.revalidating.value;
    var i :| 0 <= i < |log| && Behind(log[i], x.key, e);
    assert Behind(log[i], x.key, Refreshed(e, response.headers, x.requestedAt, now));
    RefreshedIsKeepable(s.config, "GET", x.requestHeaders, x.requestCc, e, response.headers, x.requestedAt, now);
  }

  lemma ReplyIsSound(s: Setting, c: Cache, id: nat, pending: Pending, url: Url, response: Response, now: int)
    requires Sound(s, c) && id in c.slots && c.slots[id] == Sent(pending, url)
    ensures Sound(s, Replied(s, c, id, pending, url, response, now))
  {
    match HttpCaching.After(s.config, s.resolve, pending, url, response, now) {
      case PassOn(dropped) => DroppingIsSound(s, c.log, c.store, dropped);
      case Reuse(key, refreshed, keep, _) =>
        if keep {
          RefreshIsSound(s, c.log, pending.state, response, now);
          PuttingIsSound(s, c.log, c.store, key, refreshed);
        }
      case RecordAs(_, _) =>
    }
  }

  /** The entry a finished body commits is backed by that very body, and may be kept. */
  lemma CommitIsSound(s: Setting, log: seq<Fetch>, slot: Slot)
    requires slot.Reading? && ReadingOk(s, slot) && slot.recorder.commit.Some?
    requires DeclaresItsLength(slot.recorder.commit.value.headers, |slot.recorder.buffered|)
    ensures EntryOk(s, log + [Fetch(slot.state.key, slot.state.requestHeaders, slot.head.headers, slot.delivered)],
                    slot.state.key, EntryOf(slot.recorder.commit.value, slot.recorder.buffered))
  {
    var f := Fetch(slot.state.key, slot.state.requestHeaders, slot.head.headers, slot.delivered);
    var e := EntryOf(slot.recorder.commit.value, slot.recorder.buffered);
    AdmittedIff(s.config, "GET", slot.state.requestHeaders, slot.state.requestCc, slot.head.status, slot.head.headers,
                  ControlOf(slot.head.headers), slot.names);
    AdmittedIsKeepable(s.config, "GET", slot.state.requestHeaders, slot.state.requestCc, slot.head.headers, slot.names, e);
    assert (log + [f])[|log|] == f && Behind(f, slot.state.key, e);
  }

  lemma SlotAfterRead(s: Setting, c: Cache, id: nat, slot: Slot, f: Frame)
    requires slot.Reading? && ReadingOk(s, slot)
    ensures ReadingOk(s, WasRead(c, id, slot, f).slots[id])
  {
  }

  lemma ReadIsSound(s: Setting, c: Cache, id: nat, slot: Slot, f: Frame)
    requires Sound(s, c) && id in c.slots && c.slots[id] == slot && slot.Reading?
    ensures Sound(s, WasRead(c, id, slot, f))
  {
    var after := WasRead(c, id, slot, f);
    SlotAfterRead(s, c, id, slot, f);
    if f.End? && slot.whole {
      LogGrows(s, c, Fetch(slot.state.key, slot.state.requestHeaders, slot.head.headers, slot.delivered));
    }
    var entry := Take(slot.recorder, f).1;
    if entry.Some? {
      CommitIsSound(s, c.log, slot);
      PuttingIsSound(s, after.log, c.store, slot.state.key, entry.value);
    }
  }

  lemma NextIsSound(s: Setting, c: Cache, e: Event)
    requires Sound(s, c)
    ensures Sound(s, Next(s, c, e))
  {
    match e {
      case Begin(id, verb, h, url, now) => BeginIsSound(s, c, verb, h, url, now);
      case Reply(id, response, now) =>
        if id in c.slots && c.slots[id].Sent? { ReplyIsSound(s, c, id, c.slots[id].pending, c.slots[id].url, response, now); }
      case Read(id, f) =>
        if id in c.slots && c.slots[id].Reading? { ReadIsSound(s, c, id, c.slots[id], f); }
      case _ =>
    }
  }

  /** Every entry stored, at every moment of every run, is backed by a whole fetch and may be kept. */
  lemma {:induction false} EveryRunIsSound(s: Setting, events: seq<Event>)
    ensures Sound(s, RunOf(s, events))
    decreases |events|
  {
    if events != [] {
      EveryRunIsSound(s, events[..|events| - 1]);
      NextIsSound(s, RunOf(s, events[..|events| - 1]), events[|events| - 1]);
    }
  }

  // ----- What the caller is promised -----

  /** The request gives every field the fetched response varied on the value the fetching request gave it. */
  predicate AsksAlike(f: Fetch, request: HeaderMap)
    requires VaryNames(f.response).Some?
  {
    forall name :: name in VaryNames(f.response).value ==> GetAll(request, name) == GetAll(f.request, name)
  }

  lemma MatchingEntryIsFetched(log: seq<Fetch>, key: CacheKey, e: CacheEntry, request: HeaderMap) returns (i: nat)
    requires Backed(log, key, e) && e.selector.Matches(request)
    ensures i < |log| && Behind(log[i], key, e) && AsksAlike(log[i], request)
  {
    i :| 0 <= i < |log| && Behind(log[i], key, e);
    MatchesIffEqualValues(VaryNames(log[i].response).value, log[i].request, request);
  }

  /** What a hit is made of. */
  lemma HitIsSelected(s: Setting, c: Cache, verb: string, h: HeaderMap, url: Url, now: int) returns (e: CacheEntry)
    requires Begun(s, c, verb, h, url, now).served.Some?
    ensures verb == "GET" && Select(IdealAt(c.store, KeyOf(verb, url)), h) == Some(e) && ServesAsIs(s.config, e, h, now)
    ensures Begun(s, c, verb, h, url, now).served.value == Serve(e, CurrentAge(e, now), Hit)
  {
    e := Select(IdealAt(c.store, KeyOf(verb, url)), h).value;
  }

  /**
   A hit, in any run: byte for byte the whole body of an earlier fetch of the same target, fetched by a
   request that agrees with this one on everything that response varied on; fresh by its own age, and
   served to a request that did not ask for revalidation.
   */
  lemma HitIsSound(s: Setting, events: seq<Event>, verb: string, h: HeaderMap, url: Url, now: int)
    returns (i: nat, e: CacheEntry)
    requires Begun(s, RunOf(s, events), verb, h, url, now).served.Some?
    ensures var served, log := Begun(s, RunOf(s, events), verb, h, url, now).served.value, RunOf(s, events).log;
            && i < |log|
            && served.how == Hit && served.body == log[i].body
            && log[i].key == KeyOf("GET", url) && verb == "GET"
            && VaryNames(log[i].response).Some? && AsksAlike(log[i], h)
            && e.body == served.body && IsFresh(e, ControlOf(e.headers), s.config, now) && Keepable(s.config, e)
            && !RequestForcesRevalidation(ControlOfRequest(h))
  {
    var c := RunOf(s, events);
    EveryRunIsSound(s, events);
    e := HitIsSelected(s, c, verb, h, url, now);
    SelectedIsOk(s, c, KeyOf(verb, url), h);
    i := MatchingEntryIsFetched(c.log, KeyOf(verb, url), e, h);
  }

  /** A revalidated response, in any run: the same promise, for the request that was sent. */
  lemma RevalidatedIsSound(s: Setting, events: seq<Event>, id: nat, response: Response, now: int) returns (i: nat)
    requires var c := RunOf(s, events);
             && id in c.slots && c.slots[id].Sent?
             && HttpCaching.After(s.config, s.resolve, c.slots[id].pending, c.slots[id].url, response, now).Reuse?
    ensures var c := RunOf(s, events);
            var pending := c.slots[id].pending;
            var served := HttpCaching.After(s.config, s.resolve, pending, c.slots[id].url, response, now).served;
            && i < |c.log| && pending.Store?
            && served.how == Revalidated && served.body == c.log[i].body
            && c.log[i].key == pending.state.key && pending.state.key.verb == "GET"
            && VaryNames(c.log[i].response).Some? && AsksAlike(c.log[i], pending.state.requestHeaders)
  {
    var c := RunOf(s, events);
    EveryRunIsSound(s, events);
    assert SlotOk(s, c.log, c.slots[id]);
    var x := c.slots[id].pending.state;
    i := MatchingEntryIsFetched(c.log, x.key, x.revalidating.value, x.requestHeaders);
  }

  /**
   In every run, all `Content-Length` lines of a stored entry are true of its body exactly when they
   agree with each other: the first always is.
   */
  lemma StoredLengthIsTrueIff(s: Setting, events: seq<Event>, key: CacheKey, e: CacheEntry)
    requires e in IdealAt(RunOf(s, events).store, key)
    ensures EveryLengthIsTrue(e.headers, |e.body|) <==> LengthLinesAgree(e.headers)
  {
    EveryRunIsSound(s, events);
    assert EntryOk(s, RunOf(s, events).log, key, e);
    LengthIsTrueIff(e.headers, |e.body|);
  }

  // ----- Invalidation -----

  /** Dropping removes exactly the keys named, and touches no other. */
  lemma {:induction false} DroppingIsExact(store: Ideal, keys: seq<CacheKey>, key: CacheKey)
    ensures IdealAt(Dropping(store, keys), key) == if key in keys then [] else IdealAt(store, key)
    decreases |keys|
  {
    if keys != [] { DroppingIsExact(store, keys[..|keys| - 1], key); }
  }

  /** A successful unsafe request empties its own target, whatever else it names. */
  lemma TargetIsInvalidated(s: Setting, store: Ideal, url: Url, response: Response)
    requires response.status < 400
    ensures IdealAt(Dropping(store, Invalidated(s.resolve, url, response)), KeyOf("GET", url)) == []
  {
    var keys := Invalidated(s.resolve, url, response);
    assert keys[0] == KeyOf("GET", url);
    DroppingIsExact(store, keys, KeyOf("GET", url));
  }

  /** No origin can empty another's targets by naming them. */
  lemma OtherOriginsAreKept(s: Setting, store: Ideal, url: Url, response: Response, key: CacheKey)
    requires forall t: Url :: t.origin == url.origin ==> key != KeyOf("GET", t)
    ensures IdealAt(Dropping(store, Invalidated(s.resolve, url, response)), key) == IdealAt(store, key)
  {
    DroppingIsExact(store, Invalidated(s.resolve, url, response), key);
    ReferencedIsOwn(s, url, response.headers, "location", key);
    ReferencedIsOwn(s, url, response.headers, "content-location", key);
  }

  lemma ReferencedIsOwn(s: Setting, url: Url, h: HeaderMap, name: string, key: CacheKey)
    requires forall t: Url :: t.origin == url.origin ==> key != KeyOf("GET", t)
    ensures key !in Referenced(s.resolve, url, h, name)
  {
  }

  // ----- Superseded copies -----

  /**
   A target the origin forbids keeping, or whose revalidation brought back something that may not be
   kept, keeps no earlier copy either.
   */
  lemma SupersededCopyIsDropped(s: Setting, c: Cache, id: nat, x: Exchange, url: Url, response: Response, now: int)
    requires Admission(s.config, x, response.status, response.headers).Err?
    requires ControlOf(response.headers).noStore || x.revalidating.Some?
    requires x.revalidating.Some? ==> !Confirms(x.revalidating.value, response)
    ensures IdealAt(Replied(s, c, id, Store(x), url, response, now).store, x.key) == []
  {
    DroppingIsExact(c.store, [x.key], x.key);
  }

  /** So does one whose 304 merged into something that may not be kept; and it is served all the same. */
  lemma UnkeepableRefreshIsDropped(s: Setting, c: Cache, id: nat, x: Exchange, url: Url, response: Response, now: int)
    requires x.revalidating.Some? && Confirms(x.revalidating.value, response)
    requires var r := Refreshed(x.revalidating.value, response.headers, x.requestedAt, now);
             Admission(s.config, x, r.status, r.headers).Err?
    ensures IdealAt(Replied(s, c, id, Store(x), url, response, now).store, x.key) == []
    ensures HttpCaching.After(s.config, s.resolve, Store(x), url, response, now).Reuse?
    ensures HttpCaching.After(s.config, s.resolve, Store(x), url, response, now).served.body == x.revalidating.value.body
  {
  }
}
