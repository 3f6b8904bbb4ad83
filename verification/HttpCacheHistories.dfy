/**
 Where what the cache holds came from: which events write under a key and which empty it, and what
 follows for whole runs.
 */
module HttpCacheHistories {
  import opened Options
  import opened Headers
  import opened CacheEntries
  import opened CachePolicy
  import opened CacheStore
  import opened CacheStoreRuns
  import opened CacheStreams
  import opened HttpCaching
  import opened HttpCacheRuns
  import opened HttpCacheService

  // ----- One event and one key -----

  datatype Written = Nothing | Written(key: CacheKey, entry: CacheEntry)

  function WrittenUnder(c: Cache, ev: Event, v: Verdict): Written {
    match ev
    case Reply(_, _, _) => if v.Reuse? && v.keep then Written(v.key, v.refreshed) else Nothing
    case Read(id, f) =>
      if id in c.slots && c.slots[id].Reading? && Take(c.slots[id].recorder, f).1.Some?
      then Written(c.slots[id].state.key, Take(c.slots[id].recorder, f).1.value) else Nothing
    case _ => Nothing
  }

  /** What an event puts in the store: a refreshed entry, or a body just read to its end. */
  function WrittenBy(s: Setting, c: Cache, ev: Event): Written {
    WrittenUnder(c, ev, VerdictOn(s, c.slots, ev))
  }

  predicate WritesTo(s: Setting, c: Cache, ev: Event, key: CacheKey) {
    WrittenBy(s, c, ev).Written? && WrittenBy(s, c, ev).key == key
  }

  predicate DropsUnder(ev: Event, v: Verdict, key: CacheKey) {
    || (v.PassOn? && key in v.dropped)
    || (v.Reuse? && !v.keep && v.key == key)
    || (ev.Forget? && key in ev.keys)
  }

  /** An invalidation, a superseded copy, or the store forgetting. */
  predicate Drops(s: Setting, c: Cache, ev: Event, key: CacheKey) {
    DropsUnder(ev, VerdictOn(s, c.slots, ev), key)
  }

  function VariantsAfter(variants: seq<CacheEntry>, key: CacheKey, w: Written, drops: bool): seq<CacheEntry> {
    if w.Written? && w.key == key then MergeVariants(variants, w.entry) else if drops then [] else variants
  }

  lemma JudgedAt(store: Ideal, v: Verdict, c: Cache, ev: Event, key: CacheKey)
    requires ev.Reply?
    ensures IdealAt(Judged(store, v), key) ==
            VariantsAfter(IdealAt(store, key), key, WrittenUnder(c, ev, v), DropsUnder(ev, v, key))
  {
    if v.PassOn? { DroppingIsExact(store, v.dropped, key); }
  }

  lemma ReplyIsJudged(s: Setting, c: Cache, ev: Event)
    requires ev.Reply?
    ensures Next(s, c, ev).store == Judged(c.store, VerdictOn(s, c.slots, ev))
  {
    assert Judged(c.store, PassOn([])) == c.store;
  }

  /** Every event does one of three things to a key: merge an entry in, empty it, or leave it. */
  lemma EventAt(s: Setting, c: Cache, ev: Event, key: CacheKey)
    ensures IdealAt(Next(s, c, ev).store, key) ==
            VariantsAfter(IdealAt(c.store, key), key, WrittenBy(s, c, ev), Drops(s, c, ev, key))
  {
    if ev.Reply? {
      ReplyIsJudged(s, c, ev);
      JudgedAt(c.store, VerdictOn(s, c.slots, ev), c, ev, key);
    }
  }

  // ----- An emptied key -----

  function StateAt(s: Setting, c: Cache, events: seq<Event>, i: nat): Cache
    requires i <= |events|
  {
    RunFrom(s, c, events[..i])
  }

  lemma OneMore(s: Setting, c: Cache, events: seq<Event>, i: nat)
    requires i < |events|
    ensures StateAt(s, c, events, i + 1) == Next(s, StateAt(s, c, events, i), events[i])
  {
    assert events[..i + 1][..i] == events[..i];
  }

  ghost predicate EmptyThroughout(s: Setting, c: Cache, events: seq<Event>, key: CacheKey) {
    forall i :: 0 <= i <= |events| ==> IdealAt(StateAt(s, c, events, i).store, key) == []
  }

  ghost predicate NeverWritten(s: Setting, c: Cache, events: seq<Event>, key: CacheKey) {
    forall i :: 0 <= i < |events| ==> !WritesTo(s, StateAt(s, c, events, i), events[i], key)
  }

  lemma {:induction false} EmptyUntil(s: Setting, c: Cache, events: seq<Event>, key: CacheKey, i: nat)
    requires IdealAt(c.store, key) == [] && NeverWritten(s, c, events, key) && i <= |events|
    ensures IdealAt(StateAt(s, c, events, i).store, key) == []
  {
    if i == 0 {
      assert events[..0] == [];
    } else {
      EmptyUntil(s, c, events, key, i - 1);
      OneMore(s, c, events, i - 1);
      EventAt(s, StateAt(s, c, events, i - 1), events[i - 1], key);
    }
  }

  lemma WriteFills(s: Setting, c: Cache, ev: Event, key: CacheKey)
    requires WritesTo(s, c, ev, key)
    ensures IdealAt(Next(s, c, ev).store, key) != []
  {
    EventAt(s, c, ev, key);
  }

  /** An emptied key stays empty exactly as long as no event writes under it. */
  lemma StaysEmptyIff(s: Setting, c: Cache, events: seq<Event>, key: CacheKey)
    requires IdealAt(c.store, key) == []
    ensures EmptyThroughout(s, c, events, key) <==> NeverWritten(s, c, events, key)
  {
    if NeverWritten(s, c, events, key) {
      forall i | 0 <= i <= |events| ensures IdealAt(StateAt(s, c, events, i).store, key) == [] {
        EmptyUntil(s, c, events, key, i);
      }
    } else {
      var i :| 0 <= i < |events| && WritesTo(s, StateAt(s, c, events, i), events[i], key);
      OneMore(s, c, events, i);
      WriteFills(s, StateAt(s, c, events, i), events[i], key);
    }
  }

  // ----- Who can write -----

  /** An exchange that may still write under the key: waiting for an answer, or recording one. */
  predicate MayWrite(slot: Slot, key: CacheKey) {
    match slot
    case Sent(pending, _) => pending.Store? && pending.state.key == key
    case Reading(state, _, _, recorder, _, _) => state.key == key && recorder.commit.Some?
  }

  ghost predicate InFlight(c: Cache, key: CacheKey) {
    exists id :: id in c.slots && MayWrite(c.slots[id], key)
  }

  predicate AsksFor(ev: Event, key: CacheKey) {
    ev.Begin? && KeyOf(ev.verb, ev.url) == key
  }

  lemma ReuseIsOwn(config: CacheConfig, pending: Pending, url: Url, resolve: (Url, string) -> Option<Url>,
                   response: Response, now: int)
    ensures var v := HttpCaching.After(config, resolve, pending, url, response, now);
            v.Reuse? || v.RecordAs? ==> pending.Store? && (v.Reuse? ==> v.key == pending.state.key)
  {
  }

  lemma WritersAreInFlight(s: Setting, c: Cache, ev: Event, key: CacheKey)
    requires WritesTo(s, c, ev, key)
    ensures InFlight(c, key)
  {
    if ev.Reply? {
      ReuseIsOwn(s.config, c.slots[ev.id].pending, c.slots[ev.id].url, s.resolve, ev.response, ev.now);
    }
    assert MayWrite(c.slots[ev.id], key);
  }

  lemma BegunKey(s: Setting, c: Cache, verb: string, h: HeaderMap, url: Url, now: int)
    ensures var pending := Begun(s, c, verb, h, url, now).pending;
            pending.Store? ==> pending.state.key == KeyOf(verb, url)
  {
    PendingShape(s.config, IdealAt(c.store, KeyOf(verb, url)), verb, h, url, now);
  }

  lemma ReadKeepsKey(c: Cache, id: nat, slot: Slot, f: Frame, key: CacheKey)
    requires slot.Reading? && MayWrite(WasRead(c, id, slot, f).slots[id], key)
    ensures MayWrite(slot, key)
  {
  }

  lemma SlotAfterReply(s: Setting, c: Cache, ev: Event, key: CacheKey)
    requires Answers(c.slots, ev) && ev.id in Next(s, c, ev).slots && MayWrite(Next(s, c, ev).slots[ev.id], key)
    ensures MayWrite(c.slots[ev.id], key)
  {
    ReuseIsOwn(s.config, c.slots[ev.id].pending, c.slots[ev.id].url, s.resolve, ev.response, ev.now);
  }

  /** No exchange for the key is under way after an event unless one was before or the event begins one. */
  lemma FlightsBegin(s: Setting, c: Cache, ev: Event, key: CacheKey)
    requires InFlight(Next(s, c, ev), key) && !AsksFor(ev, key)
    ensures InFlight(c, key)
  {
    var id :| id in Next(s, c, ev).slots && MayWrite(Next(s, c, ev).slots[id], key);
    if !Addresses(ev, id) {
      ForeignEventLeavesSlot(s, c, ev, id);
    } else {
      match ev
      case Begin(_, verb, h, url, now) => BegunKey(s, c, verb, h, url, now);
      case Reply(_, _, _) => if Answers(c.slots, ev) { SlotAfterReply(s, c, ev, key); }
      case Read(_, f) => if id in c.slots && c.slots[id].Reading? { ReadKeepsKey(c, id, c.slots[id], f, key); }
      case Abandon(_) =>
    }
    assert id in c.slots && MayWrite(c.slots[id], key);
  }

  lemma {:induction false} StaysGrounded(s: Setting, c: Cache, events: seq<Event>, key: CacheKey, i: nat)
    requires !InFlight(c, key) && i <= |events| && forall k :: 0 <= k < |events| ==> !AsksFor(events[k], key)
    ensures !InFlight(StateAt(s, c, events, i), key)
  {
    if i == 0 {
      assert events[..0] == [];
    } else {
      StaysGrounded(s, c, events, key, i - 1);
      OneMore(s, c, events, i - 1);
      if InFlight(StateAt(s, c, events, i), key) {
        FlightsBegin(s, StateAt(s, c, events, i - 1), events[i - 1], key);
      }
    }
  }

  /**
   A target emptied while no exchange for it is under way stays empty, whatever else happens, until it is
   asked for again.
   */
  lemma EmptiedStaysEmpty(s: Setting, c: Cache, events: seq<Event>, key: CacheKey)
    requires IdealAt(c.store, key) == [] && !InFlight(c, key)
    requires forall k :: 0 <= k < |events| ==> !AsksFor(events[k], key)
    ensures EmptyThroughout(s, c, events, key)
  {
    forall i | 0 <= i < |events| ensures !WritesTo(s, StateAt(s, c, events, i), events[i], key) {
      StaysGrounded(s, c, events, key, i);
      if WritesTo(s, StateAt(s, c, events, i), events[i], key) {
        WritersAreInFlight(s, StateAt(s, c, events, i), events[i], key);
      }
    }
    StaysEmptyIff(s, c, events, key);
  }

  // ----- A late confirmation -----

  ghost predicate WroteIn(s: Setting, c: Cache, events: seq<Event>, key: CacheKey, n: CacheEntry) {
    exists i :: 0 <= i < |events| && WrittenBy(s, StateAt(s, c, events, i), events[i]) == Written(key, n)
  }

  lemma MergedFrom(variants: seq<CacheEntry>, e: CacheEntry, n: CacheEntry)
    requires n in MergeVariants(variants, e)
    ensures n == e || n in variants
  {
    StandingIsWithin(variants, e.selector, |variants|);
  }

  lemma WroteInLonger(s: Setting, c: Cache, events: seq<Event>, key: CacheKey, n: CacheEntry)
    requires events != [] && WroteIn(s, c, events[..|events| - 1], key, n)
    ensures WroteIn(s, c, events, key, n)
  {
    var front := events[..|events| - 1];
    var i :| 0 <= i < |front| && WrittenBy(s, StateAt(s, c, front, i), front[i]) == Written(key, n);
    assert front[..i] == events[..i];
    assert WrittenBy(s, StateAt(s, c, events, i), events[i]) == Written(key, n);
  }

  /** Whatever is held was held before, or was written since. */
  lemma {:induction false} HeldOrWritten(s: Setting, c: Cache, events: seq<Event>, key: CacheKey, n: CacheEntry)
    requires n in IdealAt(RunFrom(s, c, events).store, key)
    ensures n in IdealAt(c.store, key) || WroteIn(s, c, events, key, n)
    decreases |events|
  {
    if events != [] {
      var front, last := events[..|events| - 1], events[|events| - 1];
      var d := RunFrom(s, c, front);
      EventAt(s, d, last, key);
      if WrittenBy(s, d, last) == Written(key, n) {
        assert StateAt(s, c, events, |events| - 1) == d;
      } else {
        var w := WrittenBy(s, d, last);
        if w.Written? && w.key == key { MergedFrom(IdealAt(d.store, key), w.entry, n); }
        HeldOrWritten(s, c, front, key, n);
        if WroteIn(s, c, front, key, n) { WroteInLonger(s, c, events, key, n); }
      }
    }
  }

  ghost predicate StoreApart(store: Ideal) {
    forall key :: key in store ==> DistinctSelectors(store[key])
  }

  /** One variant per selector, after every event. */
  lemma EventKeepsApart(s: Setting, c: Cache, ev: Event)
    requires StoreApart(c.store)
    ensures StoreApart(Next(s, c, ev).store)
  {
    var after := Next(s, c, ev).store;
    forall key | key in after ensures DistinctSelectors(after[key]) {
      EventAt(s, c, ev, key);
      var w := WrittenBy(s, c, ev);
      if w.Written? && w.key == key { MergedIsApart(IdealAt(c.store, key), w.entry); }
    }
  }

  lemma {:induction false} EveryRunKeepsApart(s: Setting, events: seq<Event>)
    ensures StoreApart(RunOf(s, events).store)
    decreases |events|
  {
    if events != [] {
      EveryRunKeepsApart(s, events[..|events| - 1]);
      EventKeepsApart(s, RunOf(s, events[..|events| - 1]), events[|events| - 1]);
    }
  }

  lemma OneOfEach(variants: seq<CacheEntry>, d: CacheEntry, e: CacheEntry)
    requires DistinctSelectors(variants) && d in variants && e in variants && d.selector == e.selector
    ensures d == e
  {
    var i :| 0 <= i < |variants| && variants[i] == d;
    var j :| 0 <= j < |variants| && variants[j] == e;
  }

  lemma MergeLeavesIff(variants: seq<CacheEntry>, r: CacheEntry, n: CacheEntry)
    requires DistinctSelectors(variants) && n in variants
    ensures n in MergeVariants(variants, r) <==> n.selector != r.selector || n == r
  {
    MergedIsApart(variants, r);
    assert variants[..|variants|] == variants;
    if n.selector != r.selector { StandingHolds(variants, r.selector, |variants|, n); }
  }

  lemma RefreshedFrom(s: Setting, slots: map<nat, Slot>, ev: Event)
    requires Answers(slots, ev) && VerdictOn(s, slots, ev).Reuse?
    ensures var v, pending := VerdictOn(s, slots, ev), slots[ev.id].pending;
            && pending.Store? && pending.state.revalidating.Some? && v.key == pending.state.key
            && v.refreshed ==
               Refreshed(pending.state.revalidating.value, ev.response.headers, pending.state.requestedAt, ev.now)
  {
  }

  lemma RememberedIsHeld(s: Setting, c: Cache, id: nat, h: HeaderMap, url: Url, sent: int)
    requires id !in c.slots
    ensures var begun := Next(s, c, Begin(id, "GET", h, url, sent));
            && begun.store == c.store && id in begun.slots && begun.slots[id].Sent?
            && (begun.slots[id].pending.Store? && begun.slots[id].pending.state.revalidating.Some? ==>
                  begun.slots[id].pending.state.revalidating.value in IdealAt(c.store, KeyOf("GET", url)))
  {
    PendingShape(s.config, IdealAt(c.store, KeyOf("GET", url)), "GET", h, url, sent);
  }

  lemma {:induction false} RunKeepsApart(s: Setting, c: Cache, events: seq<Event>)
    requires StoreApart(c.store)
    ensures StoreApart(RunFrom(s, c, events).store)
    decreases |events|
  {
    if events != [] {
      RunKeepsApart(s, c, events[..|events| - 1]);
      EventKeepsApart(s, RunFrom(s, c, events[..|events| - 1]), events[|events| - 1]);
    }
  }

  /** A request that goes out, what others do meanwhile, and the answer that comes back. */
  datatype Wait = Wait(id: nat, headers: HeaderMap, url: Url, sent: int, meanwhile: seq<Event>, response: Response, now: int)
  {
    function Key(): CacheKey {
      KeyOf("GET", url)
    }

    function Out(s: Setting, c: Cache): Cache {
      Next(s, c, Begin(id, "GET", headers, url, sent))
    }

    function Waited(s: Setting, c: Cache): Cache {
      RunFrom(s, Out(s, c), meanwhile)
    }

    function Back(): Event {
      Reply(id, response, now)
    }
  }

  /** The entry an answer refreshes is the one its request was sent out with. */
  lemma RefreshedIsRemembered(s: Setting, c: Cache, w: Wait, r: CacheEntry) returns (e: CacheEntry)
    requires w.id !in c.slots && Foreign(w.meanwhile, w.id)
    requires WrittenBy(s, w.Waited(s, c), w.Back()) == Written(w.Key(), r)
    ensures e in IdealAt(c.store, w.Key()) && r.body == e.body && r.selector == e.selector
  {
    RememberedIsHeld(s, c, w.id, w.headers, w.url, w.sent);
    ForeignEventsLeaveSlot(s, w.Out(s, c), w.meanwhile, w.id);
    RefreshedFrom(s, w.Waited(s, c).slots, w.Back());
    e := w.Out(s, c).slots[w.id].pending.state.revalidating.value;
  }

  /**
   In every run, when a 304 is kept: it brings back the body `e` that was held when its request went out,
   in place of exactly the variant with that selector.  That variant is `e` itself, or one written while
   the request was out: only then does an older body replace a newer one.
   */
  lemma RefreshReplacesIff(s: Setting, events: seq<Event>, w: Wait, r: CacheEntry, n: CacheEntry)
    returns (e: CacheEntry)
    requires w.id !in RunOf(s, events).slots && Foreign(w.meanwhile, w.id)
    requires WrittenBy(s, w.Waited(s, RunOf(s, events)), w.Back()) == Written(w.Key(), r)
    requires n in IdealAt(w.Waited(s, RunOf(s, events)).store, w.Key())
    ensures e in IdealAt(RunOf(s, events).store, w.Key()) && r.body == e.body && r.selector == e.selector
    ensures n in IdealAt(Next(s, w.Waited(s, RunOf(s, events)), w.Back()).store, w.Key()) <==>
            n.selector != e.selector || n == r
    ensures n.selector == e.selector ==> n == e || WroteIn(s, w.Out(s, RunOf(s, events)), w.meanwhile, w.Key(), n)
  {
    var c := RunOf(s, events);
    var d := w.Waited(s, c);
    e := RefreshedIsRemembered(s, c, w, r);
    EveryRunKeepsApart(s, events);
    EventKeepsApart(s, c, Begin(w.id, "GET", w.headers, w.url, w.sent));
    RunKeepsApart(s, w.Out(s, c), w.meanwhile);
    EventAt(s, d, w.Back(), w.Key());
    MergeLeavesIff(IdealAt(d.store, w.Key()), r, n);
    HeldOrWritten(s, w.Out(s, c), w.meanwhile, w.Key(), n);
    RememberedIsHeld(s, c, w.id, w.headers, w.url, w.sent);
    if n.selector == e.selector && n in IdealAt(c.store, w.Key()) {
      OneOfEach(IdealAt(c.store, w.Key()), n, e);
    }
  }

  // ----- Where a stored field came from -----

  /** Some answer in the run had these headers. */
  ghost predicate Answered(events: seq<Event>, h: HeaderMap) {
    exists i :: 0 <= i < |events| && events[i].Reply? && events[i].response.headers == h
  }

  /** A fetched response, stripped, with the 304s that refreshed it merged in one after another. */
  function MergedAll(fetched: HeaderMap, updates: seq<HeaderMap>): HeaderMap {
    if updates == [] then WithoutHopByHop(fetched)
    else Merged(MergedAll(fetched, updates[..|updates| - 1]), updates[|updates| - 1])
  }

  ghost predicate AllAnswered(events: seq<Event>, fetched: HeaderMap, updates: seq<HeaderMap>) {
    Answered(events, fetched) && forall i :: 0 <= i < |updates| ==> Answered(events, updates[i])
  }

  ghost predicate MadeOf(events: seq<Event>, h: HeaderMap) {
    exists fetched, updates: seq<HeaderMap> :: AllAnswered(events, fetched, updates) && h == MergedAll(fetched, updates)
  }

  ghost predicate SlotMadeOf(events: seq<Event>, slot: Slot) {
    match slot
    case Sent(pending, _) =>
      pending.Store? && pending.state.revalidating.Some? ==> MadeOf(events, pending.state.revalidating.value.headers)
    case Reading(_, head, _, _, _, _) => Answered(events, head.headers)
  }

  ghost predicate StoreMadeOf(events: seq<Event>, store: Ideal) {
    forall key, e: CacheEntry :: key in store && e in store[key] ==> MadeOf(events, e.headers)
  }

  ghost predicate SlotsMadeOf(events: seq<Event>, slots: map<nat, Slot>) {
    forall id :: id in slots ==> SlotMadeOf(events, slots[id])
  }

  lemma AnsweredLonger(events: seq<Event>, ev: Event, h: HeaderMap)
    requires Answered(events, h)
    ensures Answered(events + [ev], h)
  {
    var i :| 0 <= i < |events| && events[i].Reply? && events[i].response.headers == h;
    assert (events + [ev])[i] == events[i];
  }

  lemma MadeOfLonger(events: seq<Event>, ev: Event, h: HeaderMap)
    requires MadeOf(events, h)
    ensures MadeOf(events + [ev], h)
  {
    var fetched, updates: seq<HeaderMap> :| AllAnswered(events, fetched, updates) && h == MergedAll(fetched, updates);
    AnsweredLonger(events, ev, fetched);
    forall i | 0 <= i < |updates| ensures Answered(events + [ev], updates[i]) {
      AnsweredLonger(events, ev, updates[i]);
    }
    assert AllAnswered(events + [ev], fetched, updates);
  }

  lemma RefreshedIsMadeOf(events: seq<Event>, h: HeaderMap, notModified: HeaderMap)
    requires MadeOf(events, h) && Answered(events, notModified)
    ensures MadeOf(events, Merged(h, notModified))
  {
    var fetched, updates: seq<HeaderMap> :| AllAnswered(events, fetched, updates) && h == MergedAll(fetched, updates);
    var more := updates + [notModified];
    assert more[..|updates|] == updates;
    assert AllAnswered(events, fetched, more);
  }

  lemma FetchedIsMadeOf(events: seq<Event>, fetched: HeaderMap)
    requires Answered(events, fetched)
    ensures MadeOf(events, WithoutHopByHop(fetched))
  {
    assert AllAnswered(events, fetched, []) && MergedAll(fetched, []) == WithoutHopByHop(fetched);
  }

  lemma LastAnswered(events: seq<Event>, ev: Event)
    requires ev.Reply?
    ensures Answered(events + [ev], ev.response.headers)
  {
    assert (events + [ev])[|events|] == ev;
  }

  lemma CommittedHeaders(s: Setting, slot: Slot, f: Frame)
    requires slot.Reading? && ReadingOk(s, slot) && Take(slot.recorder, f).1.Some?
    ensures Take(slot.recorder, f).1.value.headers == WithoutHopByHop(slot.head.headers)
  {
  }

  /** Whatever an event writes is made of the answers so far. */
  lemma WrittenIsMadeOf(s: Setting, c: Cache, events: seq<Event>, ev: Event)
    requires Sound(s, c) && SlotsMadeOf(events, c.slots) && WrittenBy(s, c, ev).Written?
    ensures MadeOf(events + [ev], WrittenBy(s, c, ev).entry.headers)
  {
    var slot := c.slots[ev.id];
    assert SlotMadeOf(events, slot) && SlotOk(s, c.log, slot);
    if ev.Reply? {
      RefreshedFrom(s, c.slots, ev);
      var h := slot.pending.state.revalidating.value.headers;
      MadeOfLonger(events, ev, h);
      LastAnswered(events, ev);
      RefreshedIsMadeOf(events + [ev], h, ev.response.headers);
    } else {
      CommittedHeaders(s, slot, ev.frame);
      AnsweredLonger(events, ev, slot.head.headers);
      FetchedIsMadeOf(events + [ev], slot.head.headers);
    }
  }

  lemma StoreStaysMadeOf(s: Setting, c: Cache, events: seq<Event>, ev: Event)
    requires Sound(s, c) && StoreMadeOf(events, c.store) && SlotsMadeOf(events, c.slots)
    ensures StoreMadeOf(events + [ev], Next(s, c, ev).store)
  {
    var after := Next(s, c, ev).store;
    forall key, e: CacheEntry | key in after && e in after[key] ensures MadeOf(events + [ev], e.headers) {
      EventAt(s, c, ev, key);
      var w := WrittenBy(s, c, ev);
      if w.Written? && w.key == key { MergedFrom(IdealAt(c.store, key), w.entry, e); }
      if w.Written? && w.key == key && e == w.entry {
        WrittenIsMadeOf(s, c, events, ev);
      } else {
        assert key in c.store && e in c.store[key];
        MadeOfLonger(events, ev, e.headers);
      }
    }
  }

  lemma SlotLonger(events: seq<Event>, ev: Event, slot: Slot)
    requires SlotMadeOf(events, slot)
    ensures SlotMadeOf(events + [ev], slot)
  {
    match slot
    case Sent(pending, _) =>
      if pending.Store? && pending.state.revalidating.Some? {
        MadeOfLonger(events, ev, pending.state.revalidating.value.headers);
      }
    case Reading(_, head, _, _, _, _) => AnsweredLonger(events, ev, head.headers);
  }

  lemma BegunIsMadeOf(s: Setting, c: Cache, events: seq<Event>, verb: string, h: HeaderMap, url: Url, now: int)
    requires StoreMadeOf(events, c.store)
    ensures SlotMadeOf(events, Sent(Begun(s, c, verb, h, url, now).pending, url))
  {
    var key := KeyOf(verb, url);
    PendingShape(s.config, IdealAt(c.store, key), verb, h, url, now);
    var found := Select(IdealAt(c.store, key), h);
    assert found.Some? ==> key in c.store && found.value in c.store[key];
  }

  lemma HeadAfterReply(s: Setting, c: Cache, ev: Event)
    requires Answers(c.slots, ev) && ev.id in Next(s, c, ev).slots
    ensures Next(s, c, ev).slots[ev.id].Reading? && Next(s, c, ev).slots[ev.id].head == ev.response
  {
  }

  lemma HeadAfterRead(c: Cache, id: nat, slot: Slot, f: Frame)
    requires slot.Reading?
    ensures WasRead(c, id, slot, f).slots[id].Reading? && WasRead(c, id, slot, f).slots[id].head == slot.head
  {
  }

  lemma AddressedSlotIsMadeOf(s: Setting, c: Cache, events: seq<Event>, ev: Event)
    requires StoreMadeOf(events, c.store) && SlotsMadeOf(events, c.slots)
    requires !ev.Forget? && ev.id in Next(s, c, ev).slots
    ensures SlotMadeOf(events + [ev], Next(s, c, ev).slots[ev.id])
  {
    var id := ev.id;
    if id in c.slots { SlotLonger(events, ev, c.slots[id]); }
    match ev
    case Begin(_, verb, h, url, now) =>
      if id !in c.slots {
        BegunIsMadeOf(s, c, events, verb, h, url, now);
        SlotLonger(events, ev, Sent(Begun(s, c, verb, h, url, now).pending, url));
      }
    case Reply(_, _, _) =>
      if Answers(c.slots, ev) {
        HeadAfterReply(s, c, ev);
        LastAnswered(events, ev);
      }
    case Read(_, f) => if c.slots[id].Reading? { HeadAfterRead(c, id, c.slots[id], f); }
    case Abandon(_) =>
  }

  lemma SlotsStayMadeOf(s: Setting, c: Cache, events: seq<Event>, ev: Event)
    requires StoreMadeOf(events, c.store) && SlotsMadeOf(events, c.slots)
    ensures SlotsMadeOf(events + [ev], Next(s, c, ev).slots)
  {
    var after := Next(s, c, ev).slots;
    forall id | id in after ensures SlotMadeOf(events + [ev], after[id]) {
      if Addresses(ev, id) {
        AddressedSlotIsMadeOf(s, c, events, ev);
      } else {
        ForeignEventLeavesSlot(s, c, ev, id);
        SlotLonger(events, ev, c.slots[id]);
      }
    }
  }

  lemma {:induction false} EveryRunIsMadeOf(s: Setting, events: seq<Event>)
    ensures StoreMadeOf(events, RunOf(s, events).store) && SlotsMadeOf(events, RunOf(s, events).slots)
    decreases |events|
  {
    if events != [] {
      var front, last := events[..|events| - 1], events[|events| - 1];
      assert events == front + [last];
      EveryRunIsMadeOf(s, front);
      EveryRunIsSound(s, front);
      StoreStaysMadeOf(s, RunOf(s, front), front, last);
      SlotsStayMadeOf(s, RunOf(s, front), front, last);
    }
  }

  /** Some 304 carried the field. */
  predicate Brought(updates: seq<HeaderMap>, name: string) {
    exists i :: 0 <= i < |updates| && Carries(updates[i], name)
  }

  lemma BroughtOneMore(front: seq<HeaderMap>, last: HeaderMap, name: string)
    ensures Brought(front + [last], name) <==> Brought(front, name) || Carries(last, name)
  {
    var updates := front + [last];
    if Brought(front, name) {
      var i :| 0 <= i < |front| && Carries(front[i], name);
      assert updates[i] == front[i];
    }
    assert updates[|front|] == last;
  }

  lemma {:induction false} MergedAllField(fetched: HeaderMap, updates: seq<HeaderMap>, name: string)
    ensures Has(MergedAll(fetched, updates), name) <==>
            (Has(fetched, name) && name !in HopFields(fetched)) || Brought(updates, name)
    decreases |updates|
  {
    if updates == [] {
      StrippedField(fetched, name);
    } else {
      var front, last := updates[..|updates| - 1], updates[|updates| - 1];
      MergedAllField(fetched, front, name);
      MergedField(MergedAll(fetched, front), last, name);
      assert updates == front + [last];
      BroughtOneMore(front, last, name);
    }
  }

  /**
   In every run, the fields of every stored entry: those of one fetched response that were neither
   hop-by-hop nor named by its own `Connection`, and those that some 304 since carried.  So a field
   that a `Connection` line names is there exactly when a 304 brought it.
   */
  lemma StoredFieldIff(s: Setting, events: seq<Event>, key: CacheKey, e: CacheEntry)
    returns (fetched: HeaderMap, updates: seq<HeaderMap>)
    requires e in IdealAt(RunOf(s, events).store, key)
    ensures AllAnswered(events, fetched, updates)
    ensures forall name ::
              Has(e.headers, name) <==> (Has(fetched, name) && name !in HopFields(fetched)) || Brought(updates, name)
    ensures forall name :: name in NamedByConnection(fetched) ==> (Has(e.headers, name) <==> Brought(updates, name))
  {
    EveryRunIsMadeOf(s, events);
    assert MadeOf(events, e.headers);
    fetched, updates :| AllAnswered(events, fetched, updates) && e.headers == MergedAll(fetched, updates);
    forall name
      ensures Has(e.headers, name) <==> (Has(fetched, name) && name !in HopFields(fetched)) || Brought(updates, name)
    {
      MergedAllField(fetched, updates, name);
    }
  }
}
