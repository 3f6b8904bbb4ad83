/** The cache running over the bounded store is one of the runs the cache's theorems speak of. */
module HttpCacheOverStore {
  import opened Headers
  import opened CacheEntries
  import opened CachePolicy
  import opened CacheStore
  import opened CacheStoreRuns
  import opened CacheStreams
  import opened HttpCaching
  import opened HttpCacheRuns
  import opened HttpCaches

  // ----- What the bounded store holds -----

  ghost function HeldKeys(shards: seq<Shard>): set<CacheKey> {
    set i, k | 0 <= i < |shards| && k in shards[i].records :: k
  }

  /** The bounded store as a map from keys to variants. */
  ghost function View(b: Backend, shards: seq<Shard>): Ideal
    requires |shards| == b.limits.Shards()
  {
    map k | k in HeldKeys(shards) && k in shards[b.Home(k)].records :: VariantsOf(b, shards, k)
  }

  lemma ViewHolds(b: Backend, shards: seq<Shard>, k: CacheKey)
    requires |shards| == b.limits.Shards()
    ensures k in View(b, shards) <==> k in shards[b.Home(k)].records
    ensures IdealAt(View(b, shards), k) == VariantsOf(b, shards, k)
  {
    assert k in shards[b.Home(k)].records ==> k in HeldKeys(shards);
  }

  lemma PurgeOnlyDrops(limits: MemoryLimits, shard: Shard, k: CacheKey)
    requires k in Purged(limits, shard).records
    ensures k in shard.records && Purged(limits, shard).records[k] == shard.records[k]
  {
  }

  lemma PutKeepsOrForgets(b: Backend, shard: Shard, key: CacheKey, e: CacheEntry, stamp: nat, k: CacheKey)
    requires k in CacheStore.Put(b.sizes, b.limits, shard, key, e, stamp).records
    ensures VariantsAt(CacheStore.Put(b.sizes, b.limits, shard, key, e, stamp), k) ==
            if k == key then MergeVariants(VariantsAt(shard, key), e) else VariantsAt(shard, k)
    ensures k != key ==> k in shard.records
  {
    if IncomingBytes(b.sizes, shard, key, e) <= b.limits.PerShard() {
      PurgeOnlyDrops(b.limits, Inserted(b.sizes, shard, key, e, stamp), k);
    }
  }

  predicate Rewrites(c: Call, k: CacheKey) {
    c.Put? && k == c.key
  }

  /** What a call leaves under a key its shard still holds. */
  lemma ShardKeepsOrForgets(b: Backend, shard: Shard, c: Call, k: CacheKey)
    requires k in ShardAfter(b, shard, c).records
    ensures Rewrites(c, k) ==> VariantsAt(ShardAfter(b, shard, c), k) == MergeVariants(VariantsAt(shard, k), c.entry)
    ensures !Rewrites(c, k) ==> k in shard.records && VariantsAt(ShardAfter(b, shard, c), k) == VariantsAt(shard, k)
    ensures c.Remove? ==> k != c.key
  {
    if c.Put? { PutKeepsOrForgets(b, shard, c.key, c.entry, c.stamp, k); }
  }

  lemma IdealKeeps(before: Ideal, after: Ideal, c: Call, k: CacheKey)
    requires k in after && (c.Remove? ==> k != c.key)
    requires Rewrites(c, k) ==> after[k] == MergeVariants(IdealAt(before, k), c.entry)
    requires !Rewrites(c, k) ==> k in before && after[k] == before[k]
    ensures k in IdealAfter(before, c) && after[k] == IdealAfter(before, c)[k]
  {
  }

  /** One call leaves each key it still holds as the ideal store would. */
  lemma CallKeepsOrForgets(b: Backend, shards: seq<Shard>, c: Call, k: CacheKey)
    requires |shards| == b.limits.Shards() && k in View(b, StoreAfter(b, shards, c))
    ensures k in IdealAfter(View(b, shards), c)
    ensures View(b, StoreAfter(b, shards, c))[k] == IdealAfter(View(b, shards), c)[k]
  {
    var after, i := StoreAfter(b, shards, c), b.Home(k);
    ViewHolds(b, shards, k);
    ViewHolds(b, after, k);
    if i == b.Home(c.key) {
      ShardKeepsOrForgets(b, shards[i], c, k);
    } else {
      assert after[i] == shards[i] && k != c.key;
    }
    IdealKeeps(View(b, shards), View(b, after), c, k);
  }

  /** Any call does to the bounded store what it does to the ideal one, and then forgets some keys. */
  lemma CallOnlyForgets(b: Backend, shards: seq<Shard>, c: Call) returns (keys: set<CacheKey>)
    requires |shards| == b.limits.Shards()
    ensures View(b, StoreAfter(b, shards, c)) == IdealAfter(View(b, shards), c) - keys
  {
    var after, ideal := View(b, StoreAfter(b, shards, c)), IdealAfter(View(b, shards), c);
    keys := ideal.Keys - after.Keys;
    forall k | k in after ensures k in ideal && after[k] == ideal[k] {
      CallKeepsOrForgets(b, shards, c, k);
    }
  }

  lemma RemoveForgetsNothingElse(b: Backend, shards: seq<Shard>, key: CacheKey)
    requires |shards| == b.limits.Shards()
    ensures View(b, StoreAfter(b, shards, Remove(key))) == View(b, shards) - {key}
  {
    var after, ideal := View(b, StoreAfter(b, shards, Remove(key))), View(b, shards) - {key};
    forall k ensures k in after <==> k in ideal {
      ViewHolds(b, shards, k);
      ViewHolds(b, StoreAfter(b, shards, Remove(key)), k);
    }
    forall k | k in after ensures after[k] == ideal[k] {
      CallKeepsOrForgets(b, shards, Remove(key), k);
    }
  }

  lemma {:induction false} RemovalsDrop(b: Backend, calls: seq<Call>, keys: seq<CacheKey>)
    ensures View(b, ShardsAfter(b, calls + Removals(keys))) == Dropping(View(b, ShardsAfter(b, calls)), keys)
    ensures FairStamps(calls) ==> FairStamps(calls + Removals(keys))
    ensures Stamps(calls + Removals(keys)) == Stamps(calls)
    decreases |keys|
  {
    if keys == [] {
      assert calls + Removals(keys) == calls;
    } else {
      var front, last := keys[..|keys| - 1], keys[|keys| - 1];
      RemovalsDrop(b, calls, front);
      RemovalsGrow(calls, keys, |keys| - 1);
      assert keys[..|keys|] == keys;
      AfterLast(b, calls + Removals(front), Remove(last));
      RemoveForgetsNothingElse(b, ShardsAfter(b, calls + Removals(front)), last);
    }
  }

  // ----- The cache over it -----

  /** The store's calls so far and its counter, and the exchanges under way. */
  datatype Held = Held(calls: seq<Call>, tick: nat, slots: map<nat, Slot>, log: seq<Fetch>)

  ghost function Seen(b: Backend, x: Held): Cache {
    Cache(View(b, ShardsAfter(b, x.calls)), x.slots, x.log)
  }

  function CallsUnder(x: Held, e: Event, v: Verdict): seq<Call> {
    match e
    case Begin(id, verb, h, url, _) => if id in x.slots || SetsAside(verb, h) then [] else [Get(KeyOf(verb, url), x.tick + 1)]
    case Reply(_, _, _) => if Answers(x.slots, e) then CallsFor(v, x.tick + 1) else []
    case Read(id, f) =>
      if id in x.slots && x.slots[id].Reading? && Take(x.slots[id].recorder, f).1.Some?
      then [Put(x.slots[id].state.key, Take(x.slots[id].recorder, f).1.value, x.tick + 1)] else []
    case Abandon(_) => []
    case Forget(_) => []
  }

  /** The calls an event makes of the store, as the cache's methods make them. */
  function CallsOf(s: Setting, x: Held, e: Event): seq<Call> {
    CallsUnder(x, e, VerdictOn(s, x.slots, e))
  }

  predicate Draws(calls: seq<Call>) {
    |calls| == 1 && !calls[0].Remove?
  }

  /** One event over the bounded store; the store forgets by itself, so no event asks it to. */
  ghost function NextHeld(s: Setting, b: Backend, x: Held, e: Event): Held {
    if e.Forget? then x
    else
      var calls, c := CallsOf(s, x, e), Next(s, Seen(b, x), e);
      Held(x.calls + calls, if Draws(calls) then x.tick + 1 else x.tick, c.slots, c.log)
  }

  ghost predicate HeldOk(x: Held) {
    FairStamps(x.calls) && forall stamp :: stamp in Stamps(x.calls) ==> stamp <= x.tick
  }

  /** What the calls of an event leave in the store, up to forgetting. */
  ghost predicate Serves(b: Backend, x: Held, calls: seq<Call>, store: Ideal, keys: set<CacheKey>) {
    && FairStamps(x.calls + calls)
    && (forall stamp :: stamp in Stamps(x.calls + calls) ==> stamp <= if Draws(calls) then x.tick + 1 else x.tick)
    && View(b, ShardsAfter(b, x.calls + calls)) == store - keys
  }

  lemma NoCalls(b: Backend, x: Held)
    requires HeldOk(x)
    ensures Serves(b, x, [], View(b, ShardsAfter(b, x.calls)), {})
  {
    assert x.calls + [] == x.calls;
  }

  lemma OneCall(b: Backend, x: Held, c: Call) returns (keys: set<CacheKey>)
    requires HeldOk(x) && (c.Remove? || c.stamp == x.tick + 1)
    ensures Serves(b, x, [c], IdealAfter(View(b, ShardsAfter(b, x.calls)), c), keys)
  {
    keys := CallOnlyForgets(b, ShardsAfter(b, x.calls), c);
    AfterLast(b, x.calls, c);
  }

  lemma RemovalsDrawNothing(dropped: seq<CacheKey>)
    ensures !Draws(Removals(dropped))
  {
  }

  lemma ManyRemovals(b: Backend, x: Held, dropped: seq<CacheKey>)
    requires HeldOk(x)
    ensures Serves(b, x, Removals(dropped), Dropping(View(b, ShardsAfter(b, x.calls)), dropped), {})
  {
    RemovalsDrop(b, x.calls, dropped);
    RemovalsDrawNothing(dropped);
    var store := Dropping(View(b, ShardsAfter(b, x.calls)), dropped);
    assert store - {} == store;
  }

  lemma VerdictServes(b: Backend, x: Held, v: Verdict) returns (keys: set<CacheKey>)
    requires HeldOk(x)
    ensures Serves(b, x, CallsFor(v, x.tick + 1), Judged(View(b, ShardsAfter(b, x.calls)), v), keys)
  {
    match v {
      case PassOn(dropped) =>
        ManyRemovals(b, x, dropped);
        keys := {};
      case Reuse(key, refreshed, keep, _) =>
        keys := OneCall(b, x, if keep then Put(key, refreshed, x.tick + 1) else Remove(key));
      case RecordAs(_, _) =>
        NoCalls(b, x);
        keys := {};
    }
  }

  lemma ReplyIsJudged(s: Setting, c: Cache, x: Held, e: Event)
    requires Answers(x.slots, e) && c.slots == x.slots
    ensures Next(s, c, e).store == Judged(c.store, VerdictOn(s, x.slots, e))
  {
  }

  lemma ReplyCalls(x: Held, e: Event, v: Verdict)
    requires Answers(x.slots, e)
    ensures CallsUnder(x, e, v) == CallsFor(v, x.tick + 1)
  {
  }

  lemma ReplyServes(s: Setting, b: Backend, x: Held, e: Event) returns (keys: set<CacheKey>)
    requires HeldOk(x) && e.Reply?
    ensures Serves(b, x, CallsOf(s, x, e), Next(s, Seen(b, x), e).store, keys)
  {
    if Answers(x.slots, e) {
      ReplyIsJudged(s, Seen(b, x), x, e);
      ReplyCalls(x, e, VerdictOn(s, x.slots, e));
      keys := VerdictServes(b, x, VerdictOn(s, x.slots, e));
    } else {
      NoCalls(b, x);
      keys := {};
    }
  }

  lemma EventServes(s: Setting, b: Backend, x: Held, e: Event) returns (keys: set<CacheKey>)
    requires HeldOk(x) && !e.Forget?
    ensures Serves(b, x, CallsOf(s, x, e), Next(s, Seen(b, x), e).store, keys)
  {
    var calls := CallsOf(s, x, e);
    if e.Reply? {
      keys := ReplyServes(s, b, x, e);
    } else if calls == [] {
      NoCalls(b, x);
      keys := {};
    } else {
      keys := OneCall(b, x, calls[0]);
      assert calls == [calls[0]];
    }
  }

  /** Each event over the bounded store is that event, and then some forgetting. */
  lemma EventIsSimulated(s: Setting, b: Backend, x: Held, e: Event) returns (keys: set<CacheKey>)
    requires HeldOk(x) && !e.Forget?
    ensures HeldOk(NextHeld(s, b, x, e))
    ensures Seen(b, NextHeld(s, b, x, e)) == Next(s, Next(s, Seen(b, x), e), Forget(keys))
  {
    keys := EventServes(s, b, x, e);
  }

  ghost function HeldRun(s: Setting, b: Backend, events: seq<Event>): Held {
    if events == [] then Held([], 0, map[], []) else NextHeld(s, b, HeldRun(s, b, events[..|events| - 1]), events[|events| - 1])
  }

  lemma EmptyView(b: Backend)
    ensures View(b, Empty(b)) == map[]
  {
  }

  lemma RunOfLast(s: Setting, events: seq<Event>, e: Event)
    ensures RunOf(s, events + [e]) == Next(s, RunOf(s, events), e)
  {
    assert (events + [e])[..|events|] == events;
  }

  /** Every run over the bounded store shows the cache a run of its own, with forgetting in between. */
  lemma {:induction false} RunIsSimulated(s: Setting, b: Backend, events: seq<Event>) returns (seen: seq<Event>)
    ensures HeldOk(HeldRun(s, b, events))
    ensures RunOf(s, seen) == Seen(b, HeldRun(s, b, events))
    decreases |events|
  {
    if events == [] {
      seen := [];
      EmptyView(b);
    } else {
      var front, last := events[..|events| - 1], events[|events| - 1];
      seen := RunIsSimulated(s, b, front);
      if !last.Forget? {
        var keys := EventIsSimulated(s, b, HeldRun(s, b, front), last);
        RunOfLast(s, seen, last);
        RunOfLast(s, seen + [last], Forget(keys));
        seen := seen + [last] + [Forget(keys)];
      }
    }
  }

  /**
   Over the bounded store, whatever it evicts or refuses: a hit is byte for byte the whole body of an
   earlier fetch of the same target, by a request that agrees on everything that response varied on.
   */
  lemma HitOverStoreIsSound(s: Setting, b: Backend, events: seq<Event>, verb: string, h: HeaderMap, url: Url, now: int)
      returns (i: nat)
    requires var x := HeldRun(s, b, events);
             Before(s.config, VariantsOf(b, ShardsAfter(b, x.calls), KeyOf(verb, url)), verb, h, url, now).served.Some?
    ensures var x := HeldRun(s, b, events);
            var served := Before(s.config, VariantsOf(b, ShardsAfter(b, x.calls), KeyOf(verb, url)), verb, h, url, now).served.value;
            && i < |x.log| && served.how == Hit && served.body == x.log[i].body
            && x.log[i].key == KeyOf("GET", url) && verb == "GET"
            && VaryNames(x.log[i].response).Some? && AsksAlike(x.log[i], h)
  {
    var seen := RunIsSimulated(s, b, events);
    var x := HeldRun(s, b, events);
    ViewHolds(b, ShardsAfter(b, x.calls), KeyOf(verb, url));
    var e;
    i, e := HitIsSound(s, seen, verb, h, url, now);
  }

  /** So is a revalidated response, for the request that was sent. */
  lemma RevalidatedOverStoreIsSound(s: Setting, b: Backend, events: seq<Event>, id: nat, response: Response, now: int)
      returns (i: nat)
    requires var x := HeldRun(s, b, events);
             && id in x.slots && x.slots[id].Sent?
             && HttpCaching.After(s.config, s.resolve, x.slots[id].pending, x.slots[id].url, response, now).Reuse?
    ensures var x := HeldRun(s, b, events);
            var pending := x.slots[id].pending;
            var served := HttpCaching.After(s.config, s.resolve, pending, x.slots[id].url, response, now).served;
            && i < |x.log| && pending.Store? && served.how == Revalidated && served.body == x.log[i].body
            && x.log[i].key == pending.state.key && pending.state.key.verb == "GET"
            && VaryNames(x.log[i].response).Some? && AsksAlike(x.log[i], pending.state.requestHeaders)
  {
    var seen := RunIsSimulated(s, b, events);
    i := RevalidatedIsSound(s, seen, id, response, now);
  }

  /** And every entry the bounded store holds satisfies the stored-entry policy. */
  lemma HeldEntriesAreKeepable(s: Setting, b: Backend, events: seq<Event>, key: CacheKey, e: CacheEntry)
    requires e in VariantsOf(b, ShardsAfter(b, HeldRun(s, b, events).calls), key)
    ensures key.verb == "GET" && Keepable(s.config, e) && Backed(HeldRun(s, b, events).log, key, e)
  {
    var seen := RunIsSimulated(s, b, events);
    ViewHolds(b, ShardsAfter(b, HeldRun(s, b, events).calls), key);
    EveryRunIsSound(s, seen);
    assert EntryOk(s, RunOf(s, seen).log, key, e);
  }
}
