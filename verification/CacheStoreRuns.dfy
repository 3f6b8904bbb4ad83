/** The bounded store against an ideal one that never forgets, over every sequence of calls. */
module CacheStoreRuns {
  import opened Arithmetic
  import opened CacheEntries
  import opened CacheStore

  datatype Backend = Backend(sizes: Sizes, limits: MemoryLimits, hash: CacheKey -> nat)
  {
    /** The one shard a key lives in. */
    function Home(key: CacheKey): (i: nat)
      ensures i < limits.Shards()
    {
      hash(key) % limits.Shards()
    }
  }

  /** A lookup and a store each carry the recency stamp they drew, before the shard was locked. */
  datatype Call =
    | Get(key: CacheKey, stamp: nat)
    | Put(key: CacheKey, entry: CacheEntry, stamp: nat)
    | Remove(key: CacheKey)
  {
    predicate Puts(k: CacheKey, e: CacheEntry) {
      Put? && key == k && entry == e
    }

    function Drawn(): set<nat> {
      if Remove? then {} else {stamp}
    }
  }

  ghost function ShardAfter(b: Backend, shard: Shard, c: Call): Shard {
    match c
    case Get(key, stamp) => Touched(shard, key, stamp)
    case Put(key, e, stamp) => CacheStore.Put(b.sizes, b.limits, shard, key, e, stamp)
    case Remove(key) => Removed(shard, key)
  }

  ghost function StoreAfter(b: Backend, shards: seq<Shard>, c: Call): (r: seq<Shard>)
    requires |shards| == b.limits.Shards()
    ensures |r| == |shards|
  {
    var i := b.Home(c.key);
    shards[i := ShardAfter(b, shards[i], c)]
  }

  function VariantsOf(b: Backend, shards: seq<Shard>, key: CacheKey): seq<CacheEntry>
    requires |shards| == b.limits.Shards()
  {
    VariantsAt(shards[b.Home(key)], key)
  }

  // ----- The ideal store -----

  type Ideal = map<CacheKey, seq<CacheEntry>>

  function IdealAt(ideal: Ideal, key: CacheKey): seq<CacheEntry> {
    if key in ideal then ideal[key] else []
  }

  function IdealAfter(ideal: Ideal, c: Call): Ideal {
    match c
    case Get(_, _) => ideal
    case Put(key, e, _) => ideal[key := MergeVariants(IdealAt(ideal, key), e)]
    case Remove(key) => ideal - {key}
  }

  // ----- Subsequences -----

  predicate Subsequence(a: seq<CacheEntry>, b: seq<CacheEntry>)
    decreases |b|
  {
    if a == [] then true
    else if b == [] then false
    else
      var a', b' := a[..|a| - 1], b[..|b| - 1];
      if a[|a| - 1] == b[|b| - 1] then Subsequence(a', b') else Subsequence(a, b')
  }

  lemma {:induction false} SubsequenceWeakens(a: seq<CacheEntry>, b: seq<CacheEntry>)
    requires Subsequence(a, b) && a != []
    ensures Subsequence(a[..|a| - 1], b)
    decreases |b|
  {
    var a', b' := a[..|a| - 1], b[..|b| - 1];
    if a' != [] {
      if a[|a| - 1] == b[|b| - 1] {
        if a'[|a'| - 1] == b[|b| - 1] { SubsequenceWeakens(a', b'); }
      } else {
        SubsequenceWeakens(a, b');
        if a'[|a'| - 1] == b[|b| - 1] { SubsequenceWeakens(a', b'); }
      }
    }
  }

  lemma SubsequenceOfMore(a: seq<CacheEntry>, b: seq<CacheEntry>, e: CacheEntry)
    requires Subsequence(a, b)
    ensures Subsequence(a, b + [e]) && Subsequence(a + [e], b + [e])
  {
    assert (b + [e])[..|b|] == b && (a + [e])[..|a|] == a;
    if a != [] && a[|a| - 1] == e { SubsequenceWeakens(a, b); }
  }

  /** Dropping what a selector supersedes keeps one list inside the other. */
  lemma {:induction false} StandingRefines(a: seq<CacheEntry>, b: seq<CacheEntry>, selector: Selector, m: nat, n: nat)
    requires m <= |a| && n <= |b| && Subsequence(a[..m], b[..n])
    ensures Subsequence(Standing(a, selector, m), Standing(b, selector, n))
    decreases n
  {
    if m > 0 && n > 0 {
      assert a[..m][..m - 1] == a[..m - 1] && b[..n][..n - 1] == b[..n - 1];
      if a[m - 1] == b[n - 1] {
        StandingRefines(a, b, selector, m - 1, n - 1);
        SubsequenceOfMore(Standing(a, selector, m - 1), Standing(b, selector, n - 1), b[n - 1]);
      } else {
        StandingRefines(a, b, selector, m, n - 1);
        SubsequenceOfMore(Standing(a, selector, m), Standing(b, selector, n - 1), b[n - 1]);
      }
    }
  }

  lemma MergeRefines(a: seq<CacheEntry>, b: seq<CacheEntry>, e: CacheEntry)
    requires Subsequence(a, b)
    ensures Subsequence(MergeVariants(a, e), MergeVariants(b, e))
  {
    assert a[..|a|] == a && b[..|b|] == b;
    StandingRefines(a, b, e.selector, |a|, |b|);
    SubsequenceOfMore(Standing(a, e.selector, |a|), Standing(b, e.selector, |b|), e);
  }

  lemma {:induction false} SubsequenceIsWithin(a: seq<CacheEntry>, b: seq<CacheEntry>)
    requires Subsequence(a, b)
    ensures forall e :: e in a ==> e in b
    decreases |b|
  {
    if a != [] {
      var a', b' := a[..|a| - 1], b[..|b| - 1];
      assert forall e :: e in b <==> e in b' || e == b[|b| - 1];
      if a[|a| - 1] == b[|b| - 1] {
        SubsequenceIsWithin(a', b');
        assert forall e :: e in a <==> e in a' || e == a[|a| - 1];
      } else {
        SubsequenceIsWithin(a, b');
      }
    }
  }

  // ----- The invariant -----

  ghost predicate AtHome(b: Backend, shard: Shard, i: nat) {
    forall k :: k in shard.records ==> b.Home(k) == i
  }

  ghost predicate Within(shard: Shard, ideal: Ideal) {
    forall k :: k in shard.records ==> Subsequence(shard.records[k].variants, IdealAt(ideal, k))
  }

  ghost predicate StampedBy(shard: Shard, used: set<nat>) {
    forall k :: k in shard.records ==> shard.records[k].lastUsed in used
  }

  ghost predicate ShardInv(b: Backend, shard: Shard, i: nat, ideal: Ideal, used: set<nat>) {
    && ShardOk(b.sizes, b.limits, shard)
    && AtHome(b, shard, i)
    && Within(shard, ideal)
    && StampedBy(shard, used)
  }

  ghost predicate StoreInv(b: Backend, shards: seq<Shard>, ideal: Ideal, used: set<nat>) {
    && |shards| == b.limits.Shards()
    && forall i :: 0 <= i < |shards| ==> ShardInv(b, shards[i], i, ideal, used)
  }

  lemma InsertedStaysWithin(b: Backend, shard: Shard, i: nat, ideal: Ideal, used: set<nat>, key: CacheKey,
                            e: CacheEntry, stamp: nat)
    requires ShardInv(b, shard, i, ideal, used) && b.Home(key) == i
    ensures var put := Inserted(b.sizes, shard, key, e, stamp);
            AtHome(b, put, i) && Within(put, IdealAfter(ideal, Put(key, e, stamp))) && StampedBy(put, used + {stamp})
  {
    MergeRefines(VariantsAt(shard, key), IdealAt(ideal, key), e);
  }

  lemma FewerStaysWithin(b: Backend, before: Shard, after: Shard, i: nat, ideal: Ideal, used: set<nat>)
    requires AtHome(b, before, i) && Within(before, ideal) && StampedBy(before, used)
    requires forall k :: k in after.records ==> k in before.records && after.records[k] == before.records[k]
    ensures AtHome(b, after, i) && Within(after, ideal) && StampedBy(after, used)
  {
  }

  lemma PutStaysWithin(b: Backend, shard: Shard, i: nat, ideal: Ideal, used: set<nat>, key: CacheKey, e: CacheEntry,
                       stamp: nat)
    requires ShardInv(b, shard, i, ideal, used) && b.Home(key) == i
    ensures var after := CacheStore.Put(b.sizes, b.limits, shard, key, e, stamp);
            AtHome(b, after, i) && Within(after, IdealAfter(ideal, Put(key, e, stamp))) && StampedBy(after, used + {stamp})
  {
    if IncomingBytes(b.sizes, shard, key, e) <= b.limits.PerShard() {
      var put := Inserted(b.sizes, shard, key, e, stamp);
      InsertedStaysWithin(b, shard, i, ideal, used, key, e, stamp);
      FewerStaysWithin(b, put, Purged(b.limits, put), i, IdealAfter(ideal, Put(key, e, stamp)), used + {stamp});
    }
  }

  lemma TouchedStaysWithin(b: Backend, shard: Shard, i: nat, ideal: Ideal, used: set<nat>, key: CacheKey, stamp: nat)
    requires ShardInv(b, shard, i, ideal, used)
    ensures var after := Touched(shard, key, stamp);
            AtHome(b, after, i) && Within(after, ideal) && StampedBy(after, used + {stamp})
  {
  }

  predicate MayDraw(c: Call, used: set<nat>) {
    c.Remove? || (c.stamp >= 1 && c.stamp !in used)
  }

  lemma ShardStep(b: Backend, shard: Shard, i: nat, ideal: Ideal, used: set<nat>, c: Call)
    requires ShardInv(b, shard, i, ideal, used) && b.Home(c.key) == i && MayDraw(c, used)
    ensures ShardInv(b, ShardAfter(b, shard, c), i, IdealAfter(ideal, c), used + c.Drawn())
  {
    match c {
      case Get(key, stamp) =>
        TouchedIsOk(b.sizes, b.limits, shard, key, stamp);
        TouchedStaysWithin(b, shard, i, ideal, used, key, stamp);
      case Put(key, e, stamp) =>
        PutIsOk(b.sizes, b.limits, shard, key, e, stamp);
        PutStaysWithin(b, shard, i, ideal, used, key, e, stamp);
      case Remove(key) => RemovedIsOk(b.sizes, b.limits, shard, key);
    }
  }

  /** Another shard's keys are untouched by a call, in the ideal store as in the real one. */
  lemma OtherShard(b: Backend, shard: Shard, i: nat, ideal: Ideal, used: set<nat>, c: Call)
    requires ShardInv(b, shard, i, ideal, used) && b.Home(c.key) != i
    ensures ShardInv(b, shard, i, IdealAfter(ideal, c), used + c.Drawn())
  {
    forall k | k in shard.records ensures IdealAt(IdealAfter(ideal, c), k) == IdealAt(ideal, k) {
      assert k != c.key;
    }
  }

  lemma StoreStep(b: Backend, shards: seq<Shard>, ideal: Ideal, used: set<nat>, c: Call)
    requires StoreInv(b, shards, ideal, used) && MayDraw(c, used)
    ensures StoreInv(b, StoreAfter(b, shards, c), IdealAfter(ideal, c), used + c.Drawn())
  {
    forall i | 0 <= i < |shards|
      ensures ShardInv(b, StoreAfter(b, shards, c)[i], i, IdealAfter(ideal, c), used + c.Drawn())
    {
      if i == b.Home(c.key) {
        ShardStep(b, shards[i], i, ideal, used, c);
      } else {
        OtherShard(b, shards[i], i, ideal, used, c);
      }
    }
  }

  // ----- Runs -----

  function Empty(b: Backend): (shards: seq<Shard>)
    ensures |shards| == b.limits.Shards()
  {
    seq(b.limits.Shards(), i => Shard(map[], 0))
  }

  ghost function ShardsAfter(b: Backend, calls: seq<Call>): (shards: seq<Shard>)
    ensures |shards| == b.limits.Shards()
  {
    if calls == [] then Empty(b) else StoreAfter(b, ShardsAfter(b, calls[..|calls| - 1]), calls[|calls| - 1])
  }

  function IdealRun(calls: seq<Call>): Ideal {
    if calls == [] then map[] else IdealAfter(IdealRun(calls[..|calls| - 1]), calls[|calls| - 1])
  }

  function Stamps(calls: seq<Call>): set<nat> {
    if calls == [] then {} else Stamps(calls[..|calls| - 1]) + calls[|calls| - 1].Drawn()
  }

  /** Stamps come from one counter, so no two calls share one; they need not arrive in order. */
  predicate FairStamps(calls: seq<Call>) {
    calls == [] || (FairStamps(calls[..|calls| - 1]) && MayDraw(calls[|calls| - 1], Stamps(calls[..|calls| - 1])))
  }

  lemma {:induction false} EveryRunKeepsTheStore(b: Backend, calls: seq<Call>)
    requires FairStamps(calls)
    ensures StoreInv(b, ShardsAfter(b, calls), IdealRun(calls), Stamps(calls))
    decreases |calls|
  {
    if calls == [] {
      assert TotalBytes(map[]) == 0;
    } else {
      var front, last := calls[..|calls| - 1], calls[|calls| - 1];
      EveryRunKeepsTheStore(b, front);
      StoreStep(b, ShardsAfter(b, front), IdealRun(front), Stamps(front), last);
    }
  }

  /**
   After any calls at all, what a lookup returns is a subsequence of what a store that never evicts
   and never refuses would return, and no two of the variants answer the same selector.
   */
  lemma LookupRefinesTheIdeal(b: Backend, calls: seq<Call>, key: CacheKey)
    requires FairStamps(calls)
    ensures Subsequence(VariantsOf(b, ShardsAfter(b, calls), key), IdealAt(IdealRun(calls), key))
    ensures DistinctSelectors(VariantsOf(b, ShardsAfter(b, calls), key))
  {
    EveryRunKeepsTheStore(b, calls);
    var shard := ShardsAfter(b, calls)[b.Home(key)];
    assert ShardInv(b, shard, b.Home(key), IdealRun(calls), Stamps(calls));
    assert key in shard.records ==> RecordOk(b.sizes, key, shard.records[key]);
  }

  lemma {:induction false} IdealForgets(calls: seq<Call>, n: nat, key: CacheKey, e: CacheEntry)
    requires n <= |calls| && e !in IdealAt(IdealRun(calls[..n]), key)
    requires forall i :: n <= i < |calls| ==> !calls[i].Puts(key, e)
    ensures e !in IdealAt(IdealRun(calls), key)
    decreases |calls|
  {
    if n == |calls| {
      assert calls[..n] == calls;
    } else {
      var front, last := calls[..|calls| - 1], calls[|calls| - 1];
      assert front[..n] == calls[..n];
      IdealForgets(front, n, key, e);
      if last.Put? && last.key == key {
        StandingIsWithin(IdealAt(IdealRun(front), key), last.entry.selector, |IdealAt(IdealRun(front), key)|);
      }
    }
  }

  lemma {:induction false} StandingIsWithin(existing: seq<CacheEntry>, selector: Selector, n: nat)
    requires n <= |existing|
    ensures forall v :: v in Standing(existing, selector, n) ==> v in existing && v.selector != selector
  {
    if n > 0 { StandingIsWithin(existing, selector, n - 1); }
  }

  /**
   Once an entry is superseded or removed, no eviction, refusal or lookup brings it back: only
   putting that very entry again can.
   */
  lemma GoneStaysGone(b: Backend, calls: seq<Call>, n: nat, key: CacheKey, e: CacheEntry)
    requires FairStamps(calls) && n <= |calls|
    requires e !in IdealAt(IdealRun(calls[..n]), key)
    requires forall i :: n <= i < |calls| ==> !calls[i].Puts(key, e)
    ensures e !in VariantsOf(b, ShardsAfter(b, calls), key)
  {
    IdealForgets(calls, n, key, e);
    LookupRefinesTheIdeal(b, calls, key);
    SubsequenceIsWithin(VariantsOf(b, ShardsAfter(b, calls), key), IdealAt(IdealRun(calls), key));
  }

  /** A removal, or a put of another entry with the same selector, is what makes an entry gone. */
  lemma SupersededIsGone(calls: seq<Call>, key: CacheKey, e: CacheEntry)
    requires calls != []
    requires var last := calls[|calls| - 1];
             last == Remove(key) || (last.Put? && last.key == key && last.entry != e && last.entry.selector == e.selector)
    ensures e !in IdealAt(IdealRun(calls), key)
  {
    var before, last := IdealAt(IdealRun(calls[..|calls| - 1]), key), calls[|calls| - 1];
    if last.Put? { StandingIsWithin(before, last.entry.selector, |before|); }
  }

  /** A put merges or forgets, and forgets whole keys: it never leaves anything else behind. */
  lemma PutOnlyForgets(b: Backend, shards: seq<Shard>, key: CacheKey, e: CacheEntry, stamp: nat, other: CacheKey)
    requires |shards| == b.limits.Shards()
    ensures var left := VariantsOf(b, StoreAfter(b, shards, Put(key, e, stamp)), other);
            left == [] || left == if other == key then MergeVariants(VariantsOf(b, shards, key), e) else VariantsOf(b, shards, other)
  {
  }

  // ----- Recency -----

  /** The stamp of the last lookup or store of a key. */
  function LastTouch(calls: seq<Call>, key: CacheKey): nat {
    if calls == [] then 0
    else
      var last := calls[|calls| - 1];
      if last.key == key && !last.Remove? then last.stamp else LastTouch(calls[..|calls| - 1], key)
  }

  ghost predicate StampsAreTrue(shard: Shard, calls: seq<Call>) {
    forall k :: k in shard.records ==> shard.records[k].lastUsed == LastTouch(calls, k)
  }

  lemma StampStep(b: Backend, shard: Shard, calls: seq<Call>, c: Call)
    requires StampsAreTrue(shard, calls)
    ensures StampsAreTrue(ShardAfter(b, shard, c), calls + [c])
  {
    assert (calls + [c])[..|calls|] == calls;
  }

  lemma StampElsewhere(b: Backend, shard: Shard, i: nat, calls: seq<Call>, c: Call)
    requires StampsAreTrue(shard, calls) && AtHome(b, shard, i) && b.Home(c.key) != i
    ensures StampsAreTrue(shard, calls + [c])
  {
    assert (calls + [c])[..|calls|] == calls;
  }

  /** After any calls, every record held is stamped with its last use. */
  lemma {:induction false} EveryStampIsTrue(b: Backend, calls: seq<Call>, i: nat)
    requires FairStamps(calls) && i < b.limits.Shards()
    ensures StampsAreTrue(ShardsAfter(b, calls)[i], calls)
    decreases |calls|
  {
    if calls != [] {
      var front, last := calls[..|calls| - 1], calls[|calls| - 1];
      assert calls == front + [last];
      EveryStampIsTrue(b, front, i);
      EveryRunKeepsTheStore(b, front);
      assert ShardInv(b, ShardsAfter(b, front)[i], i, IdealRun(front), Stamps(front));
      if b.Home(last.key) == i {
        StampStep(b, ShardsAfter(b, front)[i], front, last);
      } else {
        StampElsewhere(b, ShardsAfter(b, front)[i], i, front, last);
      }
    }
  }

  /**
   Whatever a store pushes out was last used before everything of that shard that stays: an evicted key
   never outlives its recency, in any run.
   */
  lemma EvictionIsLeastRecentlyUsed(b: Backend, calls: seq<Call>, key: CacheKey, e: CacheEntry, stamp: nat,
                                    gone: CacheKey, kept: CacheKey)
    requires FairStamps(calls + [Put(key, e, stamp)])
    requires var i := b.Home(key);
             var before, after := ShardsAfter(b, calls)[i], ShardsAfter(b, calls + [Put(key, e, stamp)])[i];
             gone in before.records && gone !in after.records && gone != key && kept in after.records
    ensures LastTouch(calls + [Put(key, e, stamp)], gone) < LastTouch(calls + [Put(key, e, stamp)], kept)
  {
    var all, i := calls + [Put(key, e, stamp)], b.Home(key);
    LastCall(b, calls, Put(key, e, stamp));
    StampedShard(b, calls, i, stamp);
    EveryStampIsTrue(b, calls, i);
    EveryStampIsTrue(b, all, i);
    PutSeparates(b.sizes, b.limits, ShardsAfter(b, calls)[i], key, e, stamp, gone, kept);
  }

  lemma AfterLast(b: Backend, calls: seq<Call>, c: Call)
    ensures ShardsAfter(b, calls + [c]) == StoreAfter(b, ShardsAfter(b, calls), c)
    ensures FairStamps(calls + [c]) <==> FairStamps(calls) && MayDraw(c, Stamps(calls))
    ensures Stamps(calls + [c]) == Stamps(calls) + c.Drawn()
  {
    assert (calls + [c])[..|calls|] == calls;
  }

  lemma LastCall(b: Backend, calls: seq<Call>, c: Call)
    ensures FairStamps(calls + [c]) ==> FairStamps(calls) && MayDraw(c, Stamps(calls))
    ensures ShardsAfter(b, calls + [c])[b.Home(c.key)] == ShardAfter(b, ShardsAfter(b, calls)[b.Home(c.key)], c)
    ensures forall k :: k != c.key ==> LastTouch(calls + [c], k) == LastTouch(calls, k)
  {
    assert (calls + [c])[..|calls|] == calls;
  }

  lemma StampedShard(b: Backend, calls: seq<Call>, i: nat, stamp: nat)
    requires FairStamps(calls) && i < b.limits.Shards() && stamp >= 1 && stamp !in Stamps(calls)
    ensures ShardOk(b.sizes, b.limits, ShardsAfter(b, calls)[i]) && FreshStamp(ShardsAfter(b, calls)[i], stamp)
  {
    EveryRunKeepsTheStore(b, calls);
    assert ShardInv(b, ShardsAfter(b, calls)[i], i, IdealRun(calls), Stamps(calls));
  }

  // ----- The byte budget -----

  function BytesHeld(shards: seq<Shard>): nat {
    if shards == [] then 0 else BytesHeld(shards[..|shards| - 1]) + shards[|shards| - 1].bytes
  }

  lemma {:induction false} BytesHeldAtMost(shards: seq<Shard>, cap: nat)
    requires forall i :: 0 <= i < |shards| ==> shards[i].bytes <= cap
    ensures BytesHeld(shards) <= |shards| * cap
  {
    if shards != [] {
      BytesHeldAtMost(shards[..|shards| - 1], cap);
      OneMore(|shards| - 1, cap);
    }
  }

  lemma {:induction false} SumIsLarge(records: map<CacheKey, Record>, keys: set<CacheKey>)
    requires keys <= records.Keys && forall k :: k in keys ==> records[k].bytes >= 2
    ensures keys != {} ==> SumOver(records, keys) >= 2
  {
    if keys != {} {
      var k :| k in keys;
      SumSplits(records, keys, k);
    }
  }

  /** A cap of one byte holds nothing at all. */
  lemma TinyShardIsEmpty(b: Backend, shard: Shard)
    requires b.sizes.Sane() && ShardOk(b.sizes, b.limits, shard) && b.limits.PerShard() == 1
    ensures shard.bytes == 0
  {
    assert forall k :: k in shard.records ==> RecordOk(b.sizes, k, shard.records[k]);
    SumIsLarge(shard.records, shard.records.Keys);
  }

  /** All the shards together stay within the budget, for every budget and every shard count. */
  lemma BudgetHolds(b: Backend, shards: seq<Shard>, ideal: Ideal, used: set<nat>)
    requires b.sizes.Sane() && StoreInv(b, shards, ideal, used)
    ensures BytesHeld(shards) <= b.limits.maxBytes
  {
    var cap := b.limits.PerShard();
    assert forall i :: 0 <= i < |shards| ==> ShardInv(b, shards[i], i, ideal, used);
    if b.limits.maxBytes / b.limits.Shards() >= 1 {
      BytesHeldAtMost(shards, cap);
      assert |shards| * cap <= b.limits.maxBytes;
    } else {
      forall i | 0 <= i < |shards| ensures shards[i].bytes <= 0 {
        TinyShardIsEmpty(b, shards[i]);
      }
      BytesHeldAtMost(shards, 0);
    }
  }

  lemma EveryRunStaysInBudget(b: Backend, calls: seq<Call>)
    requires b.sizes.Sane() && FairStamps(calls)
    ensures BytesHeld(ShardsAfter(b, calls)) <= b.limits.maxBytes
  {
    EveryRunKeepsTheStore(b, calls);
    BudgetHolds(b, ShardsAfter(b, calls), IdealRun(calls), Stamps(calls));
  }

  // ----- A put that purges itself -----

  lemma FirstPutBytes(sizes: Sizes, shard: Shard, key: CacheKey, e: CacheEntry)
    requires key !in shard.records
    ensures MergeVariants(VariantsAt(shard, key), e) == [e]
    ensures IncomingBytes(sizes, shard, key, e) == sizes.key(key) + sizes.entry(e)
  {
    assert Standing([], e.selector, 0) == [] && [] + [e] == [e] && [e][..0] == [];
    assert VariantBytes(sizes, [e]) == VariantBytes(sizes, []) + sizes.entry(e);
  }

  /** One record alone in an empty store, if it fits. */
  lemma FirstPut(b: Backend, key: CacheKey, e: CacheEntry, stamp: nat)
    requires stamp >= 1 && b.sizes.key(key) + b.sizes.entry(e) <= b.limits.PerShard()
    ensures var bytes := b.sizes.key(key) + b.sizes.entry(e);
            ShardsAfter(b, [Put(key, e, stamp)])[b.Home(key)] == Shard(map[key := Record([e], bytes, stamp)], bytes)
  {
    var calls := [Put(key, e, stamp)];
    var empty := Shard(map[], 0);
    assert calls[..0] == [] && Empty(b)[b.Home(key)] == empty;
    FirstPutBytes(b.sizes, empty, key, e);
  }

  /** The newest record goes with its own purge when it overflows the shard and does not fit the target. */
  lemma NewestIsPurged(sizes: Sizes, limits: MemoryLimits, shard: Shard, key: CacheKey, e: CacheEntry, stamp: nat)
    requires ShardOk(sizes, limits, shard) && key !in shard.records
    requires forall k :: k in shard.records ==> shard.records[k].lastUsed < stamp
    requires stamp >= 1 && sizes.key(key) + sizes.entry(e) > limits.PurgeTarget()
    requires shard.bytes + sizes.key(key) + sizes.entry(e) > limits.PerShard()
    ensures key !in CacheStore.Put(sizes, limits, shard, key, e, stamp).records
  {
    FirstPutBytes(sizes, shard, key, e);
    JustPutSurvivesIff(sizes, limits, shard, key, e, stamp);
  }

  lemma TwoCalls(b: Backend, c: Call, d: Call)
    ensures ShardsAfter(b, [c, d]) == StoreAfter(b, ShardsAfter(b, [c]), d)
    ensures FairStamps([c, d]) <==> MayDraw(c, {}) && MayDraw(d, c.Drawn())
    ensures FairStamps([c]) <==> MayDraw(c, {})
  {
    assert [] + [c] == [c] && [c] + [d] == [c, d];
    AfterLast(b, [], c);
    AfterLast(b, [c], d);
  }

  /**
   Two puts into one shard of an empty store, the second too large for the purge target and the two
   together too large for the shard: the second put's own purge drops it.
   */
  lemma SecondPutPurgesItself(b: Backend, key: CacheKey, other: CacheKey, d: CacheEntry, e: CacheEntry)
    requires key != other && b.Home(key) == b.Home(other)
    requires var first, second := b.sizes.key(other) + b.sizes.entry(d), b.sizes.key(key) + b.sizes.entry(e);
             first <= b.limits.PerShard() && b.limits.PurgeTarget() < second <= b.limits.PerShard() < first + second
    ensures var calls := [Put(other, d, 1), Put(key, e, 2)];
            FairStamps(calls) && key !in ShardsAfter(b, calls)[b.Home(key)].records
  {
    var one := [Put(other, d, 1)];
    TwoCalls(b, Put(other, d, 1), Put(key, e, 2));
    FirstPut(b, other, d, 1);
    EveryRunKeepsTheStore(b, one);
    var shard := ShardsAfter(b, one)[b.Home(key)];
    assert ShardInv(b, shard, b.Home(key), IdealRun(one), Stamps(one));
    NewestIsPurged(b.sizes, b.limits, shard, key, e, 2);
  }

  /** Such a run, with sizes written out. */
  lemma JustPutCanBePurged(key: CacheKey, other: CacheKey, e: CacheEntry) returns (b: Backend, calls: seq<Call>)
    requires key != other
    ensures b.sizes.Sane() && FairStamps(calls) && |calls| == 2 && calls[1].Puts(key, e)
    ensures b.sizes.key(key) + b.sizes.entry(e) <= b.limits.PerShard()
    ensures key !in ShardsAfter(b, calls)[b.Home(key)].records
  {
    b := Backend(Sizes(k => 2, x => 6), MemoryLimits(8, 1), k => 0);
    calls := [Put(other, e, 1), Put(key, e, 2)];
    SecondPutPurgesItself(b, key, other, e, e);
  }
}
