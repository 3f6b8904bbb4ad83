/** The in-memory store itself: locked shards, one counter, and a purge in one pass over the ages. */
module MemoryStores {
  import opened Options
  import opened CacheEntries
  import opened CacheStore
  import opened CacheStoreRuns
  import opened Lowest

  // ----- Ages -----

  /** Every key once, least recently used first. */
  ghost predicate ByAge(records: map<CacheKey, Record>, order: seq<CacheKey>) {
    && (forall k :: k in records <==> k in order)
    && forall i, j :: 0 <= i < j < |order| ==> records[order[i]].lastUsed < records[order[j]].lastUsed
  }

  function From(order: seq<CacheKey>, i: nat): set<CacheKey>
    requires i <= |order|
  {
    set j | i <= j < |order| :: order[j]
  }

  method SortByAge(records: map<CacheKey, Record>) returns (order: seq<CacheKey>)
    requires DistinctStamps(records)
    ensures ByAge(records, order)
  {
    order := [];
    var pending := records.Keys;
    while pending != {}
      invariant pending <= records.Keys
      invariant forall k :: k in records <==> k in order || k in pending
      invariant forall i, j :: 0 <= i < j < |order| ==> records[order[i]].lastUsed < records[order[j]].lastUsed
      invariant forall i, k :: 0 <= i < |order| && k in pending ==> records[order[i]].lastUsed < records[k].lastUsed
      decreases pending
    {
      ghost var first := EarliestExists(records, pending);
      var oldest :| oldest in pending && forall k :: k in pending ==> records[oldest].lastUsed <= records[k].lastUsed;
      order, pending := order + [oldest], pending - {oldest};
    }
  }

  lemma FromSplits(order: seq<CacheKey>, records: map<CacheKey, Record>, i: nat)
    requires ByAge(records, order) && i < |order|
    ensures From(order, i) <= records.Keys && From(order, i + 1) <= records.Keys
    ensures SumOver(records, From(order, i)) == records[order[i]].bytes + SumOver(records, From(order, i + 1))
  {
    var here := From(order, i);
    assert order[i] in here;
    assert here <= records.Keys;
    SumSplits(records, here, order[i]);
    assert here - {order[i]} == From(order, i + 1) by {
      forall j | i < j < |order| ensures order[j] != order[i] {
        assert records[order[i]].lastUsed < records[order[j]].lastUsed;
      }
    }
  }

  lemma UsedSinceIsFrom(records: map<CacheKey, Record>, order: seq<CacheKey>, i: nat)
    requires ByAge(records, order) && i < |order|
    ensures UsedSince(records, order[i]) == From(order, i)
  {
    forall k | k in UsedSince(records, order[i]) ensures k in From(order, i) {
      assert k in order;
      var j :| 0 <= j < |order| && order[j] == k;
    }
    forall k | k in From(order, i) ensures k in UsedSince(records, order[i]) {
      var j :| i <= j < |order| && order[j] == k;
      assert k in order;
    }
  }

  /** Stopping at the first age from which the rest fits keeps exactly what should be kept. */
  lemma CutIsExact(records: map<CacheKey, Record>, order: seq<CacheKey>, i: nat, target: nat)
    requires ByAge(records, order) && i <= |order|
    requires SumOver(records, From(order, i)) <= target
    requires i > 0 ==> SumOver(records, From(order, i - 1)) > target
    ensures Kept(records, target) == From(order, i)
  {
    var kept := Kept(records, target);
    forall j | 0 <= j < |order| ensures order[j] in kept <==> j >= i {
      assert order[j] in order;
      UsedSinceIsFrom(records, order, j);
      if j >= i {
        SumGrows(records, From(order, j), From(order, i));
      } else {
        SumGrows(records, From(order, i - 1), From(order, j));
      }
    }
    forall k | k in kept ensures k in From(order, i) {
      assert k in order;
      var j :| 0 <= j < |order| && order[j] == k;
    }
  }

  lemma AboveCutoff(records: map<CacheKey, Record>, order: seq<CacheKey>, i: nat, cutoff: nat, k: CacheKey)
    requires ByAge(records, order) && i <= |order| && k in records
    requires forall j :: j in records ==> records[j].lastUsed >= 1
    requires cutoff == if i == 0 then 0 else records[order[i - 1]].lastUsed
    ensures records[k].lastUsed > cutoff <==> k in From(order, i)
  {
    var j :| 0 <= j < |order| && order[j] == k;
    assert j < i - 1 ==> records[order[j]].lastUsed < records[order[i - 1]].lastUsed;
    assert 0 <= i - 1 < j ==> records[order[i - 1]].lastUsed < records[order[j]].lastUsed;
    assert forall m :: 0 <= m < |order| && m != j ==> order[m] != k;
  }

  method SumBytes(records: map<CacheKey, Record>) returns (bytes: nat)
    ensures bytes == TotalBytes(records)
  {
    bytes := 0;
    var pending := records.Keys;
    while pending != {}
      invariant pending <= records.Keys && bytes + SumOver(records, pending) == TotalBytes(records)
      decreases pending
    {
      var k :| k in pending;
      SumSplits(records, pending, k);
      bytes, pending := bytes + records[k].bytes, pending - {k};
    }
  }

  /** The age below which everything must go, found by walking up from the oldest. */
  method FindCutoff(shard: Shard, target: nat, order: seq<CacheKey>) returns (cutoff: nat)
    requires ByAge(shard.records, order) && shard.bytes == TotalBytes(shard.records)
    requires forall k :: k in shard.records ==> shard.records[k].lastUsed >= 1
    ensures forall k :: k in shard.records ==> (shard.records[k].lastUsed > cutoff <==> k in Kept(shard.records, target))
  {
    ghost var records := shard.records;
    var remaining: nat := shard.bytes;
    cutoff := 0;
    var i: nat := 0;
    CutStart(records, order, target);
    while i < |order| && remaining > target
      invariant CutSoFar(records, order, i, remaining, cutoff, target)
    {
      CutOneMore(records, order, i, remaining, cutoff, target);
      remaining := remaining - MinNat(shard.records[order[i]].bytes, remaining);
      cutoff := shard.records[order[i]].lastUsed;
      i := i + 1;
    }
    CutoffKeeps(records, order, i, remaining, cutoff, target);
  }

  /** Everything before `i` is marked to go, and it had to be. */
  ghost predicate CutSoFar(records: map<CacheKey, Record>, order: seq<CacheKey>, i: nat, remaining: nat, cutoff: nat,
                           target: nat)
    requires forall k :: k in order ==> k in records
  {
    && i <= |order|
    && remaining == SumOver(records, From(order, i))
    && cutoff == (if i == 0 then 0 else records[order[i - 1]].lastUsed)
    && (i > 0 ==> SumOver(records, From(order, i - 1)) > target)
  }

  lemma CutStart(records: map<CacheKey, Record>, order: seq<CacheKey>, target: nat)
    requires ByAge(records, order)
    ensures CutSoFar(records, order, 0, TotalBytes(records), 0, target)
  {
    assert From(order, 0) == records.Keys;
  }

  lemma CutOneMore(records: map<CacheKey, Record>, order: seq<CacheKey>, i: nat, remaining: nat, cutoff: nat,
                   target: nat)
    requires ByAge(records, order) && i < |order| && CutSoFar(records, order, i, remaining, cutoff, target) && remaining > target
    ensures order[i] in records
    ensures CutSoFar(records, order, i + 1, remaining - MinNat(records[order[i]].bytes, remaining), records[order[i]].lastUsed, target)
  {
    FromSplits(order, records, i);
    assert order[i] in order;
  }

  lemma CutoffKeeps(records: map<CacheKey, Record>, order: seq<CacheKey>, i: nat, remaining: nat, cutoff: nat,
                    target: nat)
    requires ByAge(records, order) && CutSoFar(records, order, i, remaining, cutoff, target)
    requires forall k :: k in records ==> records[k].lastUsed >= 1
    requires i == |order| || remaining <= target
    ensures forall k :: k in records ==> (records[k].lastUsed > cutoff <==> k in Kept(records, target))
  {
    assert i == |order| ==> From(order, i) == {};
    CutIsExact(records, order, i, target);
    forall k | k in records ensures records[k].lastUsed > cutoff <==> k in Kept(records, target) {
      AboveCutoff(records, order, i, cutoff, k);
    }
  }

  class MemoryStore {
    const backend: Backend
    var shards: seq<Shard>
    var tick: nat
    var evictions: nat
    var purgeScans: nat
    /** Every call so far. */
    ghost var calls: seq<Call>

    /** The shards are what the calls made of them, and every stamp drawn is behind the counter. */
    ghost predicate Valid()
      reads this
    {
      && FairStamps(calls)
      && shards == ShardsAfter(backend, calls)
      && forall s :: s in Stamps(calls) ==> s <= tick
    }

    constructor (backend: Backend)
      ensures Valid() && this.backend == backend && calls == [] && evictions == 0 && purgeScans == 0
    {
      this.backend := backend;
      shards := Empty(backend);
      tick, evictions, purgeScans, calls := 0, 0, 0, [];
    }

    method NextTick() returns (stamp: nat)
      modifies this`tick
      ensures stamp == tick == old(tick) + 1
    {
      tick := tick + 1;
      stamp := tick;
    }

    /** Purges an overflowing shard down to the target, and counts what that cost. */
    method Purge(shard: Shard) returns (r: Shard)
      requires shard.bytes == TotalBytes(shard.records) && DistinctStamps(shard.records)
      requires forall k :: k in shard.records ==> shard.records[k].lastUsed >= 1
      modifies this`evictions, this`purgeScans
      ensures r == Purged(backend.limits, shard)
      ensures evictions == old(evictions) + (|shard.records| - |r.records|)
      ensures purgeScans == old(purgeScans) + if shard.bytes <= backend.limits.PerShard() then 0 else |shard.records|
    {
      if shard.bytes <= backend.limits.PerShard() { return shard; }
      var order := SortByAge(shard.records);
      OrderCounts(shard.records, order);
      purgeScans := purgeScans + |order|;
      var cutoff := FindCutoff(shard, backend.limits.PurgeTarget(), order);
      var records := map k | k in shard.records && shard.records[k].lastUsed > cutoff :: shard.records[k];
      assert records == Restricted(shard.records, Kept(shard.records, backend.limits.PurgeTarget()));
      FewerRecords(shard.records, records);
      var bytes := SumBytes(records);
      evictions := evictions + (|shard.records| - |records|);
      r := Shard(records, bytes);
    }

    method Get(key: CacheKey) returns (variants: seq<CacheEntry>)
      requires Valid()
      modifies this`shards, this`tick, this`calls
      ensures Valid() && calls == old(calls) + [CacheStoreRuns.Get(key, old(tick) + 1)]
      ensures variants == VariantsOf(backend, old(shards), key)
      ensures forall k :: VariantsOf(backend, shards, k) == VariantsOf(backend, old(shards), k)
    {
      var stamp := NextTick();
      var i := backend.Home(key);
      variants := VariantsAt(shards[i], key);
      shards := shards[i := Touched(shards[i], key, stamp)];
      Record(CacheStoreRuns.Get(key, stamp));
    }

    /** Stores an entry, replacing the variant it supersedes. */
    method Put(key: CacheKey, e: CacheEntry)
      requires Valid()
      modifies this
      ensures Valid() && calls == old(calls) + [CacheStoreRuns.Put(key, e, old(tick) + 1)]
    {
      var stamp := NextTick();
      var i := backend.Home(key);
      StampedShard(backend, calls, i, stamp);
      var shard := PutIn(shards[i], key, e, stamp);
      shards := shards[i := shard];
      Record(CacheStoreRuns.Put(key, e, stamp));
    }

    method PutIn(shard: Shard, key: CacheKey, e: CacheEntry, stamp: nat) returns (r: Shard)
      requires ShardOk(backend.sizes, backend.limits, shard) && FreshStamp(shard, stamp)
      modifies this`evictions, this`purgeScans
      ensures r == CacheStore.Put(backend.sizes, backend.limits, shard, key, e, stamp)
    {
      var merged := MergeVariants(VariantsAt(shard, key), e);
      var bytes := RecordBytes(backend.sizes, key, merged);
      if bytes > backend.limits.PerShard() {
        r := Removed(shard, key);
      } else {
        var previous := BytesAt(shard, key);
        var grown := Shard(shard.records[key := CacheStore.Record(merged, bytes, stamp)], shard.bytes + bytes - MinNat(previous, shard.bytes));
        InsertedRecords(backend.sizes, backend.limits, shard, key, e, stamp);
        InsertedCounts(backend.sizes, backend.limits, shard, key, e, stamp);
        r := Purge(grown);
      }
    }

    method Remove(key: CacheKey)
      requires Valid()
      modifies this`shards, this`calls
      ensures Valid() && calls == old(calls) + [CacheStoreRuns.Remove(key)]
      ensures forall k :: VariantsOf(backend, shards, k) == if k == key then [] else VariantsOf(backend, old(shards), k)
    {
      var i := backend.Home(key);
      shards := shards[i := Removed(shards[i], key)];
      Record(CacheStoreRuns.Remove(key));
    }

    ghost method Record(c: Call)
      requires FairStamps(calls) && MayDraw(c, Stamps(calls)) && shards == StoreAfter(backend, ShardsAfter(backend, calls), c)
      requires forall s :: s in Stamps(calls) + c.Drawn() ==> s <= tick
      modifies this`calls
      ensures Valid() && calls == old(calls) + [c]
    {
      ghost var more := calls + [c];
      assert more[..|more| - 1] == calls;
      calls := more;
    }
  }

  lemma OrderCounts(records: map<CacheKey, Record>, order: seq<CacheKey>)
    requires ByAge(records, order)
    ensures |order| == |records|
  {
    DistinctCount(order);
    assert Elements(order) == records.Keys;
  }

  lemma FewerRecords(records: map<CacheKey, Record>, fewer: map<CacheKey, Record>)
    requires fewer.Keys <= records.Keys
    ensures |fewer| <= |records|
  {
    assert |records.Keys| == |fewer.Keys| + |records.Keys - fewer.Keys|;
  }
}
