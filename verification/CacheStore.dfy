/** A byte-bounded, sharded, least-recently-used store of cache entries, on values. */
module CacheStore {
  import opened Options
  import opened CacheEntries

  datatype MemoryLimits = MemoryLimits(maxBytes: nat, shards: nat)
  {
    function Shards(): (n: nat)
      ensures n >= 1
    {
      MaxNat(shards, 1)
    }

    function PerShard(): (cap: nat)
      ensures cap >= 1
    {
      MaxNat(maxBytes / Shards(), 1)
    }

    /** One eighth below the cap, so that purges are batched. */
    function PurgeTarget(): (target: nat)
      ensures target <= PerShard()
    {
      PerShard() - PerShard() / 8
    }
  }

  /** The store's own estimate of how much memory a key and an entry occupy. */
  datatype Sizes = Sizes(key: CacheKey -> nat, entry: CacheEntry -> nat)
  {
    /** A key is a structure holding a method and a string, so it never counts for less than two bytes. */
    ghost predicate Sane() {
      forall k: CacheKey :: key(k) >= 2
    }
  }

  datatype Record = Record(variants: seq<CacheEntry>, bytes: nat, lastUsed: nat)

  datatype Shard = Shard(records: map<CacheKey, Record>, bytes: nat)

  // ----- Variants -----

  /** The variants an incoming entry leaves standing, from the first `n`. */
  function Standing(existing: seq<CacheEntry>, selector: Selector, n: nat): seq<CacheEntry>
    requires n <= |existing|
  {
    if n == 0 then []
    else
      var front := Standing(existing, selector, n - 1);
      if existing[n - 1].selector != selector then front + [existing[n - 1]] else front
  }

  /** The entry replaces the variant it supersedes, and is appended. */
  function MergeVariants(existing: seq<CacheEntry>, e: CacheEntry): seq<CacheEntry> {
    Standing(existing, e.selector, |existing|) + [e]
  }

  predicate DistinctSelectors(variants: seq<CacheEntry>) {
    forall i, j :: 0 <= i < j < |variants| ==> variants[i].selector != variants[j].selector
  }

  function VariantBytes(sizes: Sizes, variants: seq<CacheEntry>): nat {
    if variants == [] then 0
    else VariantBytes(sizes, variants[..|variants| - 1]) + sizes.entry(variants[|variants| - 1])
  }

  function RecordBytes(sizes: Sizes, key: CacheKey, variants: seq<CacheEntry>): nat {
    sizes.key(key) + VariantBytes(sizes, variants)
  }

  // ----- Counting bytes -----

  ghost function SumOver(records: map<CacheKey, Record>, keys: set<CacheKey>): nat
    requires keys <= records.Keys
    decreases |keys|
  {
    if keys == {} then 0
    else
      var k :| k in keys;
      records[k].bytes + SumOver(records, keys - {k})
  }

  ghost function TotalBytes(records: map<CacheKey, Record>): nat {
    SumOver(records, records.Keys)
  }

  lemma {:induction false} SumSplits(records: map<CacheKey, Record>, keys: set<CacheKey>, k: CacheKey)
    requires keys <= records.Keys && k in keys
    ensures SumOver(records, keys) == records[k].bytes + SumOver(records, keys - {k})
    decreases |keys|
  {
    var chosen :| chosen in keys && SumOver(records, keys) == records[chosen].bytes + SumOver(records, keys - {chosen});
    if chosen != k {
      SumSplits(records, keys - {chosen}, k);
      SumSplits(records, keys - {k}, chosen);
      assert keys - {chosen} - {k} == keys - {k} - {chosen};
    }
  }

  lemma {:induction false} SumGrows(records: map<CacheKey, Record>, a: set<CacheKey>, b: set<CacheKey>)
    requires a <= b <= records.Keys
    ensures SumOver(records, a) <= SumOver(records, b)
    decreases |b|
  {
    if a != b {
      var k :| k in b && k !in a;
      SumSplits(records, b, k);
      SumGrows(records, a, b - {k});
    }
  }

  /** The sum looks at the bytes of the keys counted and at nothing else. */
  lemma {:induction false} SumFrame(before: map<CacheKey, Record>, after: map<CacheKey, Record>, keys: set<CacheKey>)
    requires keys <= before.Keys && keys <= after.Keys
    requires forall k :: k in keys ==> before[k].bytes == after[k].bytes
    ensures SumOver(before, keys) == SumOver(after, keys)
    decreases |keys|
  {
    if keys != {} {
      var k :| k in keys;
      SumSplits(before, keys, k);
      SumSplits(after, keys, k);
      SumFrame(before, after, keys - {k});
    }
  }

  lemma TotalWithout(records: map<CacheKey, Record>, key: CacheKey)
    requires key in records
    ensures TotalBytes(records - {key}) == TotalBytes(records) - records[key].bytes
    ensures TotalBytes(records) >= records[key].bytes
  {
    SumSplits(records, records.Keys, key);
    var rest := records - {key};
    assert rest.Keys == records.Keys - {key};
    SumFrame(records, rest, rest.Keys);
  }

  lemma TotalWith(records: map<CacheKey, Record>, key: CacheKey, r: Record)
    requires key !in records
    ensures TotalBytes(records[key := r]) == TotalBytes(records) + r.bytes
  {
    var more := records[key := r];
    TotalWithout(more, key);
    assert more - {key} == records;
  }

  lemma TotalAfterPut(records: map<CacheKey, Record>, key: CacheKey, r: Record)
    ensures key in records ==> TotalBytes(records) >= records[key].bytes
    ensures TotalBytes(records[key := r]) == TotalBytes(records) + r.bytes - if key in records then records[key].bytes else 0
  {
    var rest := records - {key};
    if key in records {
      TotalWithout(records, key);
    } else {
      assert rest == records;
    }
    TotalWith(rest, key, r);
    assert rest[key := r] == records[key := r];
  }

  // ----- Purging -----

  ghost predicate DistinctStamps(records: map<CacheKey, Record>) {
    forall j, k :: j in records && k in records && records[j].lastUsed == records[k].lastUsed ==> j == k
  }

  /** The records used no earlier than `k`. */
  function UsedSince(records: map<CacheKey, Record>, k: CacheKey): set<CacheKey>
    requires k in records
  {
    set j | j in records && records[j].lastUsed >= records[k].lastUsed
  }

  /** A record stays when it and everything used since fit the target. */
  ghost function Kept(records: map<CacheKey, Record>, target: nat): set<CacheKey> {
    set k | k in records && SumOver(records, UsedSince(records, k)) <= target
  }

  function Restricted(records: map<CacheKey, Record>, keys: set<CacheKey>): map<CacheKey, Record> {
    map k | k in records && k in keys :: records[k]
  }

  ghost function Purged(limits: MemoryLimits, shard: Shard): Shard {
    if shard.bytes <= limits.PerShard() then shard
    else
      var records := Restricted(shard.records, Kept(shard.records, limits.PurgeTarget()));
      Shard(records, TotalBytes(records))
  }

  /** A set of keys that no more recently used key is missing from. */
  ghost predicate IsRecentRun(records: map<CacheKey, Record>, run: set<CacheKey>) {
    && run <= records.Keys
    && forall j, k :: k in run && j in records && records[j].lastUsed > records[k].lastUsed ==> j in run
  }

  lemma {:induction false} EarliestExists(records: map<CacheKey, Record>, keys: set<CacheKey>) returns (first: CacheKey)
    requires keys <= records.Keys && keys != {}
    ensures first in keys && forall k :: k in keys ==> records[first].lastUsed <= records[k].lastUsed
    decreases |keys|
  {
    var k :| k in keys;
    if keys == {k} {
      first := k;
    } else {
      var rest := EarliestExists(records, keys - {k});
      first := if records[rest].lastUsed <= records[k].lastUsed then rest else k;
      assert forall j :: j in keys ==> j == k || j in keys - {k};
    }
  }

  lemma RunFromItsEarliest(records: map<CacheKey, Record>, run: set<CacheKey>, first: CacheKey)
    requires DistinctStamps(records) && IsRecentRun(records, run) && first in run
    requires forall k :: k in run ==> records[first].lastUsed <= records[k].lastUsed
    ensures run == UsedSince(records, first)
  {
    forall j | j in UsedSince(records, first) ensures j in run {
      assert records[j].lastUsed == records[first].lastUsed ==> j == first;
    }
  }

  /**
   What a purge keeps is the longest most-recently-used run that fits the target: it is such a run,
   it fits, and it contains every other such run that fits.
   */
  lemma KeptIsTheLongestRecentRun(records: map<CacheKey, Record>, target: nat, run: set<CacheKey>)
    requires DistinctStamps(records)
    ensures var kept := Kept(records, target);
            IsRecentRun(records, kept) && SumOver(records, kept) <= target
    ensures IsRecentRun(records, run) && SumOver(records, run) <= target ==> run <= Kept(records, target)
  {
    KeptIsARecentRun(records, target);
    if IsRecentRun(records, run) && SumOver(records, run) <= target {
      forall k | k in run ensures k in Kept(records, target) {
        assert UsedSince(records, k) <= run by {
          forall j | j in UsedSince(records, k) ensures j in run {
            assert records[j].lastUsed == records[k].lastUsed ==> j == k;
          }
        }
        SumGrows(records, UsedSince(records, k), run);
      }
    }
  }

  lemma KeptIsARecentRun(records: map<CacheKey, Record>, target: nat)
    requires DistinctStamps(records)
    ensures IsRecentRun(records, Kept(records, target)) && SumOver(records, Kept(records, target)) <= target
  {
    var kept := Kept(records, target);
    forall j, k | k in kept && j in records && records[j].lastUsed > records[k].lastUsed ensures j in kept {
      SumGrows(records, UsedSince(records, j), UsedSince(records, k));
    }
    if kept != {} {
      var first := EarliestExists(records, kept);
      RunFromItsEarliest(records, kept, first);
    }
  }

  lemma RestrictedTotal(records: map<CacheKey, Record>, keys: set<CacheKey>)
    requires keys <= records.Keys
    ensures TotalBytes(Restricted(records, keys)) == SumOver(records, keys)
  {
    var r := Restricted(records, keys);
    assert r.Keys == keys;
    SumFrame(records, r, keys);
  }

  // ----- One shard's operations -----

  /** What is true of a shard between calls. */
  ghost predicate ShardOk(sizes: Sizes, limits: MemoryLimits, shard: Shard) {
    && shard.bytes == TotalBytes(shard.records)
    && shard.bytes <= limits.PerShard()
    && DistinctStamps(shard.records)
    && RecordsOk(sizes, shard.records)
  }

  ghost predicate RecordsOk(sizes: Sizes, records: map<CacheKey, Record>) {
    forall k :: k in records ==> RecordOk(sizes, k, records[k])
  }

  predicate RecordOk(sizes: Sizes, key: CacheKey, r: Record) {
    r.lastUsed >= 1 && DistinctSelectors(r.variants) && r.bytes == RecordBytes(sizes, key, r.variants)
  }

  function VariantsAt(shard: Shard, key: CacheKey): seq<CacheEntry> {
    if key in shard.records then shard.records[key].variants else []
  }

  function BytesAt(shard: Shard, key: CacheKey): nat {
    if key in shard.records then shard.records[key].bytes else 0
  }

  function Touched(shard: Shard, key: CacheKey, stamp: nat): Shard {
    if key in shard.records then shard.(records := shard.records[key := shard.records[key].(lastUsed := stamp)]) else shard
  }

  function Removed(shard: Shard, key: CacheKey): Shard {
    Shard(shard.records - {key}, shard.bytes - MinNat(BytesAt(shard, key), shard.bytes))
  }

  function Inserted(sizes: Sizes, shard: Shard, key: CacheKey, e: CacheEntry, stamp: nat): Shard {
    var merged := MergeVariants(VariantsAt(shard, key), e);
    var bytes := RecordBytes(sizes, key, merged);
    Shard(shard.records[key := Record(merged, bytes, stamp)], shard.bytes + bytes - MinNat(BytesAt(shard, key), shard.bytes))
  }

  function IncomingBytes(sizes: Sizes, shard: Shard, key: CacheKey, e: CacheEntry): nat {
    RecordBytes(sizes, key, MergeVariants(VariantsAt(shard, key), e))
  }

  /** A record too large for the whole shard is refused, and what it supersedes is dropped. */
  ghost function Put(sizes: Sizes, limits: MemoryLimits, shard: Shard, key: CacheKey, e: CacheEntry, stamp: nat): Shard {
    if IncomingBytes(sizes, shard, key, e) > limits.PerShard() then Removed(shard, key)
    else Purged(limits, Inserted(sizes, shard, key, e, stamp))
  }

  ghost predicate FreshStamp(shard: Shard, stamp: nat) {
    stamp >= 1 && forall k :: k in shard.records ==> shard.records[k].lastUsed != stamp
  }

  lemma TouchedIsOk(sizes: Sizes, limits: MemoryLimits, shard: Shard, key: CacheKey, stamp: nat)
    requires ShardOk(sizes, limits, shard) && FreshStamp(shard, stamp)
    ensures ShardOk(sizes, limits, Touched(shard, key, stamp))
  {
    if key in shard.records {
      var after := Touched(shard, key, stamp).records;
      assert after.Keys == shard.records.Keys;
      SumFrame(shard.records, after, after.Keys);
    }
  }

  lemma RemovedIsOk(sizes: Sizes, limits: MemoryLimits, shard: Shard, key: CacheKey)
    requires ShardOk(sizes, limits, shard)
    ensures ShardOk(sizes, limits, Removed(shard, key))
  {
    if key in shard.records {
      TotalWithout(shard.records, key);
    } else {
      assert shard.records - {key} == shard.records;
    }
  }

  lemma {:induction false} StandingIsApart(existing: seq<CacheEntry>, selector: Selector, n: nat)
    requires n <= |existing| && DistinctSelectors(existing)
    ensures forall v :: v in Standing(existing, selector, n) ==> v.selector != selector && v in existing[..n]
    ensures DistinctSelectors(Standing(existing, selector, n))
  {
    if n > 0 {
      StandingIsApart(existing, selector, n - 1);
      assert existing[..n] == existing[..n - 1] + [existing[n - 1]];
      var front := Standing(existing, selector, n - 1);
      forall i | 0 <= i < |front| ensures front[i].selector != existing[n - 1].selector {
        assert front[i] in existing[..n - 1];
      }
    }
  }

  lemma MergedIsApart(existing: seq<CacheEntry>, e: CacheEntry)
    requires DistinctSelectors(existing)
    ensures DistinctSelectors(MergeVariants(existing, e))
    ensures forall v :: v in MergeVariants(existing, e) ==> v == e || (v in existing && v.selector != e.selector)
  {
    StandingIsApart(existing, e.selector, |existing|);
    assert existing[..|existing|] == existing;
    var front := Standing(existing, e.selector, |existing|);
    forall i | 0 <= i < |front| ensures front[i].selector != e.selector { assert front[i] in front; }
  }

  lemma InsertedRecords(sizes: Sizes, limits: MemoryLimits, shard: Shard, key: CacheKey, e: CacheEntry, stamp: nat)
    requires ShardOk(sizes, limits, shard) && FreshStamp(shard, stamp)
    ensures var after := Inserted(sizes, shard, key, e, stamp);
            DistinctStamps(after.records) && RecordsOk(sizes, after.records)
  {
    assert key in shard.records ==> RecordOk(sizes, key, shard.records[key]);
    MergedIsApart(VariantsAt(shard, key), e);
  }

  /** Inserting keeps the running total true, whatever the key held before. */
  lemma InsertedCounts(sizes: Sizes, limits: MemoryLimits, shard: Shard, key: CacheKey, e: CacheEntry, stamp: nat)
    requires ShardOk(sizes, limits, shard)
    ensures Inserted(sizes, shard, key, e, stamp).bytes == TotalBytes(Inserted(sizes, shard, key, e, stamp).records)
  {
    TotalAfterPut(shard.records, key, Inserted(sizes, shard, key, e, stamp).records[key]);
  }

  /** A purge leaves at most seven eighths of the shard's share, and every most-recently-used run that fits that. */
  lemma PurgeLeavesSevenEighths(limits: MemoryLimits, shard: Shard, run: set<CacheKey>)
    requires shard.bytes > limits.PerShard() && DistinctStamps(shard.records)
    ensures var share := MaxNat(limits.maxBytes / MaxNat(limits.shards, 1), 1);
            var after := Purged(limits, shard);
            && after.bytes == TotalBytes(after.records) <= share - share / 8
            && (IsRecentRun(shard.records, run) && SumOver(shard.records, run) <= share - share / 8 ==> run <= after.records.Keys)
            && forall k :: k in after.records ==> k in shard.records && after.records[k] == shard.records[k]
  {
    var target := limits.PurgeTarget();
    KeptIsTheLongestRecentRun(shard.records, target, run);
    RestrictedTotal(shard.records, Kept(shard.records, target));
  }

  lemma PurgedIsOk(sizes: Sizes, limits: MemoryLimits, shard: Shard)
    requires shard.bytes == TotalBytes(shard.records) && DistinctStamps(shard.records) && RecordsOk(sizes, shard.records)
    ensures ShardOk(sizes, limits, Purged(limits, shard))
  {
    if shard.bytes > limits.PerShard() {
      var kept := Kept(shard.records, limits.PurgeTarget());
      KeptIsARecentRun(shard.records, limits.PurgeTarget());
      RestrictedTotal(shard.records, kept);
    }
  }

  /** Whatever a purge drops was used before whatever it keeps. */
  lemma PurgeSeparates(limits: MemoryLimits, shard: Shard, gone: CacheKey, kept: CacheKey)
    requires DistinctStamps(shard.records) && gone in shard.records
    requires gone !in Purged(limits, shard).records && kept in Purged(limits, shard).records
    ensures kept in shard.records && Purged(limits, shard).records[kept] == shard.records[kept]
    ensures shard.records[gone].lastUsed < shard.records[kept].lastUsed
  {
    KeptIsARecentRun(shard.records, limits.PurgeTarget());
  }

  lemma PutSeparates(sizes: Sizes, limits: MemoryLimits, shard: Shard, key: CacheKey, e: CacheEntry, stamp: nat,
                     gone: CacheKey, kept: CacheKey)
    requires ShardOk(sizes, limits, shard) && FreshStamp(shard, stamp)
    requires gone in shard.records && gone != key && gone !in Put(sizes, limits, shard, key, e, stamp).records
    requires kept in Put(sizes, limits, shard, key, e, stamp).records
    ensures shard.records[gone].lastUsed < Put(sizes, limits, shard, key, e, stamp).records[kept].lastUsed
  {
    InsertedRecords(sizes, limits, shard, key, e, stamp);
    PurgeSeparates(limits, Inserted(sizes, shard, key, e, stamp), gone, kept);
  }

  lemma PutIsOk(sizes: Sizes, limits: MemoryLimits, shard: Shard, key: CacheKey, e: CacheEntry, stamp: nat)
    requires ShardOk(sizes, limits, shard) && FreshStamp(shard, stamp)
    ensures ShardOk(sizes, limits, Put(sizes, limits, shard, key, e, stamp))
  {
    if IncomingBytes(sizes, shard, key, e) > limits.PerShard() {
      RemovedIsOk(sizes, limits, shard, key);
    } else {
      InsertedRecords(sizes, limits, shard, key, e, stamp);
      InsertedCounts(sizes, limits, shard, key, e, stamp);
      PurgedIsOk(sizes, limits, Inserted(sizes, shard, key, e, stamp));
    }
  }

  /** The records a put finds stamped after it: calls that drew their stamp later and took the lock first. */
  function StampedLater(shard: Shard, key: CacheKey, stamp: nat): set<CacheKey> {
    set j | j in shard.records && j != key && shard.records[j].lastUsed > stamp
  }

  lemma UsedSinceThePut(sizes: Sizes, limits: MemoryLimits, shard: Shard, key: CacheKey, e: CacheEntry, stamp: nat)
    requires FreshStamp(shard, stamp)
    ensures var after := Inserted(sizes, shard, key, e, stamp).records;
            SumOver(after, UsedSince(after, key)) ==
            IncomingBytes(sizes, shard, key, e) + SumOver(shard.records, StampedLater(shard, key, stamp))
  {
    var after := Inserted(sizes, shard, key, e, stamp).records;
    var later := StampedLater(shard, key, stamp);
    assert UsedSince(after, key) == later + {key};
    SumSplits(after, UsedSince(after, key), key);
    assert later + {key} - {key} == later;
    SumFrame(shard.records, after, later);
  }

  /**
   Exactly when a put's record is there afterwards: it fits its shard at all, and either the shard did
   not overflow or the record fits the purge target together with whatever was stamped after it.  A
   call that runs by itself has the newest stamp, so then the record need only fit alone.
   */
  lemma JustPutSurvivesIff(sizes: Sizes, limits: MemoryLimits, shard: Shard, key: CacheKey, e: CacheEntry, stamp: nat)
    requires ShardOk(sizes, limits, shard) && FreshStamp(shard, stamp)
    ensures var incoming := IncomingBytes(sizes, shard, key, e);
            key in Put(sizes, limits, shard, key, e, stamp).records <==>
              && incoming <= limits.PerShard()
              && (|| shard.bytes - BytesAt(shard, key) + incoming <= limits.PerShard()
                  || incoming + SumOver(shard.records, StampedLater(shard, key, stamp)) <= limits.PurgeTarget())
  {
    InsertedCounts(sizes, limits, shard, key, e, stamp);
    UsedSinceThePut(sizes, limits, shard, key, e, stamp);
    TotalAfterPut(shard.records, key, Inserted(sizes, shard, key, e, stamp).records[key]);
  }

  /** A refused put keeps every other key, and leaves nothing under its own. */
  lemma RefusedPutDropsOnlyItsKey(sizes: Sizes, limits: MemoryLimits, shard: Shard, key: CacheKey, e: CacheEntry,
                                  stamp: nat, other: CacheKey)
    requires IncomingBytes(sizes, shard, key, e) > limits.PerShard()
    ensures var after := Put(sizes, limits, shard, key, e, stamp);
            VariantsAt(after, other) == if other == key then [] else VariantsAt(shard, other)
  {
  }
}
