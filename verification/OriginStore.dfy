/** The limiter's map of origins: bounded, and purged in one pass that spares whatever is in use. */
module OriginStores {
  import opened Options
  import opened Text
  import opened AdaptiveLaw
  import opened Lowest
  import opened Sets

  /** An origin's entry with the sequence number of its last use. */
  datatype Known = Known(origin: Origin, lastUse: nat)

  function PurgeBatch(c: Config): nat {
    MaxNat(c.capacity / 16, 1)
  }

  function PurgeTarget(c: Config): (target: nat)
    ensures target >= 1
    ensures c.capacity >= 1 ==> target <= c.capacity
  {
    MaxNat(if PurgeBatch(c) <= c.capacity then c.capacity - PurgeBatch(c) else 0, 1)
  }

  /** A 403 or a lowered ceiling: what the ranking puts before recency. */
  predicate HasLesson(c: Config, o: Origin) {
    o.refused || o.ceiling < c.max
  }

  datatype Rank = Rank(lesson: bool, lastUse: nat, key: string)

  /** Without a lesson before with one, then least recently used, then by name. */
  predicate RankedBelow(a: Rank, b: Rank) {
    if a.lesson != b.lesson then b.lesson
    else if a.lastUse != b.lastUse then a.lastUse < b.lastUse
    else StrLess(a.key, b.key)
  }

  lemma RankIsTotal()
    ensures StrictTotalOrder(RankedBelow)
  {
    forall a: Rank, b: Rank ensures !RankedBelow(a, a) && (a == b || RankedBelow(a, b) || RankedBelow(b, a)) {
      StrLessTotal(a.key, a.key);
      StrLessTotal(a.key, b.key);
    }
    forall a: Rank, b: Rank, c: Rank | RankedBelow(a, b) && RankedBelow(b, c) ensures RankedBelow(a, c) {
      if StrLess(a.key, b.key) && StrLess(b.key, c.key) {
        StrLessTransitive(a.key, b.key, c.key);
      }
    }
  }

  /** An entry a purge may take: not the one asked for, not locked by anybody, and with no request in flight. */
  predicate Idle(origins: map<string, Known>, protect: string, locked: set<string>, key: string) {
    key in origins && key != protect && key !in locked && origins[key].origin.inFlight == 0
  }

  function RankOf(c: Config, origins: map<string, Known>, key: string): Rank
    requires key in origins
  {
    Rank(HasLesson(c, origins[key].origin), origins[key].lastUse, key)
  }

  function IdleKeys(origins: map<string, Known>, protect: string, locked: set<string>): set<string> {
    set key | key in origins && Idle(origins, protect, locked, key)
  }

  function Ranks(c: Config, origins: map<string, Known>, keys: set<string>): set<Rank> {
    set key | key in keys && key in origins :: RankOf(c, origins, key)
  }

  function KeysOf(victims: set<Rank>): set<string> {
    set v | v in victims :: v.key
  }

  /** What a purge makes of the map. */
  ghost predicate Evicted(c: Config, origins: map<string, Known>, protect: string, locked: set<string>,
                          after: map<string, Known>) {
    if |origins| <= c.capacity then after == origins
    else
      exists victims ::
        && IsLowest(RankedBelow, victims, Ranks(c, origins, IdleKeys(origins, protect, locked)), |origins| - PurgeTarget(c))
        && after == origins - KeysOf(victims)
  }

  lemma RankCount(c: Config, origins: map<string, Known>, keys: set<string>)
    requires keys <= origins.Keys
    ensures |Ranks(c, origins, keys)| == |keys|
  {
    var f := (key: string) => if key in origins then RankOf(c, origins, key) else Rank(false, 0, key);
    ImageSize(keys, f, Ranks(c, origins, keys));
  }

  lemma VictimKeys(c: Config, origins: map<string, Known>, keys: set<string>, victims: set<Rank>)
    requires keys <= origins.Keys && victims <= Ranks(c, origins, keys)
    ensures KeysOf(victims) <= keys && |KeysOf(victims)| == |victims|
    ensures forall key :: key in keys ==> (key in KeysOf(victims) <==> RankOf(c, origins, key) in victims)
  {
    ImageSize(victims, (v: Rank) => v.key, KeysOf(victims));
  }

  /** Just asked for, locked by somebody, or with a request in flight. */
  predicate InUse(origins: map<string, Known>, protect: string, locked: set<string>, key: string)
    requires key in origins
  {
    key == protect || key in locked || origins[key].origin.inFlight > 0
  }

  /** The entries that are in use. */
  function Busy(origins: map<string, Known>, protect: string, locked: set<string>): set<string> {
    set key | key in origins && InUse(origins, protect, locked, key)
  }

  lemma IdleOrBusy(origins: map<string, Known>, protect: string, locked: set<string>)
    ensures forall key :: key in origins ==> (Idle(origins, protect, locked, key) <==> !InUse(origins, protect, locked, key))
    ensures origins.Keys - IdleKeys(origins, protect, locked) == Busy(origins, protect, locked)
  {
  }

  /** Whatever is in use, or is the entry just asked for, is still there and unchanged. */
  lemma EvictionSparesWhatIsInUse(c: Config, origins: map<string, Known>, protect: string, locked: set<string>,
                                  after: map<string, Known>, key: string)
    requires Evicted(c, origins, protect, locked, after) && key in origins && InUse(origins, protect, locked, key)
    ensures key in after && after[key] == origins[key]
  {
    IdleOrBusy(origins, protect, locked);
    if |origins| > c.capacity {
      var keys := IdleKeys(origins, protect, locked);
      var victims :| IsLowest(RankedBelow, victims, Ranks(c, origins, keys), |origins| - PurgeTarget(c)) && after == origins - KeysOf(victims);
      VictimKeys(c, origins, keys, victims);
    }
  }

  /** A purge takes a sixteenth off the capacity, at least one, and leaves at least one. */
  lemma PurgeTargetIs(c: Config)
    ensures c.capacity >= 16 ==> PurgeTarget(c) == c.capacity - c.capacity / 16
    ensures 2 <= c.capacity < 16 ==> PurgeTarget(c) == c.capacity - 1
    ensures c.capacity <= 1 ==> PurgeTarget(c) == 1
  {
  }

  lemma EvictedSize(c: Config, origins: map<string, Known>, protect: string, locked: set<string>, after: map<string, Known>)
    requires c.capacity >= 1 && Evicted(c, origins, protect, locked, after) && |origins| > c.capacity
    ensures |after| == MaxNat(PurgeTarget(c), |origins.Keys - IdleKeys(origins, protect, locked)|)
  {
    var keys := IdleKeys(origins, protect, locked);
    var victims :| IsLowest(RankedBelow, victims, Ranks(c, origins, keys), |origins| - PurgeTarget(c)) && after == origins - KeysOf(victims);
    VictimKeys(c, origins, keys, victims);
    RankCount(c, origins, keys);
    assert after.Keys == origins.Keys - KeysOf(victims);
    assert |origins.Keys| == |keys| + |origins.Keys - keys|;
  }

  /** A purge reaches its target exactly, or stops at what is in use if that is more. */
  lemma EvictionIsExact(c: Config, origins: map<string, Known>, protect: string, locked: set<string>,
                        after: map<string, Known>)
    requires c.capacity >= 1 && Evicted(c, origins, protect, locked, after)
    ensures |after| == if |origins| <= c.capacity then |origins|
                       else MaxNat(if c.capacity >= 16 then c.capacity - c.capacity / 16 else MaxNat(c.capacity - 1, 1),
                                   |Busy(origins, protect, locked)|)
  {
    if |origins| > c.capacity {
      EvictedSize(c, origins, protect, locked, after);
      IdleOrBusy(origins, protect, locked);
      PurgeTargetIs(c);
    }
  }

  /** Its server has refused it outright, or has ever pushed its ceiling down. */
  predicate Taught(c: Config, o: Origin) {
    if o.refused then true else o.ceiling < c.max
  }

  /** No idle survivor ranks below a victim: a lesson outlives every idle entry without one, and recency decides the rest. */
  lemma LessonsOutliveTheRest(c: Config, origins: map<string, Known>, protect: string, locked: set<string>,
                              after: map<string, Known>,
                              gone: string, kept: string)
    requires Evicted(c, origins, protect, locked, after)
    requires gone in origins && gone !in after && kept in after && kept in origins && !InUse(origins, protect, locked, kept)
    ensures Taught(c, origins[gone].origin) ==> Taught(c, origins[kept].origin)
    ensures Taught(c, origins[gone].origin) == Taught(c, origins[kept].origin) ==> origins[gone].lastUse <= origins[kept].lastUse
  {
    IdleOrBusy(origins, protect, locked);
    if |origins| > c.capacity {
      var keys := IdleKeys(origins, protect, locked);
      var victims :| IsLowest(RankedBelow, victims, Ranks(c, origins, keys), |origins| - PurgeTarget(c)) && after == origins - KeysOf(victims);
      VictimKeys(c, origins, keys, victims);
      assert RankOf(c, origins, gone) in victims && RankOf(c, origins, kept) !in victims;
      assert RankedBelow(RankOf(c, origins, gone), RankOf(c, origins, kept));
    }
  }

  method OfferRank(held: set<Rank>, k: nat, candidate: Rank, ghost seen: set<Rank>) returns (worst: set<Rank>)
    requires IsLowest(RankedBelow, held, seen, k) && candidate !in seen
    ensures IsLowest(RankedBelow, worst, seen + {candidate}, k)
  {
    RankIsTotal();
    worst := Offer(RankedBelow, held, k, candidate, seen);
  }

  lemma RanksOneMore(c: Config, origins: map<string, Known>, done: set<string>, key: string)
    requires key in origins && key !in done
    ensures RankOf(c, origins, key) !in Ranks(c, origins, done)
    ensures Ranks(c, origins, done + {key}) == Ranks(c, origins, done) + {RankOf(c, origins, key)}
  {
  }

  class OriginStore {
    const config: Config
    var origins: map<string, Known>
    var sequence: nat

    constructor (config: Config)
      ensures this.config == config && origins == map[] && sequence == 0
    {
      this.config := config;
      origins, sequence := map[], 0;
    }

    /** One pass over the map, holding no more than the `k` lowest-ranked idle entries. */
    method ChooseVictims(protect: string, locked: set<string>, k: nat) returns (worst: set<Rank>)
      ensures IsLowest(RankedBelow, worst, Ranks(config, origins, IdleKeys(origins, protect, locked)), k)
    {
      worst := {};
      var pending := origins.Keys;
      ghost var done: set<string> := {};
      assert Ranks(config, origins, {}) == {};
      while pending != {}
        invariant pending <= origins.Keys && done == IdleKeys(origins, protect, locked) - pending
        invariant IsLowest(RankedBelow, worst, Ranks(config, origins, done), k)
        decreases pending
      {
        var key :| key in pending;
        if Idle(origins, protect, locked, key) {
          RanksOneMore(config, origins, done, key);
          worst := OfferRank(worst, k, RankOf(config, origins, key), Ranks(config, origins, done));
          done := done + {key};
        }
        pending := pending - {key};
      }
      assert done == IdleKeys(origins, protect, locked);
    }

    method Evict(protect: string, locked: set<string>)
      modifies this`origins
      ensures Evicted(config, old(origins), protect, locked, origins)
    {
      if |origins| <= config.capacity { return; }
      var worst := ChooseVictims(protect, locked, |origins| - PurgeTarget(config));
      origins := origins - KeysOf(worst);
    }

    /** Finds an authority's entry and stamps it, or makes one and purges around it. */
    method StateFor(authority: string, locked: set<string>) returns (state: Known)
      requires config.Usable()
      modifies this
      ensures sequence == old(sequence) + 1
      ensures authority in origins && state == origins[authority] && state.lastUse == old(sequence)
      ensures state.origin == if authority in old(origins) then old(origins)[authority].origin else NewOrigin(config)
      ensures authority in old(origins) ==> origins == old(origins)[authority := state]
      ensures authority !in old(origins) ==>
                && Evicted(config, old(origins)[authority := state], authority, locked, origins)
                && |origins| <= MaxNat(config.capacity, 1 + |Busy(old(origins), authority, locked)|)
    {
      var stamp := sequence;
      sequence := sequence + 1;
      if authority in origins {
        state := origins[authority].(lastUse := stamp);
        origins := origins[authority := state];
        return;
      }
      state := Known(NewOrigin(config), stamp);
      ghost var before := origins;
      var grown := origins[authority := state];
      origins := grown;
      Evict(authority, locked);
      EvictionSparesWhatIsInUse(config, grown, authority, locked, origins, authority);
      EvictionIsExact(config, grown, authority, locked, origins);
      InUseGrowsByOne(before, authority, state, locked);
    }
  }

  lemma InUseGrowsByOne(origins: map<string, Known>, authority: string, state: Known, locked: set<string>)
    requires authority !in origins
    ensures var grown := origins[authority := state];
            |Busy(grown, authority, locked)| == 1 + |Busy(origins, authority, locked)|
  {
    var grown := origins[authority := state];
    assert Busy(grown, authority, locked) == Busy(origins, authority, locked) + {authority};
  }
}
