/** A TTL cache of name lookups that collapses concurrent callers into one resolution. */
module DnsCache {
  import opened Options

  datatype Outcome = Resolved(addresses: seq<string>) | Unresolved(message: string)

  datatype Slot =
    /** A resolution is in progress; the handle is weak, so it lives only while some caller waits. */
    | InFlight(lookup: nat)
    /** A completed resolution, valid until `expiresAt`; `None` never expires. */
    | Cached(outcome: Outcome, expiresAt: Option<int>)

  datatype Slots = Slots(entries: map<string, Slot>, sweepAt: nat)

  /** Instants are integers up to the latest one the platform can represent. */
  datatype Settings = Settings(positiveTtl: nat, negativeTtl: nat, latest: int)

  const MIN_SWEEP_SIZE: nat := 64

  predicate Unexpired(expiresAt: Option<int>, now: int) {
    expiresAt.Some? ==> expiresAt.value > now
  }

  function Ttl(s: Settings, outcome: Outcome): nat {
    if outcome.Resolved? then s.positiveTtl else s.negativeTtl
  }

  /** A sum no instant can represent becomes an entry that never expires. */
  function Expiry(s: Settings, outcome: Outcome, now: int): Option<int> {
    if now + Ttl(s, outcome) <= s.latest then Some(now + Ttl(s, outcome)) else None
  }

  /** At `now`, an answer that came at `at` has not outlived the TTL of its kind, or never will. */
  predicate Timely(settings: Settings, outcome: Outcome, at: int, now: int) {
    match outcome
    case Resolved(_) => now < at + settings.positiveTtl || settings.latest < at + settings.positiveTtl
    case Unresolved(_) => now < at + settings.negativeTtl || settings.latest < at + settings.negativeTtl
  }

  lemma TimelyIff(settings: Settings, outcome: Outcome, at: int, now: int)
    ensures Unexpired(Expiry(settings, outcome, at), now) <==> Timely(settings, outcome, at, now)
  {
  }

  predicate Keeps(slot: Slot, now: int, live: set<nat>) {
    match slot
    case Cached(_, expiresAt) => Unexpired(expiresAt, now)
    case InFlight(lookup) => lookup in live
  }

  function Kept(entries: map<string, Slot>, now: int, live: set<nat>): map<string, Slot> {
    map t | t in entries && Keeps(entries[t], now, live) :: entries[t]
  }

  function NextSweep(kept: nat): nat {
    MaxNat(2 * kept, MIN_SWEEP_SIZE)
  }

  function Swept(slots: Slots, now: int, live: set<nat>): Slots {
    var kept := Kept(slots.entries, now, live);
    Slots(kept, NextSweep(|kept|))
  }

  function Settled(s: Settings, slots: Slots, target: string, outcome: Outcome, now: int, live: set<nat>): Slots {
    Swept(slots.(entries := slots.entries[target := Cached(outcome, Expiry(s, outcome, now))]), now, live)
  }

  /** What a caller does, decided under the lock. */
  datatype Action = UseCached(outcome: Outcome) | Join(lookup: nat) | Start

  function ActionFor(slots: Slots, target: string, now: int, live: set<nat>): Action {
    if target !in slots.entries then Start
    else
      match slots.entries[target]
      case Cached(outcome, expiresAt) => if Unexpired(expiresAt, now) then UseCached(outcome) else Start
      case InFlight(lookup) => if lookup in live then Join(lookup) else Start
  }

  predicate SweepIsDue(slots: Slots) {
    |slots.entries| >= slots.sweepAt
  }

  function Started(slots: Slots, target: string, lookup: nat, now: int, live: set<nat>): Slots {
    var swept := if SweepIsDue(slots) then Swept(slots, now, live) else slots;
    swept.(entries := swept.entries[target := InFlight(lookup)])
  }

  lemma InsertSize(entries: map<string, Slot>, target: string, slot: Slot)
    ensures |entries[target := slot]| <= |entries| + 1
    ensures target in entries ==> |entries[target := slot]| == |entries|
  {
    assert entries[target := slot].Keys == entries.Keys + {target};
  }

  class ResolverCache {
    const settings: Settings
    var entries: map<string, Slot>
    var sweepAt: nat

    function State(): Slots
      reads this
    {
      Slots(entries, sweepAt)
    }

    constructor (settings: Settings)
      ensures this.settings == settings && State() == Slots(map[], MIN_SWEEP_SIZE)
    {
      this.settings := settings;
      entries, sweepAt := map[], MIN_SWEEP_SIZE;
    }

    /** Keeps what is unexpired at `now` or in flight for a live lookup, and sets the next sweep by what is left. */
    method Sweep(now: int, live: set<nat>)
      modifies this
      ensures State() == Swept(old(State()), now, live)
    {
      var pending := entries.Keys;
      ghost var before := entries;
      while pending != {}
        invariant pending <= before.Keys && pending <= entries.Keys
        invariant entries == map t | t in before && (t in pending || Keeps(before[t], now, live)) :: before[t]
        decreases pending
      {
        var t :| t in pending;
        if !Keeps(entries[t], now, live) {
          entries := entries - {t};
        }
        pending := pending - {t};
      }
      assert entries == Kept(before, now, live);
      sweepAt := MaxNat(2 * |entries|, MIN_SWEEP_SIZE);
    }

    /** The target answers with this outcome until its kind's TTL has passed; then everything is swept. */
    method Settle(target: string, outcome: Outcome, now: int, live: set<nat>)
      modifies this
      ensures State() == Settled(settings, old(State()), target, outcome, now, live)
      ensures target in entries <==> Timely(settings, outcome, now, now)
      ensures target in entries ==> entries[target].Cached? && entries[target].outcome == outcome
      ensures target in entries ==>
                forall clock :: Unexpired(entries[target].expiresAt, clock) <==> Timely(settings, outcome, now, clock)
    {
      var ttl := if outcome.Resolved? then settings.positiveTtl else settings.negativeTtl;
      var expiresAt := if now + ttl <= settings.latest then Some(now + ttl) else None;
      entries := entries[target := Cached(outcome, expiresAt)];
      Sweep(now, live);
    }

    /** Uses what is cached, joins what is in flight, or registers the given new lookup. */
    method Decide(target: string, now: int, live: set<nat>, lookup: nat) returns (a: Action)
      modifies this
      ensures a == ActionFor(old(State()), target, now, live)
      ensures State() == if a.Start? then Started(old(State()), target, lookup, now, live) else old(State())
    {
      if target in entries {
        match entries[target] {
          case Cached(outcome, expiresAt) =>
            if Unexpired(expiresAt, now) { return UseCached(outcome); }
          case InFlight(existing) =>
            if existing in live { return Join(existing); }
        }
      }
      if |entries| >= sweepAt {
        Sweep(now, live);
      }
      entries := entries[target := InFlight(lookup)];
      return Start;
    }
  }
}
