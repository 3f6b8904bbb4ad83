/** How long an answer is handed out, and what a sweep leaves, in terms of the two TTLs and the clocks read. */
module DnsPromises {
  import opened Options
  import opened DnsCache
  import opened DnsRuns

  /** In every run, a caller handed a cached answer asked for its target, at a time it was still timely. */
  lemma CachedAnswerIsTimely(settings: Settings, s: System, c: nat) returns (a: Answer)
    requires Reachable(settings, s) && CanDecide(s, c) && ActionOf(s, c).UseCached?
    ensures a in s.answers && a.target == s.callers[c].target && a.outcome == ActionOf(s, c).outcome
    ensures Timely(settings, a.outcome, a.at, s.callers[c].now)
  {
    ReachableKeepsInv(settings, s);
    var slot := s.slots.entries[s.callers[c].target];
    a :| && a in s.answers && a.target == s.callers[c].target && a.outcome == slot.outcome
         && slot.expiresAt == Expiry(settings, slot.outcome, a.at);
    TimelyIff(settings, a.outcome, a.at, s.callers[c].now);
  }

  // ----- The converse -----

  /** The clock reading an event acts on. */
  function ReadingOf(s: System, e: Event): Option<int>
    requires Enabled(s, e)
  {
    match e
    case Decide(c) => Some(s.callers[c].now)
    case Settle(id) => Some(s.lookups[id].phase.now)
    case _ => None
  }

  /** No event of the run acts on a clock reading at which the answer is no longer timely. */
  predicate AllTimely(settings: Settings, s: System, events: seq<Event>, a: Answer)
    decreases |events|
  {
    events == [] || (
      && Enabled(s, events[0])
      && (ReadingOf(s, events[0]).Some? ==> Timely(settings, a.outcome, a.at, ReadingOf(s, events[0]).value))
      && AllTimely(settings, Next(settings, s, events[0]), events[1..], a))
  }

  /** The target holds the answer, for as long as it is timely. */
  predicate Held(settings: Settings, s: System, a: Answer) {
    a.target in s.slots.entries && s.slots.entries[a.target] == Cached(a.outcome, Expiry(settings, a.outcome, a.at))
  }

  lemma HeldIsUsed(settings: Settings, s: System, a: Answer, c: nat)
    requires Held(settings, s, a) && CanDecide(s, c) && s.callers[c].target == a.target
    requires Timely(settings, a.outcome, a.at, s.callers[c].now)
    ensures ActionOf(s, c) == UseCached(a.outcome)
  {
    TimelyIff(settings, a.outcome, a.at, s.callers[c].now);
  }

  lemma OthersSettle(settings: Settings, s: System, a: Answer, id: nat)
    requires Inv(settings, s) && Held(settings, s, a) && Enabled(s, Settle(id))
    ensures s.lookups[id].target != a.target
  {
    assert Unsettled(s.lookups[id]);
  }

  lemma HeldStays(settings: Settings, s: System, a: Answer, e: Event)
    requires Inv(settings, s) && Held(settings, s, a) && Enabled(s, e)
    requires ReadingOf(s, e).Some? ==> Timely(settings, a.outcome, a.at, ReadingOf(s, e).value)
    ensures Held(settings, Next(settings, s, e), a)
  {
    match e {
      case Decide(c) =>
        TimelyIff(settings, a.outcome, a.at, s.callers[c].now);
        if s.callers[c].target == a.target { HeldIsUsed(settings, s, a, c); }
      case Settle(id) =>
        OthersSettle(settings, s, a, id);
        TimelyIff(settings, a.outcome, a.at, s.lookups[id].phase.now);
      case _ =>
    }
  }

  lemma {:induction false} HeldThroughout(settings: Settings, s: System, events: seq<Event>, a: Answer)
    requires Inv(settings, s) && Held(settings, s, a) && AllTimely(settings, s, events, a)
    ensures Run(settings, s, events).Some? && Held(settings, Run(settings, s, events).value, a)
    decreases |events|
  {
    if events != [] {
      HeldStays(settings, s, a, events[0]);
      InvStep(settings, s, events[0]);
      HeldThroughout(settings, Next(settings, s, events[0]), events[1..], a);
    }
  }

  /**
   Once settled, an answer is what every later caller for its target is handed, and no new lookup of the
   target starts, for as long as no clock reading that is acted on makes it untimely.
   */
  lemma AnswerStands(settings: Settings, s: System, id: nat, events: seq<Event>, c: nat)
    requires Reachable(settings, s) && Enabled(s, Settle(id))
    requires var l := s.lookups[id];
             var a := Answer(l.target, l.phase.outcome, l.phase.now);
             && AllTimely(settings, s, [Settle(id)] + events, a)
             && Run(settings, Next(settings, s, Settle(id)), events).Some?
             && var after := Run(settings, Next(settings, s, Settle(id)), events).value;
                && CanDecide(after, c) && after.callers[c].target == a.target
                && Timely(settings, a.outcome, a.at, after.callers[c].now)
    ensures var after := Run(settings, Next(settings, s, Settle(id)), events).value;
            ActionOf(after, c) == UseCached(s.lookups[id].phase.outcome)
  {
    var l := s.lookups[id];
    var a := Answer(l.target, l.phase.outcome, l.phase.now);
    var settled := Next(settings, s, Settle(id));
    SettledHolds(settings, s, id, events);
    HeldThroughout(settings, settled, events, a);
    HeldIsUsed(settings, Run(settings, settled, events).value, a, c);
  }

  lemma FirstIsTimely(settings: Settings, s: System, e: Event, events: seq<Event>, a: Answer)
    requires Enabled(s, e) && AllTimely(settings, s, [e] + events, a)
    ensures ReadingOf(s, e).Some? ==> Timely(settings, a.outcome, a.at, ReadingOf(s, e).value)
    ensures AllTimely(settings, Next(settings, s, e), events, a)
  {
    assert ([e] + events)[1..] == events;
  }

  /** A settled answer is held unless its TTL is nothing. */
  lemma SettledHoldsIff(settings: Settings, s: System, id: nat)
    requires Enabled(s, Settle(id))
    ensures var l := s.lookups[id];
            Held(settings, Next(settings, s, Settle(id)), Answer(l.target, l.phase.outcome, l.phase.now)) <==>
            Timely(settings, l.phase.outcome, l.phase.now, l.phase.now)
  {
    var l := s.lookups[id];
    TimelyIff(settings, l.phase.outcome, l.phase.now, l.phase.now);
  }

  lemma SettledHolds(settings: Settings, s: System, id: nat, events: seq<Event>)
    requires Reachable(settings, s) && Enabled(s, Settle(id))
    requires var l := s.lookups[id];
             AllTimely(settings, s, [Settle(id)] + events, Answer(l.target, l.phase.outcome, l.phase.now))
    ensures var l, settled := s.lookups[id], Next(settings, s, Settle(id));
            var a := Answer(l.target, l.phase.outcome, l.phase.now);
            Inv(settings, settled) && Held(settings, settled, a) && AllTimely(settings, settled, events, a)
  {
    var l := s.lookups[id];
    ReachableKeepsInv(settings, s);
    InvStep(settings, s, Settle(id));
    FirstIsTimely(settings, s, Settle(id), events, Answer(l.target, l.phase.outcome, l.phase.now));
    SettledHoldsIff(settings, s, id);
  }

  // ----- Sweeps -----

  /** Worth keeping at `now`: an answer not yet expired, or a lookup somebody waits for. */
  predicate Current(s: System, slot: Slot, now: int) {
    match slot
    case Cached(_, None) => true
    case Cached(_, Some(expiresAt)) => now < expiresAt
    case InFlight(id) => id in s.lookups && s.lookups[id].callers != {}
  }

  /** Settling drops every other target that is no longer current, and no other. */
  lemma SettlingSweeps(settings: Settings, s: System, id: nat, target: string)
    requires Enabled(s, Settle(id)) && target != s.lookups[id].target
    ensures var before, after := s.slots.entries, Next(settings, s, Settle(id)).slots.entries;
            && (target in after <==> target in before && Current(s, before[target], s.lookups[id].phase.now))
            && (target in after ==> after[target] == before[target])
  {
  }

  /** So does starting a lookup once the map has doubled, and before that nothing is dropped. */
  lemma StartingSweepsIff(settings: Settings, s: System, c: nat, target: string)
    requires CanDecide(s, c) && ActionOf(s, c).Start? && target != s.callers[c].target
    ensures var before, after := s.slots.entries, Decided(s, c).slots.entries;
            && (target in after <==>
                  target in before && (|before| < s.slots.sweepAt || Current(s, before[target], s.callers[c].now)))
            && (target in after ==> after[target] == before[target])
  {
  }
}
