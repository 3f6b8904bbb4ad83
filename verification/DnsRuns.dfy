/** Every interleaving of callers arriving, deciding, driving lookups, settling, collecting and being dropped. */
module DnsRuns {
  import opened Options
  import opened DnsCache

  datatype Phase =
    | Resolving
    /** The poll that finished the resolution has read the clock and not yet taken the lock. */
    | Settling(outcome: Outcome, now: int, poller: nat)
    | Finished(outcome: Outcome)

  /** A shared lookup, alive while some caller holds it. */
  datatype Lookup = Lookup(target: string, callers: set<nat>, phase: Phase)

  datatype Caller = Arrived(target: string, now: int) | Waiting(target: string, lookup: nat)

  /** A settled resolution: what was asked, what came back, and when. */
  datatype Answer = Answer(target: string, outcome: Outcome, at: int)

  datatype System = System(
    slots: Slots,
    lastLive: nat,
    lookups: map<nat, Lookup>,
    nextId: nat,
    callers: map<nat, Caller>,
    answers: set<Answer>
  )

  const INITIAL := System(Slots(map[], MIN_SWEEP_SIZE), 0, map[], 0, map[], {})

  function Live(lookups: map<nat, Lookup>): set<nat> {
    set id | id in lookups && lookups[id].callers != {}
  }

  datatype Event =
    | Arrive(caller: nat, target: string, now: int)
    | Decide(caller: nat)
    | Resolve(caller: nat, outcome: Outcome, now: int)
    | Settle(lookup: nat)
    | Collect(caller: nat)
    | Drop(caller: nat)

  predicate CanDecide(s: System, c: nat) {
    c in s.callers && s.callers[c].Arrived?
  }

  function ActionOf(s: System, c: nat): Action
    requires CanDecide(s, c)
  {
    ActionFor(s.slots, s.callers[c].target, s.callers[c].now, Live(s.lookups))
  }

  predicate WaitsOn(s: System, c: nat) {
    c in s.callers && s.callers[c].Waiting? && s.callers[c].lookup in s.lookups
  }

  function LookupOf(s: System, c: nat): Lookup
    requires WaitsOn(s, c)
  {
    s.lookups[s.callers[c].lookup]
  }

  /** A caller in the middle of a poll cannot be dropped. */
  predicate IsPolling(s: System, c: nat) {
    WaitsOn(s, c) && LookupOf(s, c).phase.Settling? && LookupOf(s, c).phase.poller == c
  }

  predicate Enabled(s: System, e: Event) {
    match e
    case Arrive(c, _, _) => c !in s.callers
    case Decide(c) => CanDecide(s, c)
    case Resolve(c, _, _) => WaitsOn(s, c) && LookupOf(s, c).phase.Resolving?
    case Settle(id) => id in s.lookups && s.lookups[id].phase.Settling?
    case Collect(c) => WaitsOn(s, c) && LookupOf(s, c).phase.Finished?
    case Drop(c) => c in s.callers && !IsPolling(s, c)
  }

  function Released(s: System, c: nat): System
    requires c in s.callers
  {
    var gone := s.(callers := s.callers - {c});
    if WaitsOn(s, c) then gone.(lookups := s.lookups[s.callers[c].lookup := LookupOf(s, c).(callers := LookupOf(s, c).callers - {c})])
    else gone
  }

  function Decided(s: System, c: nat): System
    requires CanDecide(s, c)
  {
    var target, now, live := s.callers[c].target, s.callers[c].now, Live(s.lookups);
    match ActionOf(s, c)
    case UseCached(_) => s.(callers := s.callers - {c})
    case Join(id) =>
      s.(lookups := s.lookups[id := s.lookups[id].(callers := s.lookups[id].callers + {c})], callers := s.callers[c := Waiting(target, id)])
    case Start =>
      s.(slots := Started(s.slots, target, s.nextId, now, live),
         lastLive := if SweepIsDue(s.slots) then |Kept(s.slots.entries, now, live)| else s.lastLive,
         lookups := s.lookups[s.nextId := Lookup(target, {c}, Resolving)],
         nextId := s.nextId + 1,
         callers := s.callers[c := Waiting(target, s.nextId)])
  }

  function Next(settings: Settings, s: System, e: Event): System
    requires Enabled(s, e)
  {
    match e
    case Arrive(c, target, now) => s.(callers := s.callers[c := Arrived(target, now)])
    case Decide(c) => Decided(s, c)
    case Resolve(c, outcome, now) =>
      s.(lookups := s.lookups[s.callers[c].lookup := LookupOf(s, c).(phase := Settling(outcome, now, c))])
    case Settle(id) =>
      var l := s.lookups[id];
      var slots := Settled(settings, s.slots, l.target, l.phase.outcome, l.phase.now, Live(s.lookups));
      s.(slots := slots,
         lastLive := |slots.entries|,
         lookups := s.lookups[id := l.(phase := Finished(l.phase.outcome))],
         answers := s.answers + {Answer(l.target, l.phase.outcome, l.phase.now)})
    case Collect(c) => Released(s, c)
    case Drop(c) => Released(s, c)
  }

  // ----- What every reachable state keeps -----

  predicate Unsettled(l: Lookup) {
    l.callers != {} && !l.phase.Finished?
  }

  /** Every lookup somebody waits for is the one its target's marker names. */
  ghost predicate MarkersHold(s: System) {
    && (forall id :: id in s.lookups && Unsettled(s.lookups[id]) ==>
          s.lookups[id].target in s.slots.entries && s.slots.entries[s.lookups[id].target] == InFlight(id))
    && (forall t :: t in s.slots.entries && s.slots.entries[t].InFlight? ==>
          && s.slots.entries[t].lookup in s.lookups
          && s.lookups[s.slots.entries[t].lookup].target == t
          && !s.lookups[s.slots.entries[t].lookup].phase.Finished?)
  }

  ghost predicate CallersHold(s: System) {
    && (forall id :: id in s.lookups ==> id < s.nextId)
    && (forall c :: c in s.callers && s.callers[c].Waiting? ==>
          s.callers[c].lookup in s.lookups && c in s.lookups[s.callers[c].lookup].callers)
    && (forall id, c :: id in s.lookups && c in s.lookups[id].callers ==> c in s.callers && s.callers[c] == Waiting(s.lookups[id].target, id))
    && (forall id :: id in s.lookups && s.lookups[id].phase.Settling? ==> s.lookups[id].phase.poller in s.lookups[id].callers)
  }

  ghost predicate SizeHolds(s: System) {
    s.slots.sweepAt == NextSweep(s.lastLive) && |s.slots.entries| <= s.slots.sweepAt
  }

  /** An answer is for its own target and is kept no longer than its own TTL. */
  predicate Justified(settings: Settings, answers: set<Answer>, target: string, outcome: Outcome,
                      expiresAt: Option<int>) {
    exists a :: a in answers && a.target == target && a.outcome == outcome && expiresAt == Expiry(settings, outcome, a.at)
  }

  ghost predicate AnswersHold(settings: Settings, s: System) {
    && (forall t :: t in s.slots.entries && s.slots.entries[t].Cached? ==>
          Justified(settings, s.answers, t, s.slots.entries[t].outcome, s.slots.entries[t].expiresAt))
    && (forall id :: id in s.lookups && s.lookups[id].phase.Finished? ==>
          exists a :: a in s.answers && a.target == s.lookups[id].target && a.outcome == s.lookups[id].phase.outcome)
  }

  ghost predicate Inv(settings: Settings, s: System) {
    MarkersHold(s) && CallersHold(s) && SizeHolds(s) && AnswersHold(settings, s)
  }

  // ----- Preservation -----

  lemma StartedSize(slots: Slots, target: string, id: nat, now: int, live: set<nat>)
    requires |slots.entries| <= slots.sweepAt
    ensures |Started(slots, target, id, now, live).entries| <= Started(slots, target, id, now, live).sweepAt
  {
    var swept := if SweepIsDue(slots) then Swept(slots, now, live) else slots;
    InsertSize(swept.entries, target, InFlight(id));
  }

  lemma SizeStep(settings: Settings, s: System, e: Event)
    requires SizeHolds(s) && Enabled(s, e)
    ensures SizeHolds(Next(settings, s, e))
  {
    if e.Decide? && ActionOf(s, e.caller).Start? {
      StartedSize(s.slots, s.callers[e.caller].target, s.nextId, s.callers[e.caller].now, Live(s.lookups));
    }
  }

  lemma DecideCallers(s: System, c: nat)
    requires CallersHold(s) && MarkersHold(s) && CanDecide(s, c)
    ensures CallersHold(Decided(s, c))
  {
  }

  lemma ReleaseCallers(s: System, c: nat)
    requires CallersHold(s) && c in s.callers && !IsPolling(s, c)
    ensures CallersHold(Released(s, c))
  {
  }

  lemma CallersStep(settings: Settings, s: System, e: Event)
    requires CallersHold(s) && MarkersHold(s) && Enabled(s, e)
    ensures CallersHold(Next(settings, s, e))
  {
    match e {
      case Decide(c) => DecideCallers(s, c);
      case Collect(c) => ReleaseCallers(s, c);
      case Drop(c) => ReleaseCallers(s, c);
      case _ =>
    }
  }

  lemma StartMarkers(s: System, c: nat)
    requires MarkersHold(s) && CallersHold(s) && CanDecide(s, c) && ActionOf(s, c).Start?
    ensures MarkersHold(Decided(s, c))
  {
    var target := s.callers[c].target;
    NoLiveLookup(s, target, s.callers[c].now);
  }

  /** Where a caller starts a lookup, no unsettled lookup of that target has anybody left waiting. */
  lemma NoLiveLookup(s: System, target: string, now: int)
    requires MarkersHold(s) && ActionFor(s.slots, target, now, Live(s.lookups)).Start?
    ensures forall id :: id in s.lookups && Unsettled(s.lookups[id]) ==> s.lookups[id].target != target
  {
  }

  lemma SettleMarkers(settings: Settings, s: System, id: nat)
    requires MarkersHold(s) && CallersHold(s) && Enabled(s, Settle(id))
    ensures MarkersHold(Next(settings, s, Settle(id)))
  {
    assert Unsettled(s.lookups[id]);
  }

  lemma MarkersStep(settings: Settings, s: System, e: Event)
    requires MarkersHold(s) && CallersHold(s) && Enabled(s, e)
    ensures MarkersHold(Next(settings, s, e))
  {
    match e {
      case Decide(c) => if ActionOf(s, c).Start? { StartMarkers(s, c); }
      case Settle(id) => SettleMarkers(settings, s, id);
      case _ =>
    }
  }

  lemma AnswersStep(settings: Settings, s: System, e: Event)
    requires AnswersHold(settings, s) && Enabled(s, e)
    ensures AnswersHold(settings, Next(settings, s, e))
  {
  }

  lemma InvStep(settings: Settings, s: System, e: Event)
    requires Inv(settings, s) && Enabled(s, e)
    ensures Inv(settings, Next(settings, s, e))
  {
    SizeStep(settings, s, e);
    CallersStep(settings, s, e);
    MarkersStep(settings, s, e);
    AnswersStep(settings, s, e);
  }

  function Run(settings: Settings, s: System, events: seq<Event>): Option<System>
    decreases |events|
  {
    if events == [] then Some(s)
    else if !Enabled(s, events[0]) then None
    else Run(settings, Next(settings, s, events[0]), events[1..])
  }

  lemma {:induction false} EveryRunKeepsInv(settings: Settings, s: System, events: seq<Event>)
    requires Inv(settings, s)
    ensures Run(settings, s, events).Some? ==> Inv(settings, Run(settings, s, events).value)
    decreases |events|
  {
    if events != [] && Enabled(s, events[0]) {
      InvStep(settings, s, events[0]);
      EveryRunKeepsInv(settings, Next(settings, s, events[0]), events[1..]);
    }
  }

  ghost predicate Reachable(settings: Settings, s: System) {
    exists events :: Run(settings, INITIAL, events) == Some(s)
  }

  lemma ReachableKeepsInv(settings: Settings, s: System)
    requires Reachable(settings, s)
    ensures Inv(settings, s)
  {
    var events :| Run(settings, INITIAL, events) == Some(s);
    EveryRunKeepsInv(settings, INITIAL, events);
  }

  // ----- What the design promises -----

  /** At most one unsettled lookup per target has anybody waiting on it. */
  lemma SingleFlight(settings: Settings, s: System, i: nat, j: nat)
    requires Reachable(settings, s)
    requires i in s.lookups && j in s.lookups && Unsettled(s.lookups[i]) && Unsettled(s.lookups[j])
    requires s.lookups[i].target == s.lookups[j].target
    ensures i == j
  {
    ReachableKeepsInv(settings, s);
  }

  predicate HoldsUnexpired(slots: Slots, target: string, now: int) {
    target in slots.entries && slots.entries[target].Cached? && Unexpired(slots.entries[target].expiresAt, now)
  }

  /**
   A new resolution starts exactly when nobody waits on an unsettled lookup of the target and no answer
   held for it is unexpired at the caller's own clock reading.
   */
  lemma StartsIff(settings: Settings, s: System, c: nat)
    requires Reachable(settings, s) && CanDecide(s, c)
    ensures ActionOf(s, c).Start? <==>
            && (forall id :: id in s.lookups && Unsettled(s.lookups[id]) ==> s.lookups[id].target != s.callers[c].target)
            && !HoldsUnexpired(s.slots, s.callers[c].target, s.callers[c].now)
  {
    ReachableKeepsInv(settings, s);
    if ActionOf(s, c).Start? {
      NoLiveLookup(s, s.callers[c].target, s.callers[c].now);
    } else if ActionOf(s, c).Join? {
      assert Unsettled(s.lookups[ActionOf(s, c).lookup]);
    }
  }

  /** The map never holds more than twice what the last sweep left, or the minimum. */
  lemma MapStaysSmall(settings: Settings, s: System)
    requires Reachable(settings, s)
    ensures |s.slots.entries| <= MaxNat(MIN_SWEEP_SIZE, 2 * s.lastLive)
  {
    ReachableKeepsInv(settings, s);
  }

  /** Whatever a waiting caller is handed was resolved for the target it asked for. */
  lemma CollectedAnswerIsOwn(settings: Settings, s: System, c: nat) returns (a: Answer)
    requires Reachable(settings, s) && Enabled(s, Collect(c))
    ensures a in s.answers && a.target == s.callers[c].target && a.outcome == LookupOf(s, c).phase.outcome
  {
    ReachableKeepsInv(settings, s);
    a :| a in s.answers && a.target == LookupOf(s, c).target && a.outcome == LookupOf(s, c).phase.outcome;
  }
}
