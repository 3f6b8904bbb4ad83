/**
 The slot and wake-up protocol between callers waiting for an origin's slot and
 permits coming back, as an interleaving of atomic steps.

 Each step is one critical section of the entry's lock or one operation on its
 `Notify`.  A release changes the entry under the lock and wakes waiters only
 afterwards, so other tasks may run in between; the same release may raise or cut
 the limit.  A waiting caller may be dropped while it is parked.
 */
module SlotProtocol {
  import opened Options
  import opened AdaptiveLaw
  import opened AdaptiveRuns

  type TaskId = nat

  /** Where one task stands. */
  datatype Task =
    | FirstTry(waited: bool)   // about to check for a slot at the top of the loop
    | Unregistered             // found none, not yet registered for a wake-up
    | SecondTry(woken: bool)   // registered, about to check once more
    | Parked(woken: bool)      // awaiting its wake-up
    | HasPermit                // holding a slot
    | OwesWake                 // slot returned under the lock, wake-up still to be sent

  datatype System = System(origin: Origin, tasks: map<TaskId, Task>)

  datatype Action =
    | Arrive(t: TaskId)
    | CheckFirst(t: TaskId)
    | Register(t: TaskId)
    | CheckAgain(t: TaskId)
    | Resume(t: TaskId)
    | Cancel(t: TaskId)
    | GiveBack(t: TaskId, now: nat, latency: nat, signal: Option<Signal>)
    | WakeAll(t: TaskId)

  predicate Enabled(p: System, a: Action) {
    match a
    case Arrive(t) => t !in p.tasks
    case CheckFirst(t) => t in p.tasks && p.tasks[t].FirstTry?
    case Register(t) => t in p.tasks && p.tasks[t].Unregistered?
    case CheckAgain(t) => t in p.tasks && p.tasks[t].SecondTry?
    case Resume(t) => t in p.tasks && p.tasks[t] == Parked(true)
    case Cancel(t) => t in p.tasks && p.tasks[t].Parked?
    case GiveBack(t, _, _, _) => t in p.tasks && p.tasks[t].HasPermit?
    case WakeAll(t) => t in p.tasks && p.tasks[t].OwesWake?
  }

  function Woken(task: Task): Task {
    match task
    case SecondTry(_) => SecondTry(true)
    case Parked(_) => Parked(true)
    case other => other
  }

  function Next(s: Shared, p: System, a: Action): System
    requires s.config.Usable() && Enabled(p, a)
  {
    match a
    case Arrive(t) => p.(tasks := p.tasks[t := FirstTry(false)])
    case CheckFirst(t) =>
      if SlotFree(p.origin)
      then System(Taken(p.origin, p.tasks[t].waited), p.tasks[t := HasPermit])
      else p.(tasks := p.tasks[t := Unregistered])
    case Register(t) => p.(tasks := p.tasks[t := SecondTry(false)])
    case CheckAgain(t) =>
      if SlotFree(p.origin)
      then System(Taken(p.origin, true), p.tasks[t := HasPermit])
      else p.(tasks := p.tasks[t := Parked(p.tasks[t].woken)])
    case Resume(t) => p.(tasks := p.tasks[t := FirstTry(true)])
    case Cancel(t) => p.(tasks := p.tasks - {t})
    case GiveBack(t, now, latency, signal) =>
      System(Released(p.origin, s, now, latency, signal), p.tasks[t := OwesWake])
    case WakeAll(t) =>
      var rest := p.tasks - {t};
      p.(tasks := map u | u in rest :: Woken(rest[u]))
  }

  function Start(s: Shared): System {
    System(NewOrigin(s.config), map[])
  }

  ghost predicate Possible(s: Shared, trace: seq<Action>)
    requires s.config.Usable()
    decreases |trace|, 0
  {
    trace == [] ||
    (Possible(s, trace[..|trace| - 1]) && Enabled(Reached(s, trace[..|trace| - 1]), trace[|trace| - 1]))
  }

  /** The state a possible interleaving ends in. */
  ghost function Reached(s: Shared, trace: seq<Action>): System
    requires s.config.Usable() && Possible(s, trace)
    decreases |trace|, 1
  {
    if trace == [] then Start(s)
    else Next(s, Reached(s, trace[..|trace| - 1]), trace[|trace| - 1])
  }

  // ----- What every interleaving keeps -----

  ghost function Holders(tasks: map<TaskId, Task>): set<TaskId> {
    set t | t in tasks && tasks[t].HasPermit?
  }

  ghost predicate SomeoneOwes(tasks: map<TaskId, Task>) {
    exists t :: t in tasks && tasks[t].OwesWake?
  }

  /** A parked caller nobody has woken means the slots are taken or a wake-up is on its way. */
  ghost predicate NoLostWakeUp(p: System) {
    forall t :: t in p.tasks && p.tasks[t] == Parked(false) ==> !SlotFree(p.origin) || SomeoneOwes(p.tasks)
  }

  ghost predicate Inv(c: Config, p: System) {
    && WithinLimits(c, p.origin)
    && p.origin.inFlight == |Holders(p.tasks)|
    && NoLostWakeUp(p)
  }

  lemma SlotsAfterPut(tasks: map<TaskId, Task>, t: TaskId, task: Task)
    ensures |Holders(tasks[t := task])| ==
            |Holders(tasks)| - (if t in tasks && tasks[t].HasPermit? then 1 else 0) + (if task.HasPermit? then 1 else 0)
  {
    var rest := Holders(tasks) - {t};
    assert Holders(tasks) == if t in tasks && tasks[t].HasPermit? then rest + {t} else rest;
    assert Holders(tasks[t := task]) == if task.HasPermit? then rest + {t} else rest;
  }

  /** The event of the law an action is, if it touches the entry. */
  function EventOf(p: System, a: Action): Option<Event>
    requires Enabled(p, a)
  {
    match a
    case CheckFirst(t) => Some(Attempt(p.tasks[t].waited))
    case CheckAgain(_) => Some(Attempt(true))
    case GiveBack(_, now, latency, signal) => Some(Release(now, latency, signal))
    case _ => None
  }

  /** The entry moves by one event of the law, or not at all; either way it stays within its limits. */
  lemma EntryFollowsTheLaw(s: Shared, p: System, a: Action)
    requires s.config.Usable() && Enabled(p, a)
    ensures Next(s, p, a).origin == match EventOf(p, a) { case None => p.origin case Some(e) => Step(p.origin, s, e) }
    ensures WithinLimits(s.config, p.origin) ==> WithinLimits(s.config, Next(s, p, a).origin)
  {
    var e := EventOf(p, a);
    if e.Some? && WithinLimits(s.config, p.origin) {
      StepKeepsLimits(s, p.origin, e.value);
    }
  }

  lemma SignalsLeaveSlotsAlone(o: Origin, s: Shared, now: nat, latency: nat, signal: Option<Signal>)
    requires s.config.Usable() && o.inFlight > 0
    ensures Released(o, s, now, latency, signal).inFlight == o.inFlight - 1
  {
  }

  lemma WakingMovesNoSlots(tasks: map<TaskId, Task>, t: TaskId)
    requires t in tasks && tasks[t].OwesWake?
    ensures var rest := tasks - {t};
            Holders(map u | u in rest :: Woken(rest[u])) == Holders(tasks)
  {
  }

  lemma ReturnIsCounted(s: Shared, p: System, a: Action)
    requires s.config.Usable() && a.GiveBack? && Enabled(p, a) && p.origin.inFlight == |Holders(p.tasks)|
    ensures Next(s, p, a).origin.inFlight == |Holders(Next(s, p, a).tasks)|
  {
    assert a.t in Holders(p.tasks);
    SlotsAfterPut(p.tasks, a.t, OwesWake);
    SignalsLeaveSlotsAlone(p.origin, s, a.now, a.latency, a.signal);
  }

  lemma SlotsStayCounted(s: Shared, p: System, a: Action)
    requires s.config.Usable() && Enabled(p, a) && p.origin.inFlight == |Holders(p.tasks)|
    ensures Next(s, p, a).origin.inFlight == |Holders(Next(s, p, a).tasks)|
  {
    match a
    case Arrive(t) => SlotsAfterPut(p.tasks, t, FirstTry(false));
    case CheckFirst(t) =>
      SlotsAfterPut(p.tasks, t, HasPermit);
      SlotsAfterPut(p.tasks, t, Unregistered);
    case Register(t) => SlotsAfterPut(p.tasks, t, SecondTry(false));
    case CheckAgain(t) =>
      SlotsAfterPut(p.tasks, t, HasPermit);
      SlotsAfterPut(p.tasks, t, Parked(p.tasks[t].woken));
    case Resume(t) => SlotsAfterPut(p.tasks, t, FirstTry(true));
    case Cancel(t) => assert Holders(p.tasks - {t}) == Holders(p.tasks);
    case GiveBack(_, _, _, _) => ReturnIsCounted(s, p, a);
    case WakeAll(t) => WakingMovesNoSlots(p.tasks, t);
  }

  lemma WakeUpsAreNotLost(s: Shared, p: System, a: Action)
    requires s.config.Usable() && Enabled(p, a) && Inv(s.config, p)
    ensures NoLostWakeUp(Next(s, p, a))
  {
    var q := Next(s, p, a);
    forall t | t in q.tasks && q.tasks[t] == Parked(false)
      ensures !SlotFree(q.origin) || SomeoneOwes(q.tasks)
    {
      if a.GiveBack? {
        assert q.tasks[a.t].OwesWake?;
      } else if !(a.CheckAgain? && a.t == t) {
        assert p.tasks[t] == Parked(false);
        if SomeoneOwes(p.tasks) {
          var u :| u in p.tasks && p.tasks[u].OwesWake?;
          assert q.tasks[u].OwesWake?;
        }
      }
    }
  }

  lemma StepKeepsInv(s: Shared, p: System, a: Action)
    requires s.config.Usable() && Enabled(p, a) && Inv(s.config, p)
    ensures Inv(s.config, Next(s, p, a))
  {
    EntryFollowsTheLaw(s, p, a);
    SlotsStayCounted(s, p, a);
    WakeUpsAreNotLost(s, p, a);
  }

  /**
   In every interleaving: slots out equal permits outstanding and never exceed `max`, and no parked
   caller is left unwoken beside a free slot unless a release still owes its wake-up.
   */
  lemma {:induction false} EveryInterleavingKeepsInv(s: Shared, trace: seq<Action>)
    requires s.config.Usable() && Possible(s, trace)
    ensures Inv(s.config, Reached(s, trace))
  {
    if trace == [] {
      assert Holders(map[]) == {};
    } else {
      EveryInterleavingKeepsInv(s, trace[..|trace| - 1]);
      StepKeepsInv(s, Reached(s, trace[..|trace| - 1]), trace[|trace| - 1]);
    }
  }

  /**
   No waiter is ever stuck on its own: whenever a caller sleeps unwoken, some other task holds a
   permit it will give back, or is about to wake everybody.
   */
  lemma SleepersHaveARescuer(s: Shared, trace: seq<Action>, t: TaskId) returns (u: TaskId)
    requires s.config.Usable() && Possible(s, trace)
    requires t in Reached(s, trace).tasks && Reached(s, trace).tasks[t] == Parked(false)
    ensures u in Reached(s, trace).tasks
    ensures Reached(s, trace).tasks[u].HasPermit? || Reached(s, trace).tasks[u].OwesWake?
  {
    EveryInterleavingKeepsInv(s, trace);
    var p := Reached(s, trace);
    if SomeoneOwes(p.tasks) {
      u :| u in p.tasks && p.tasks[u].OwesWake?;
    } else {
      assert |Holders(p.tasks)| >= 1;
      u :| u in Holders(p.tasks);
    }
  }

  /**
   When a release finally sends its wake-up, nobody registered is left asleep: every caller that was
   parked or about to park can go round the loop again.
   */
  lemma AWakeUpReachesEveryone(s: Shared, p: System, t: TaskId, u: TaskId)
    requires s.config.Usable() && Enabled(p, WakeAll(t)) && u in p.tasks
    ensures p.tasks[u].Parked? ==> Enabled(Next(s, p, WakeAll(t)), Resume(u))
    ensures p.tasks[u].SecondTry? ==>
              var woken := Next(s, p, WakeAll(t));
              && Enabled(woken, CheckAgain(u))
              && var after := Next(s, woken, CheckAgain(u));
                 after.tasks[u].HasPermit? || Enabled(after, Resume(u))
    ensures !exists v :: v in Next(s, p, WakeAll(t)).tasks && Next(s, p, WakeAll(t)).tasks[v] == Parked(false)
  {
  }

  // ----- The interleaving's entry is a history of the law -----

  /** The law's history an interleaving produced. */
  ghost function Events(s: Shared, trace: seq<Action>): seq<Event>
    requires s.config.Usable() && Possible(s, trace)
  {
    if trace == [] then []
    else
      var before := trace[..|trace| - 1];
      match EventOf(Reached(s, before), trace[|trace| - 1])
      case None => Events(s, before)
      case Some(e) => Events(s, before) + [e]
  }

  /** So everything proved of histories of the law holds of every interleaving's entry. */
  lemma {:induction false} EntryIsAHistory(s: Shared, trace: seq<Action>)
    requires s.config.Usable() && Possible(s, trace)
    ensures Reached(s, trace).origin == After(s, Events(s, trace))
  {
    if trace != [] {
      var before := trace[..|trace| - 1];
      EntryIsAHistory(s, before);
      EntryFollowsTheLaw(s, Reached(s, before), trace[|trace| - 1]);
      var g, h := Events(s, before), Events(s, trace);
      assert |h| > |g| ==> h[..|h| - 1] == g;
    }
  }
}
