/** What a rise of the limit says about the callers of an interleaving. */
module SlotPromises {
  import opened AdaptiveLaw
  import opened AdaptiveRuns
  import opened AdaptivePromises
  import opened SlotProtocol

  lemma {:induction false} PrefixIsPossible(s: Shared, trace: seq<Action>, i: nat)
    requires s.config.Usable() && Possible(s, trace) && i <= |trace|
    ensures Possible(s, trace[..i])
    decreases |trace| - i
  {
    if i == |trace| {
      assert trace[..i] == trace;
    } else {
      PrefixIsPossible(s, trace, i + 1);
      assert trace[..i + 1][..i] == trace[..i];
    }
  }

  /** The state before action `i`. */
  ghost function At(s: Shared, trace: seq<Action>, i: nat): System
    requires s.config.Usable() && Possible(s, trace) && i <= |trace|
  {
    PrefixIsPossible(s, trace, i);
    Reached(s, trace[..i])
  }

  lemma OneAction(s: Shared, trace: seq<Action>, i: nat)
    requires s.config.Usable() && Possible(s, trace) && i < |trace|
    ensures Enabled(At(s, trace, i), trace[i]) && At(s, trace, i + 1) == Next(s, At(s, trace, i), trace[i])
  {
    PrefixIsPossible(s, trace, i + 1);
    assert trace[..i + 1][..i] == trace[..i];
  }

  lemma AtStart(s: Shared, trace: seq<Action>)
    requires s.config.Usable() && Possible(s, trace)
    ensures At(s, trace, 0) == Start(s)
  {
    assert trace[..0] == [];
  }

  // ----- Turned away -----

  /** A task that goes round the loop because it found no slot. */
  predicate Waits(task: Task) {
    task.Unregistered? || task.SecondTry? || task.Parked? || task == FirstTry(true)
  }

  /** Action `m` is the task's first look for a slot, and there was none. */
  ghost predicate TurnedAway(s: Shared, trace: seq<Action>, m: nat, t: TaskId)
    requires s.config.Usable() && Possible(s, trace) && m < |trace|
  {
    trace[m] == CheckFirst(t) && !SlotFree(At(s, trace, m).origin)
  }

  lemma WaitsSince(s: Shared, p: System, a: Action, t: TaskId)
    requires s.config.Usable() && Enabled(p, a) && t in Next(s, p, a).tasks && Waits(Next(s, p, a).tasks[t])
    ensures (t in p.tasks && Waits(p.tasks[t])) || (a == CheckFirst(t) && !SlotFree(p.origin))
  {
  }

  /** Whoever waits was turned away. */
  lemma {:induction false} WaiterWasTurnedAway(s: Shared, trace: seq<Action>, i: nat, t: TaskId) returns (m: nat)
    requires s.config.Usable() && Possible(s, trace) && i <= |trace|
    requires t in At(s, trace, i).tasks && Waits(At(s, trace, i).tasks[t])
    ensures m < i && TurnedAway(s, trace, m, t)
    decreases i
  {
    AtStart(s, trace);
    OneAction(s, trace, i - 1);
    WaitsSince(s, At(s, trace, i - 1), trace[i - 1], t);
    if t in At(s, trace, i - 1).tasks && Waits(At(s, trace, i - 1).tasks[t]) {
      m := WaiterWasTurnedAway(s, trace, i - 1, t);
    } else {
      m := i - 1;
    }
  }

  // ----- A rise -----

  /** Action `k` gives a slot to a task that was waiting. */
  ghost predicate ServesAWaiter(s: Shared, trace: seq<Action>, k: nat)
    requires s.config.Usable() && Possible(s, trace) && k < |trace|
  {
    var p, a := At(s, trace, k), trace[k];
    (a.CheckFirst? || a.CheckAgain?) && a.t in p.tasks && Waits(p.tasks[a.t]) && SlotFree(p.origin)
  }

  ghost predicate StillSince(s: Shared, trace: seq<Action>, k: nat, j: nat)
    requires s.config.Usable() && Possible(s, trace) && k <= j <= |trace|
  {
    forall i :: k <= i <= j ==> At(s, trace, i).origin.limit == At(s, trace, k).origin.limit
  }

  lemma SaturatesByServing(s: Shared, p: System, a: Action)
    requires s.config.Usable() && Enabled(p, a) && WithinLimits(s.config, p.origin) && Next(s, p, a).origin.saturated
    ensures Next(s, p, a).origin.limit == p.origin.limit
    ensures p.origin.saturated ||
            ((a.CheckFirst? || a.CheckAgain?) && a.t in p.tasks && Waits(p.tasks[a.t]) && SlotFree(p.origin))
  {
    EntryFollowsTheLaw(s, p, a);
    var e := EventOf(p, a);
    if e.Some? { StepSaturates(s, p.origin, e.value); }
  }

  lemma {:induction false} SaturatedServedAWaiter(s: Shared, trace: seq<Action>, j: nat) returns (k: nat)
    requires s.config.Usable() && Possible(s, trace) && j <= |trace| && At(s, trace, j).origin.saturated
    ensures k < j && ServesAWaiter(s, trace, k) && StillSince(s, trace, k, j)
    decreases j
  {
    AtStart(s, trace);
    OneAction(s, trace, j - 1);
    PrefixIsPossible(s, trace, j - 1);
    EveryInterleavingKeepsInv(s, trace[..j - 1]);
    SaturatesByServing(s, At(s, trace, j - 1), trace[j - 1]);
    if At(s, trace, j - 1).origin.saturated {
      k := SaturatedServedAWaiter(s, trace, j - 1);
    } else {
      k := j - 1;
    }
  }

  /**
   In every interleaving: when the limit rises, some caller had found no slot on its first look, and had
   since been given one, and the limit has not moved since it was.
   */
  lemma RiseNeedsAWaiter(s: Shared, trace: seq<Action>, j: nat) returns (k: nat, m: nat)
    requires s.config.Usable() && Possible(s, trace) && j < |trace|
    requires At(s, trace, j + 1).origin.limit > At(s, trace, j).origin.limit
    ensures m < k < j && ServesAWaiter(s, trace, k) && StillSince(s, trace, k, j) && TurnedAway(s, trace, m, trace[k].t)
  {
    var p := At(s, trace, j);
    OneAction(s, trace, j);
    PrefixIsPossible(s, trace, j);
    EveryInterleavingKeepsInv(s, trace[..j]);
    EntryFollowsTheLaw(s, p, trace[j]);
    IncreaseIffRule(s, p.origin, EventOf(p, trace[j]).value);
    k := SaturatedServedAWaiter(s, trace, j);
    m := WaiterWasTurnedAway(s, trace, k, trace[k].t);
  }
}
