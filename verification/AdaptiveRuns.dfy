/**
 What the control law keeps over whole histories of one origin's entry.

 A history is any sequence of slot attempts and releases; a release may carry a
 reported signal, or none when the permit was dropped.  Nothing is required of
 the clock readings or latencies a history carries.
 */
module AdaptiveRuns {
  import opened Options
  import opened Arithmetic
  import opened AdaptiveLaw

  datatype Event =
    | Attempt(waited: bool)
    | Release(now: nat, latency: nat, signal: Option<Signal>)

  predicate Reports(e: Event, s: Signal) {
    e.Release? && e.signal == Some(s)
  }

  predicate IsBackpressure(e: Event) {
    e.Release? && e.signal.Some? && e.signal.value.Backpressure?
  }

  predicate IsReport(e: Event) {
    e.Release? && e.signal.Some?
  }

  function Step(o: Origin, s: Shared, e: Event): Origin
    requires s.config.Usable()
  {
    match e
    case Attempt(waited) => Taken(o, waited)
    case Release(now, latency, signal) => Released(o, s, now, latency, signal)
  }

  /** The entry after a whole history. */
  function After(s: Shared, h: seq<Event>): Origin
    requires s.config.Usable()
  {
    if h == [] then NewOrigin(s.config) else Step(After(s, h[..|h| - 1]), s, h[|h| - 1])
  }

  function CountHealthy(h: seq<Event>): nat {
    if h == [] then 0 else CountHealthy(h[..|h| - 1]) + (if Reports(h[|h| - 1], Healthy) then 1 else 0)
  }

  function CountBackpressure(h: seq<Event>): nat {
    if h == [] then 0 else CountBackpressure(h[..|h| - 1]) + (if IsBackpressure(h[|h| - 1]) then 1 else 0)
  }

  /** One event more is one step more. */
  lemma AfterSnoc(s: Shared, h: seq<Event>, i: nat)
    requires s.config.Usable() && i < |h|
    ensures After(s, h[..i + 1]) == Step(After(s, h[..i]), s, h[i])
  {
    assert h[..i + 1][..i] == h[..i];
  }

  // ----- Limits -----

  predicate WithinLimits(c: Config, o: Origin) {
    && c.min <= o.limit <= o.ceiling <= c.max
    && o.inFlight <= c.max
    && o.probeSamples < c.probe
  }

  lemma StepKeepsLimits(s: Shared, o: Origin, e: Event)
    requires s.config.Usable() && WithinLimits(s.config, o)
    ensures WithinLimits(s.config, Step(o, s, e))
  {
    if IsReport(e) {
      var returned := Released(o, s, e.now, e.latency, None);
      match e.signal.value
      case Healthy =>
        var c := s.config;
        if ProbeCompletes(o, c) && o.baseline.Some? && !Degraded(returned, s, e.latency) {
          assert WithinLimits(c, RelaxCeiling(Judged(returned, s, e.latency), s, e.now));
        }
      case Neutral =>
      case Backpressure(retryAfter) =>
        assert WithinLimits(s.config, OnBackpressure(returned, s, e.now, retryAfter));
      case Refused =>
      case Failed =>
    }
  }

  /** In every history the limit stays between the floor and the ceiling, and slots out never exceed `max`. */
  lemma {:induction false} LimitsHold(s: Shared, h: seq<Event>)
    requires s.config.Usable()
    ensures WithinLimits(s.config, After(s, h))
  {
    if h != [] {
      LimitsHold(s, h[..|h| - 1]);
      StepKeepsLimits(s, After(s, h[..|h| - 1]), h[|h| - 1]);
    }
  }

  // ----- The increase and decrease rules, as the design states them -----

  /** The eight conditions under which one slot is added. */
  predicate IncreaseRule(s: Shared, o: Origin, e: Event)
    requires s.config.Usable()
  {
    var c := s.config;
    && Reports(e, Healthy) && o.probeSamples + 1 == c.probe          // the probe completed
    && o.baseline.Some?                                               // there is a baseline
    && !Degraded(o, s, e.latency)                                     // the probe was clean
    && o.cleanProbes + 1 >= c.cleanProbesBeforeIncrease               // enough clean probes in a row
    && o.saturated                                                    // somebody queued
    && !Holding(o, e.now)                                             // no hold stands
    && !o.refused                                                     // never answered 403
    && o.limit + 1 <= RelaxCeiling(o, s, e.now).ceiling               // stays at or under the ceiling
  }

  /** The limit moves up exactly under the eight conditions, and then by one. */
  lemma IncreaseIffRule(s: Shared, o: Origin, e: Event)
    requires s.config.Usable() && WithinLimits(s.config, o)
    ensures Step(o, s, e).limit > o.limit <==> IncreaseRule(s, o, e)
    ensures Step(o, s, e).limit > o.limit ==> Step(o, s, e).limit == o.limit + 1
  {
  }

  /** The limit moves down exactly on a slow probe or backpressure, to half or the floor. */
  lemma DecreaseIffRule(s: Shared, o: Origin, e: Event)
    requires s.config.Usable() && WithinLimits(s.config, o)
    ensures Step(o, s, e).limit < o.limit <==>
              && o.limit > s.config.min
              && (|| IsBackpressure(e)
                  || (Reports(e, Healthy) && ProbeCompletes(o, s.config) && Degraded(o, s, e.latency)))
    ensures Step(o, s, e).limit < o.limit ==>
              Step(o, s, e).limit == MaxNat(o.limit / 2, s.config.min)
  {
  }

  // ----- The ratchet -----

  lemma StepHalvesCeiling(s: Shared, o: Origin, e: Event)
    requires s.config.Usable() && WithinLimits(s.config, o) && s.ceilingRecovery.None?
    ensures Step(o, s, e).ceiling <= o.ceiling
    ensures IsBackpressure(e) ==> Step(o, s, e).ceiling <= MaxNat(o.ceiling / 2, s.config.min)
  {
  }

  lemma RatchetTurn(min: nat, max: nat, p: nat, was: nat, now: nat)
    requires p >= 1 && was <= Max(min, max / p) && now <= Max(was / 2, min)
    ensures now <= Max(min, max / (2 * p))
  {
    HalvingTwice(max, p);
  }

  /** With recovery off, `k` refusals leave the ceiling at most `max / 2^k`, or the floor. */
  lemma {:induction false} CeilingRatchet(s: Shared, h: seq<Event>)
    requires s.config.Usable() && s.ceilingRecovery.None?
    ensures After(s, h).ceiling <= Max(s.config.min, s.config.max / Pow2(CountBackpressure(h)))
  {
    if h == [] {
      assert Pow2(0) == 1;
    } else {
      var g, e := h[..|h| - 1], h[|h| - 1];
      CeilingRatchet(s, g);
      LimitsHold(s, g);
      StepHalvesCeiling(s, After(s, g), e);
      if IsBackpressure(e) {
        RatchetTurn(s.config.min, s.config.max, Pow2(CountBackpressure(g)),
                    After(s, g).ceiling, Step(After(s, g), s, e).ceiling);
      }
    }
  }

  lemma CeilingStep(s: Shared, h: seq<Event>, k: nat)
    requires s.config.Usable() && s.ceilingRecovery.None? && k < |h|
    ensures After(s, h[..k + 1]).ceiling <= After(s, h[..k]).ceiling
  {
    AfterSnoc(s, h, k);
    LimitsHold(s, h[..k]);
    StepHalvesCeiling(s, After(s, h[..k]), h[k]);
  }

  /** With recovery off the ceiling never rises between two points of a history. */
  lemma {:induction false} CeilingNeverRises(s: Shared, h: seq<Event>, i: nat, j: nat)
    requires s.config.Usable() && s.ceilingRecovery.None?
    requires i <= j <= |h|
    ensures After(s, h[..j]).ceiling <= After(s, h[..i]).ceiling
    decreases j - i
  {
    if i < j {
      CeilingNeverRises(s, h, i, j - 1);
      CeilingStep(s, h, j - 1);
    }
  }

  /** Recovery gives back at most one slot a step, and only to a ceiling below `max`. */
  lemma RecoveryIsOneSlot(s: Shared, o: Origin, e: Event)
    requires s.config.Usable() && WithinLimits(s.config, o)
    ensures Step(o, s, e).ceiling > o.ceiling ==>
              && Step(o, s, e).ceiling == o.ceiling + 1
              && Reports(e, Healthy) && RecoveryDue(o, s, e.now) && !Degraded(o, s, e.latency)
              && Step(o, s, e).ceilingSince == Some(e.now)
  {
  }

  /**
   A ceiling below `max` is due exactly when its interval has passed, or when no instant can represent
   the end of that interval: then every clean probe from the last change on gives a slot back.
   */
  lemma RecoveryIsDueIff(s: Shared, o: Origin, now: nat)
    requires s.ceilingRecovery.Some? && o.ceilingSince.Some? && o.ceiling < s.config.max
    ensures var since, interval := o.ceilingSince.value, s.ceilingRecovery.value;
            RecoveryDue(o, s, now) <==>
              (since + interval <= s.latest && since + interval <= now) || (since + interval > s.latest && since <= now)
  {
  }

  // ----- Holds -----

  /** How long a cut of the limit asks to be held: the hold, after whatever pause a refusal earned. */
  function AskedHold(s: Shared, o: Origin, e: Event): nat {
    if IsBackpressure(e)
    then SaturatingAdd(Pause(s.config, SaturatingInc(o.refusals), e.signal.value.retryAfter), s.config.hold)
    else s.config.hold
  }

  /**
   A cut of the limit holds off increases until the asked-for time has passed, exactly when some instant
   can represent that time; one that cannot be represented holds off nothing.
   */
  lemma CutHoldsIff(s: Shared, o: Origin, e: Event, later: nat)
    requires s.config.Usable() && WithinLimits(s.config, o)
    requires Step(o, s, e).limit < o.limit && e.now <= later
    ensures Holding(Step(o, s, e), later) <==>
            e.now + AskedHold(s, o, e) <= s.latest && later < e.now + AskedHold(s, o, e)
  {
    DecreaseIffRule(s, o, e);
    var returned := Released(o, s, e.now, e.latency, None);
    if IsBackpressure(e) {
      assert Step(o, s, e) == OnBackpressure(returned, s, e.now, e.signal.value.retryAfter);
    } else {
      assert Step(o, s, e) == OnHealthy(returned, s, e.now, e.latency);
    }
  }

  /** While a hold stands no report raises the limit. */
  lemma HeldLimitStaysDown(s: Shared, o: Origin, e: Event)
    requires s.config.Usable() && WithinLimits(s.config, o) && e.Release? && Holding(o, e.now)
    ensures Step(o, s, e).limit <= o.limit
  {
    IncreaseIffRule(s, o, e);
  }

  // ----- Times no instant can represent -----

  const HEALTHY: Event := Release(0, 0, Some(Healthy))
  const REFUSED: Event := Release(0, 0, Some(Backpressure(None)))

  lemma AfterTwo(s: Shared, h: seq<Event>, e: Event, f: Event)
    requires s.config.Usable()
    ensures After(s, h + [e]) == Step(After(s, h), s, e)
    ensures After(s, h + [e, f]) == Step(Step(After(s, h), s, e), s, f)
  {
    assert (h + [e])[..|h|] == h && (h + [e, f])[..|h| + 1] == h + [e];
  }

  /**
   A history in which recovery does not wait: with an interval past the last instant, the second healthy
   report after a refusal gives a slot back at the very instant of the refusal.
   */
  lemma RecoveryCanBeImmediate(s: Shared)
    requires s.config.Usable() && s.config.probe == 1 && s.config.min < s.config.max
    requires s.ceilingRecovery.Some? && s.ceilingRecovery.value > s.latest
    ensures After(s, [REFUSED]).ceiling == s.config.min
    ensures After(s, [REFUSED, HEALTHY, HEALTHY]).ceiling == s.config.min + 1
  {
    AfterTwo(s, [], REFUSED, HEALTHY);
    AfterTwo(s, [REFUSED], HEALTHY, HEALTHY);
    assert [] + [REFUSED] == [REFUSED] && [REFUSED] + [HEALTHY, HEALTHY] == [REFUSED, HEALTHY, HEALTHY];
  }

  /** Slow against a baseline of nothing. */
  function Slow(s: Shared): Event
    requires s.config.Usable()
  {
    Release(0, Threshold(s, 0) + 1, Some(Healthy))
  }

  /** Three events that raise the limit once from the start, and two that raise it once more. */
  function Risen(): seq<Event> {
    [HEALTHY, Attempt(true), HEALTHY]
  }

  lemma RisesOnce(s: Shared)
    requires s.config.Usable() && s.config.probe == 1 && s.config.cleanProbesBeforeIncrease == 1
    requires s.config.min < s.config.max
    ensures var o := After(s, Risen());
            AtEase(s, o) && o.limit == s.config.min + 1 && o.baseline == Some(0)
  {
    AfterTwo(s, [], HEALTHY, Attempt(true));
    AfterTwo(s, [HEALTHY], Attempt(true), HEALTHY);
    assert [] + [HEALTHY] == [HEALTHY] && [HEALTHY] + [Attempt(true), HEALTHY] == Risen();
  }

  /** An entry between probes, with every slot in, that nothing has refused. */
  predicate AtEase(s: Shared, o: Origin) {
    && o.inFlight == 0 && !o.refused && o.probeSamples == 0 && o.probeTotal == 0
    && o.baseline.Some? && o.ceiling == s.config.max
  }

  lemma SlowCuts(s: Shared, o: Origin)
    requires s.config.Usable() && s.config.probe == 1 && s.config.hold > s.latest
    requires AtEase(s, o) && o.baseline == Some(0) && o.limit == s.config.min + 1 && Threshold(s, 0) < DURATION_MAX
    ensures var cut := Step(o, s, Slow(s));
            AtEase(s, cut) && cut.limit == s.config.min && cut.holdUntil == Some(0) && cut.cleanProbes == 0
  {
    assert ProbeMean(o, Threshold(s, 0) + 1) == Threshold(s, 0) + 1;
  }

  lemma RisesAgain(s: Shared, o: Origin)
    requires s.config.Usable() && s.config.probe == 1 && s.config.cleanProbesBeforeIncrease == 1
    requires AtEase(s, o) && o.limit == s.config.min < s.config.max && !Holding(o, 0)
    ensures Step(Step(o, s, Attempt(true)), s, HEALTHY).limit == s.config.min + 1
  {
    var taken := Step(o, s, Attempt(true));
    assert taken.saturated;
    assert ProbeMean(taken, 0) == 0;
  }

  /**
   A history in which a hold holds off nothing: with a hold past the last instant, the limit that a slow
   probe has just cut rises again at the very instant of the cut.  A probe can be slow if some duration
   is longer than the threshold over a baseline of nothing.
   */
  lemma HoldCanVanish(s: Shared)
    requires s.config.Usable() && s.config.probe == 1 && s.config.cleanProbesBeforeIncrease == 1
    requires s.config.min < s.config.max && s.config.hold > s.latest && Threshold(s, 0) < DURATION_MAX
    ensures After(s, Risen()).limit == s.config.min + 1
    ensures After(s, Risen() + [Slow(s)]).limit == s.config.min
    ensures After(s, Risen() + [Slow(s)] + [Attempt(true), HEALTHY]).limit == s.config.min + 1
  {
    RisesOnce(s);
    SlowCuts(s, After(s, Risen()));
    AfterTwo(s, Risen(), Slow(s), HEALTHY);
    RisesAgain(s, After(s, Risen() + [Slow(s)]));
    AfterTwo(s, Risen() + [Slow(s)], Attempt(true), HEALTHY);
  }

  // ----- The 403 freeze -----

  lemma StepKeepsRefusal(s: Shared, o: Origin, e: Event)
    requires s.config.Usable() && WithinLimits(s.config, o) && o.refused
    ensures Step(o, s, e).refused && Step(o, s, e).limit <= o.limit
  {
  }

  /** One event after a remembered refusal. */
  lemma FrozenStep(s: Shared, h: seq<Event>, k: nat)
    requires s.config.Usable() && k < |h| && After(s, h[..k]).refused
    ensures After(s, h[..k + 1]).refused && After(s, h[..k + 1]).limit <= After(s, h[..k]).limit
  {
    AfterSnoc(s, h, k);
    LimitsHold(s, h[..k]);
    StepKeepsRefusal(s, After(s, h[..k]), h[k]);
  }

  lemma {:induction false} RefusalIsRemembered(s: Shared, h: seq<Event>, i: nat, j: nat)
    requires s.config.Usable()
    requires i < j <= |h| && Reports(h[i], Refused)
    ensures After(s, h[..j]).refused
    decreases j
  {
    if i < j - 1 {
      RefusalIsRemembered(s, h, i, j - 1);
      FrozenStep(s, h, j - 1);
    } else {
      AfterSnoc(s, h, j - 1);
    }
  }

  /** Once an origin has answered 403, its limit never rises again. */
  lemma {:induction false} FrozenAfterRefusal(s: Shared, h: seq<Event>, i: nat, j: nat, k: nat)
    requires s.config.Usable()
    requires i < j <= k <= |h| && Reports(h[i], Refused)
    ensures After(s, h[..k]).limit <= After(s, h[..j]).limit
    decreases k - j
  {
    if j < k {
      FrozenAfterRefusal(s, h, i, j, k - 1);
      RefusalIsRemembered(s, h, i, k - 1);
      FrozenStep(s, h, k - 1);
    }
  }

  // ----- Increase needs evidence -----

  /** Healthy reports the entry is holding as evidence. */
  function Evidence(c: Config, o: Origin): nat {
    o.cleanProbes * c.probe + o.probeSamples
  }

  /** Healthy reports the slots above the floor have been paid with, plus the evidence in hand. */
  function Spent(c: Config, o: Origin): nat
    requires c.min <= o.limit
  {
    (o.limit - c.min) * c.SlotPrice() + Evidence(c, o)
  }

  /** A healthy report adds at most one unit of evidence; nothing else adds any. */
  lemma StepEvidence(s: Shared, o: Origin, e: Event)
    requires s.config.Usable() && WithinLimits(s.config, o)
    requires Step(o, s, e).limit <= o.limit
    ensures Evidence(s.config, Step(o, s, e)) <= Evidence(s.config, o) + (if Reports(e, Healthy) then 1 else 0)
  {
    OneMore(o.cleanProbes, s.config.probe);
  }

  /** An increase happens only on evidence worth a whole slot, and clears it. */
  lemma IncreaseCosts(s: Shared, o: Origin, e: Event)
    requires s.config.Usable() && WithinLimits(s.config, o)
    requires Step(o, s, e).limit > o.limit
    ensures Reports(e, Healthy) && o.baseline.Some?
    ensures Step(o, s, e).limit == o.limit + 1
    ensures Evidence(s.config, Step(o, s, e)) == 0
    ensures Evidence(s.config, o) + 1 >= s.config.SlotPrice()
  {
    var c := s.config;
    IncreaseIffRule(s, o, e);
    OneMore(o.cleanProbes, c.probe);
    MulMono(c.cleanProbesBeforeIncrease, o.cleanProbes + 1, c.probe);
  }

  lemma StepSpends(s: Shared, o: Origin, e: Event)
    requires s.config.Usable() && WithinLimits(s.config, o)
    ensures WithinLimits(s.config, Step(o, s, e))
    ensures Spent(s.config, Step(o, s, e)) <= Spent(s.config, o) + (if Reports(e, Healthy) then 1 else 0)
  {
    StepKeepsLimits(s, o, e);
    var c, o' := s.config, Step(o, s, e);
    if o'.limit > o.limit {
      IncreaseCosts(s, o, e);
      OneMore(o.limit - c.min, c.SlotPrice());
    } else {
      StepEvidence(s, o, e);
      MulMono(o'.limit - c.min, o.limit - c.min, c.SlotPrice());
    }
  }

  /** Everything a history spent on slots, it received as healthy reports. */
  lemma {:induction false} SpentIsEarned(s: Shared, h: seq<Event>)
    requires s.config.Usable()
    ensures WithinLimits(s.config, After(s, h))
    ensures Spent(s.config, After(s, h)) <= CountHealthy(h)
  {
    if h != [] {
      SpentIsEarned(s, h[..|h| - 1]);
      StepSpends(s, After(s, h[..|h| - 1]), h[|h| - 1]);
    }
  }

  lemma SlotPricePositive(c: Config)
    requires c.Usable()
    ensures c.SlotPrice() >= 1
  {
    MulMono(1, c.cleanProbesBeforeIncrease, c.probe);
  }

  /** After `n` healthy reports the limit is at most `min + n / (clean_probes * probe)`. */
  lemma LimitIsBought(s: Shared, h: seq<Event>)
    requires s.config.Usable()
    ensures s.config.SlotPrice() >= 1
    ensures After(s, h).limit <= s.config.min + CountHealthy(h) / s.config.SlotPrice()
  {
    SpentIsEarned(s, h);
    SlotPricePositive(s.config);
    QuotientBound(After(s, h).limit - s.config.min, s.config.SlotPrice(), CountHealthy(h));
  }

  /** Every report from `i` on is healthy, and the limit does not move, up to `j`. */
  predicate CleanStretch(s: Shared, h: seq<Event>, i: nat, j: nat)
    requires s.config.Usable()
    requires i <= j <= |h|
  {
    && (forall k :: i <= k < j && IsReport(h[k]) ==> Reports(h[k], Healthy))
    && (forall k :: i <= k <= j ==> After(s, h[..k]).limit == After(s, h[..i]).limit)
  }

  function HealthyBetween(h: seq<Event>, i: nat, j: nat): nat
    requires i <= j <= |h|
    decreases j - i
  {
    if i == j then 0 else HealthyBetween(h, i, j - 1) + (if Reports(h[j - 1], Healthy) then 1 else 0)
  }

  /** A change of limit, or a report that is not healthy, throws all evidence away. */
  lemma EvidenceCleared(s: Shared, o: Origin, e: Event)
    requires s.config.Usable() && WithinLimits(s.config, o)
    requires Step(o, s, e).limit != o.limit || (IsReport(e) && !Reports(e, Healthy))
    ensures Evidence(s.config, Step(o, s, e)) == 0
  {
    if IsReport(e) && !Reports(e, Healthy) {
      assert Step(o, s, e).cleanProbes == 0;
    } else if Step(o, s, e).limit > o.limit {
      IncreaseCosts(s, o, e);
    } else {
      DecreaseIffRule(s, o, e);
      assert Step(o, s, e).cleanProbes == 0;
    }
  }

  lemma StretchGrows(s: Shared, h: seq<Event>, i: nat, j: nat)
    requires s.config.Usable() && i <= j < |h| && CleanStretch(s, h, i, j)
    requires !IsReport(h[j]) || Reports(h[j], Healthy)
    requires After(s, h[..j + 1]).limit == After(s, h[..j]).limit
    ensures CleanStretch(s, h, i, j + 1)
  {
  }

  /** The evidence in hand was gathered by one clean stretch ending now. */
  lemma {:induction false} EvidenceIsConsecutive(s: Shared, h: seq<Event>, j: nat) returns (i: nat)
    requires s.config.Usable() && j <= |h|
    ensures i <= j && CleanStretch(s, h, i, j)
    ensures Evidence(s.config, After(s, h[..j])) <= HealthyBetween(h, i, j)
  {
    if j == 0 {
      i := 0;
    } else {
      i := EvidenceIsConsecutive(s, h, j - 1);
      var o, e := After(s, h[..j - 1]), h[j - 1];
      AfterSnoc(s, h, j - 1);
      LimitsHold(s, h[..j - 1]);
      var o' := Step(o, s, e);
      if o'.limit != o.limit || (IsReport(e) && !Reports(e, Healthy)) {
        EvidenceCleared(s, o, e);
        i := j;
      } else {
        StepEvidence(s, o, e);
        StretchGrows(s, h, i, j - 1);
      }
    }
  }

  /**
   Every added slot is paid for by at least `clean_probes * probe` healthy reports with no other
   report among them, all of them later than any earlier change of the limit.
   */
  lemma IncreaseNeedsEvidence(s: Shared, h: seq<Event>, j: nat) returns (i: nat)
    requires s.config.Usable() && j < |h|
    requires After(s, h[..j + 1]).limit > After(s, h[..j]).limit
    ensures i <= j && CleanStretch(s, h, i, j)
    ensures Reports(h[j], Healthy)
    ensures HealthyBetween(h, i, j) + 1 >= s.config.SlotPrice()
  {
    i := EvidenceIsConsecutive(s, h, j);
    AfterSnoc(s, h, j);
    LimitsHold(s, h[..j]);
    IncreaseCosts(s, After(s, h[..j]), h[j]);
  }

  // ----- The first increase, and the first after a refusal -----

  /** What the entry has learned since its baseline was last thrown away. */
  predicate BaselineIsPaid(c: Config, o: Origin, n: nat) {
    match o.baseline
    case None => o.cleanProbes == 0 && o.probeSamples <= n
    case Some(_) => c.probe + Evidence(c, o) <= n
  }

  lemma StepPaysBaseline(s: Shared, o: Origin, e: Event, n: nat)
    requires s.config.Usable() && WithinLimits(s.config, o)
    requires BaselineIsPaid(s.config, o, n)
    requires !IsBackpressure(e)
    ensures BaselineIsPaid(s.config, Step(o, s, e), n + (if Reports(e, Healthy) then 1 else 0))
  {
    var c, o' := s.config, Step(o, s, e);
    if o'.limit > o.limit {
      IncreaseCosts(s, o, e);
    } else {
      StepEvidence(s, o, e);
    }
  }

  /** From any point where nothing is learned, the baseline costs one whole probe first. */
  lemma {:induction false} BaselinePaidSince(s: Shared, h: seq<Event>, i: nat, j: nat)
    requires s.config.Usable() && i <= j <= |h|
    requires i == 0 || IsBackpressure(h[i - 1])
    requires forall k :: i <= k < j ==> !IsBackpressure(h[k])
    ensures BaselineIsPaid(s.config, After(s, h[..j]), HealthyBetween(h, i, j))
    decreases j - i
  {
    if i == j {
      if i > 0 { AfterSnoc(s, h, i - 1); }
    } else {
      BaselinePaidSince(s, h, i, j - 1);
      AfterSnoc(s, h, j - 1);
      LimitsHold(s, h[..j - 1]);
      StepPaysBaseline(s, After(s, h[..j - 1]), h[j - 1], HealthyBetween(h, i, j - 1));
    }
  }

  lemma IncreaseIsPaidTwice(s: Shared, o: Origin, e: Event, n: nat)
    requires s.config.Usable() && WithinLimits(s.config, o) && BaselineIsPaid(s.config, o, n)
    requires Step(o, s, e).limit > o.limit
    ensures Reports(e, Healthy) && n + 1 >= (s.config.cleanProbesBeforeIncrease + 1) * s.config.probe
  {
    IncreaseCosts(s, o, e);
    PaidTwice(s.config, o, n);
  }

  lemma PaidTwice(c: Config, o: Origin, n: nat)
    requires o.baseline.Some? && BaselineIsPaid(c, o, n) && Evidence(c, o) + 1 >= c.SlotPrice()
    ensures n + 1 >= (c.cleanProbesBeforeIncrease + 1) * c.probe
  {
    OneMore(c.cleanProbesBeforeIncrease, c.probe);
  }

  /**
   The first increase of an entry's life, and the first after any 429 or 503, needs one probe more:
   at least `(clean_probes + 1) * probe` healthy reports.
   */
  lemma FirstIncreaseNeedsABaseline(s: Shared, h: seq<Event>, i: nat, j: nat)
    requires s.config.Usable() && i <= j < |h|
    requires i == 0 || IsBackpressure(h[i - 1])
    requires forall k :: i <= k < j ==> !IsBackpressure(h[k])
    requires After(s, h[..j + 1]).limit > After(s, h[..j]).limit
    ensures HealthyBetween(h, i, j + 1) >= (s.config.cleanProbesBeforeIncrease + 1) * s.config.probe
  {
    var o, n := After(s, h[..j]), HealthyBetween(h, i, j);
    BaselinePaidSince(s, h, i, j);
    AfterSnoc(s, h, j);
    LimitsHold(s, h[..j]);
    IncreaseIsPaidTwice(s, o, h[j], n);
    assert HealthyBetween(h, i, j + 1) == n + 1;
  }
}
