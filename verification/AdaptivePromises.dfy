/** What the control law promises in terms of the reports and the waiting that a history holds. */
module AdaptivePromises {
  import opened Options
  import opened AdaptiveLaw
  import opened AdaptiveRuns

  // ----- An increase needs a queue -----

  /** Only a caller that waited marks the entry as queued for, and any change of limit clears the mark. */
  lemma StepSaturates(s: Shared, o: Origin, e: Event)
    requires s.config.Usable() && WithinLimits(s.config, o) && Step(o, s, e).saturated
    ensures Step(o, s, e).limit == o.limit
    ensures o.saturated || (e == Attempt(true) && o.inFlight < o.limit)
  {
  }

  /** Event `k` is a caller that had waited and found a slot, and the limit has stood still since. */
  ghost predicate QueuedAt(s: Shared, h: seq<Event>, k: nat, j: nat)
    requires s.config.Usable() && k < j <= |h|
  {
    && h[k] == Attempt(true)
    && After(s, h[..k]).inFlight < After(s, h[..k]).limit
    && forall i :: k < i <= j ==> After(s, h[..i]).limit == After(s, h[..k]).limit
  }

  lemma StillQueued(s: Shared, h: seq<Event>, k: nat, j: nat)
    requires s.config.Usable() && k < j < |h| && QueuedAt(s, h, k, j)
    requires After(s, h[..j + 1]).limit == After(s, h[..j]).limit
    ensures QueuedAt(s, h, k, j + 1)
  {
    assert After(s, h[..j]).limit == After(s, h[..k]).limit;
  }

  lemma JustQueued(s: Shared, h: seq<Event>, k: nat)
    requires s.config.Usable() && k < |h| && h[k] == Attempt(true)
    requires After(s, h[..k]).inFlight < After(s, h[..k]).limit && After(s, h[..k + 1]).limit == After(s, h[..k]).limit
    ensures QueuedAt(s, h, k, k + 1)
  {
  }

  lemma NotQueuedAtFirst(s: Shared, h: seq<Event>)
    requires s.config.Usable()
    ensures !After(s, h[..0]).saturated
  {
    assert h[..0] == [];
  }

  lemma {:induction false} SaturatedMeansQueued(s: Shared, h: seq<Event>, j: nat) returns (k: nat)
    requires s.config.Usable() && j <= |h| && After(s, h[..j]).saturated
    ensures k < j && QueuedAt(s, h, k, j)
    decreases j
  {
    NotQueuedAtFirst(s, h);
    var before := After(s, h[..j - 1]);
    AfterSnoc(s, h, j - 1);
    LimitsHold(s, h[..j - 1]);
    StepSaturates(s, before, h[j - 1]);
    if before.saturated {
      k := SaturatedMeansQueued(s, h, j - 1);
      StillQueued(s, h, k, j - 1);
    } else {
      k := j - 1;
      JustQueued(s, h, k);
    }
  }

  /**
   In every history: whenever the limit rises, some caller had waited for a slot, and got it, since the
   limit last moved.
   */
  lemma IncreaseNeedsAQueue(s: Shared, h: seq<Event>, j: nat) returns (k: nat)
    requires s.config.Usable() && j < |h| && After(s, h[..j + 1]).limit > After(s, h[..j]).limit
    ensures k < j && QueuedAt(s, h, k, j)
  {
    AfterSnoc(s, h, j);
    LimitsHold(s, h[..j]);
    IncreaseIffRule(s, After(s, h[..j]), h[j]);
    k := SaturatedMeansQueued(s, h, j);
  }

  // ----- One probe -----

  /** The entry after further events. */
  function From(s: Shared, o: Origin, h: seq<Event>): Origin
    requires s.config.Usable()
  {
    if h == [] then o else Step(From(s, o, h[..|h| - 1]), s, h[|h| - 1])
  }

  predicate AllHealthy(h: seq<Event>) {
    forall i :: 0 <= i < |h| ==> Reports(h[i], Healthy)
  }

  function TotalLatency(h: seq<Event>): nat
    requires AllHealthy(h)
  {
    if h == [] then 0 else TotalLatency(h[..|h| - 1]) + h[|h| - 1].latency
  }

  /** The mean of a whole probe, the sum being held to the largest duration and the count to 32 bits. */
  function Mean(h: seq<Event>): nat
    requires AllHealthy(h) && h != []
  {
    MinNat(TotalLatency(h), DURATION_MAX) / MinNat(|h|, U32_MAX)
  }

  /** Part of a probe only adds to it. */
  lemma {:induction false} ProbeSoFar(s: Shared, o: Origin, h: seq<Event>)
    requires s.config.Usable() && AllHealthy(h) && |h| < s.config.probe && o.probeSamples == 0 && o.probeTotal == 0
    ensures var after := From(s, o, h);
            after == o.(inFlight := after.inFlight, probeSamples := |h|, probeTotal := MinNat(TotalLatency(h), DURATION_MAX))
    decreases |h|
  {
    if h != [] { ProbeSoFar(s, o, h[..|h| - 1]); }
  }

  lemma MeanIs(s: Shared, o: Origin, h: seq<Event>)
    requires AllHealthy(h) && h != []
    requires o.probeSamples == |h| - 1 && o.probeTotal == MinNat(TotalLatency(h[..|h| - 1]), DURATION_MAX)
    ensures ProbeMean(o, h[|h| - 1].latency) == Mean(h)
  {
  }

  /** The first probe an entry completes becomes the baseline, and decides nothing; the next starts from nothing. */
  lemma FirstProbeIsTheBaseline(s: Shared, o: Origin, h: seq<Event>)
    requires s.config.Usable() && AllHealthy(h) && |h| == s.config.probe
    requires o.probeSamples == 0 && o.probeTotal == 0 && o.baseline.None?
    ensures var after := From(s, o, h);
            && after.baseline == Some(Mean(h)) && after.limit == o.limit && after.cleanProbes == o.cleanProbes
            && after.probeSamples == 0 && after.probeTotal == 0
  {
    ProbeSoFar(s, o, h[..|h| - 1]);
    var before := From(s, o, h[..|h| - 1]);
    MeanIs(s, before, h);
  }

  /** The report that completes a probe. */
  lemma LastReportJudges(s: Shared, o: Origin, e: Event, b: nat)
    requires s.config.Usable() && WithinLimits(s.config, o) && Reports(e, Healthy)
    requires o.probeSamples + 1 == s.config.probe && o.baseline == Some(b)
    ensures var after, mean := Step(o, s, e), ProbeMean(o, e.latency);
            var slow := mean > s.scale(b, s.config.degradation.value) && mean > MinNat(b + 5_000_000, DURATION_MAX);
            && (slow ==> after.limit == MaxNat(o.limit / 2, s.config.min) && after.cleanProbes == 0)
            && (!slow ==> after.limit >= o.limit)
            && after.baseline == Some(MinNat(mean, s.scale(b, 1.05)))
            && after.probeSamples == 0 && after.probeTotal == 0
  {
  }

  /** A probe that is not slow counts, unless a hold stands: then it earns nothing and costs nothing. */
  lemma CleanProbeCounts(s: Shared, o: Origin, e: Event, b: nat)
    requires s.config.Usable() && WithinLimits(s.config, o) && Reports(e, Healthy)
    requires o.probeSamples + 1 == s.config.probe && o.baseline == Some(b)
    requires var mean := ProbeMean(o, e.latency);
             mean <= s.scale(b, s.config.degradation.value) || mean <= MinNat(b + 5_000_000, DURATION_MAX)
    ensures var after := Step(o, s, e);
            if o.holdUntil.Some? && e.now < o.holdUntil.value then after.limit == o.limit && after.cleanProbes == o.cleanProbes
            else if after.limit == o.limit then after.cleanProbes == MinNat(o.cleanProbes + 1, U32_MAX)
            else after.limit == o.limit + 1 && after.cleanProbes == 0
  {
  }

  /** A report that is neither healthy nor a 429 or 503 throws the probe away; a 403 refuses besides; all else stays. */
  lemma OtherReportsAbandon(s: Shared, o: Origin, e: Event)
    requires s.config.Usable() && (Reports(e, Neutral) || Reports(e, Failed) || Reports(e, Refused))
    ensures var after := Step(o, s, e);
            && after.probeTotal == 0 && after.probeSamples == 0 && after.cleanProbes == 0
            && after.limit == o.limit && after.ceiling == o.ceiling && after.ceilingSince == o.ceilingSince
            && after.baseline == o.baseline && after.saturated == o.saturated && after.holdUntil == o.holdUntil
            && after.refusals == o.refusals && after.resumeAt == o.resumeAt && after.retryAfterRequested == o.retryAfterRequested
            && after.refused == (o.refused || Reports(e, Refused))
  {
  }

  lemma {:induction false} FromKeepsLimits(s: Shared, o: Origin, h: seq<Event>)
    requires s.config.Usable() && WithinLimits(s.config, o)
    ensures WithinLimits(s.config, From(s, o, h))
    decreases |h|
  {
    if h != [] {
      FromKeepsLimits(s, o, h[..|h| - 1]);
      StepKeepsLimits(s, From(s, o, h[..|h| - 1]), h[|h| - 1]);
    }
  }

  /**
   Every later probe is judged by its mean: one that exceeds both the baseline scaled by the configured
   factor and the baseline plus five milliseconds halves the limit, one that does not never lowers it, and
   either way the baseline becomes the mean, but rises by no more than a twentieth.
   */
  lemma ProbeIsJudged(s: Shared, o: Origin, h: seq<Event>, b: nat)
    requires s.config.Usable() && WithinLimits(s.config, o) && AllHealthy(h) && |h| == s.config.probe
    requires o.probeSamples == 0 && o.probeTotal == 0 && o.baseline == Some(b)
    ensures var after, mean := From(s, o, h), Mean(h);
            var slow := mean > s.scale(b, s.config.degradation.value) && mean > MinNat(b + 5_000_000, DURATION_MAX);
            && (slow ==> after.limit == MaxNat(o.limit / 2, s.config.min) && after.cleanProbes == 0)
            && (!slow ==> after.limit >= o.limit)
            && after.baseline == Some(MinNat(mean, s.scale(b, 1.05)))
            && after.probeSamples == 0 && after.probeTotal == 0
  {
    ProbeSoFar(s, o, h[..|h| - 1]);
    var before := From(s, o, h[..|h| - 1]);
    FromKeepsLimits(s, o, h[..|h| - 1]);
    MeanIs(s, before, h);
    LastReportJudges(s, before, h[|h| - 1], b);
  }

  // ----- The pause after a refusal -----

  lemma {:induction false} DoubledIsAPower(base: nat, times: nat)
    ensures Doubled(base, times) == base * Pow2(times)
    decreases times
  {
    if times > 0 { DoubledIsAPower(base, times - 1); }
  }

  lemma StepCountsRefusals(s: Shared, o: Origin, e: Event)
    requires s.config.Usable()
    ensures Step(o, s, e).refusals == if IsBackpressure(e) then SaturatingInc(o.refusals) else o.refusals
    ensures !IsBackpressure(e) ==>
              Step(o, s, e).resumeAt == o.resumeAt && Step(o, s, e).retryAfterRequested == o.retryAfterRequested
  {
  }

  lemma {:induction false} RefusalsAreCounted(s: Shared, h: seq<Event>)
    requires s.config.Usable()
    ensures After(s, h).refusals == MinNat(CountBackpressure(h), U32_MAX)
    decreases |h|
  {
    if h != [] {
      RefusalsAreCounted(s, h[..|h| - 1]);
      StepCountsRefusals(s, After(s, h[..|h| - 1]), h[|h| - 1]);
    }
  }

  /** How long a refusal asks to wait: what it names, or a cooldown that doubles with each refusal before it. */
  function AskedPause(c: Config, refusalsBefore: nat, retryAfter: Option<nat>): nat {
    match retryAfter
    case Some(d) => MinNat(d, c.maxPause)
    case None => MinNat(MinNat(c.cooldown * Pow2(MinNat(refusalsBefore, 31)), DURATION_MAX), c.maxCooldown)
  }

  lemma PauseIsAsked(c: Config, refusals: U32, retryAfter: Option<nat>)
    ensures Pause(c, SaturatingInc(refusals), retryAfter) == AskedPause(c, refusals, retryAfter)
  {
    DoubledIsAPower(c.cooldown, MinNat(refusals, 31));
  }

  lemma RefusedResumes(s: Shared, o: Origin, e: Event)
    requires s.config.Usable() && IsBackpressure(e)
    ensures var pause := AskedPause(s.config, o.refusals, e.signal.value.retryAfter);
            Step(o, s, e).resumeAt == Some(if e.now + pause <= s.latest then e.now + pause else e.now)
    ensures Step(o, s, e).retryAfterRequested == e.signal.value.retryAfter
  {
    PauseIsAsked(s.config, o.refusals, e.signal.value.retryAfter);
  }

  lemma PauseSaturates(c: Config, n: nat, retryAfter: Option<nat>)
    ensures AskedPause(c, MinNat(n, U32_MAX), retryAfter) == AskedPause(c, n, retryAfter)
  {
  }

  /**
   In every history a 429 or 503 at `now` sets the entry to resume when the pause it asks for has passed:
   the `Retry-After` it names, up to the longest allowed, or the cooldown doubled once for each refusal
   before it; a pause no instant can represent ends at once.
   */
  lemma RefusalPauses(s: Shared, h: seq<Event>, j: nat)
    requires s.config.Usable() && j < |h| && IsBackpressure(h[j])
    ensures var pause := AskedPause(s.config, CountBackpressure(h[..j]), h[j].signal.value.retryAfter);
            After(s, h[..j + 1]).resumeAt == Some(if h[j].now + pause <= s.latest then h[j].now + pause else h[j].now)
    ensures After(s, h[..j + 1]).retryAfterRequested == h[j].signal.value.retryAfter
  {
    AfterSnoc(s, h, j);
    RefusalsAreCounted(s, h[..j]);
    RefusedResumes(s, After(s, h[..j]), h[j]);
    PauseSaturates(s.config, CountBackpressure(h[..j]), h[j].signal.value.retryAfter);
  }

  /** And nothing but another refusal moves that instant, or forgets what was asked. */
  lemma {:induction false} PauseStands(s: Shared, h: seq<Event>, i: nat, j: nat)
    requires s.config.Usable() && i <= j <= |h| && forall k :: i <= k < j ==> !IsBackpressure(h[k])
    ensures After(s, h[..j]).resumeAt == After(s, h[..i]).resumeAt
    ensures After(s, h[..j]).retryAfterRequested == After(s, h[..i]).retryAfterRequested
    decreases j - i
  {
    if i < j {
      PauseStands(s, h, i, j - 1);
      AfterSnoc(s, h, j - 1);
      StepCountsRefusals(s, After(s, h[..j - 1]), h[j - 1]);
    }
  }
}
