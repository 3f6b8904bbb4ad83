/**
 One origin's entry as a value, the step each signal makes of it, and the object
 whose methods take those steps in place.

 Durations and instants are nanoseconds.  Durations saturate at their largest
 value.  Instants end at the latest one the platform represents; a deadline past
 it falls back to the instant it was counted from.  Scaling a duration by a
 floating-point factor is a parameter.
 */
module AdaptiveLaw {
  import opened Options

  type U32 = n: nat | n <= 0xFFFF_FFFF

  const U32_MAX: nat := 0xFFFF_FFFF
  const DURATION_MAX: nat := 0xFFFF_FFFF_FFFF_FFFF * 1_000_000_000 + 999_999_999
  const DEGRADATION_FLOOR: nat := 5_000_000
  const BASELINE_DRIFT: real := 1.05
  const ONE_DAY: nat := 86_400_000_000_000

  datatype Float = Finite(value: real) | NotFinite

  datatype Config = Config(
    min: nat,
    max: nat,
    probe: nat,
    cleanProbesBeforeIncrease: U32,
    degradation: Float,
    hold: nat,
    cooldown: nat,
    maxCooldown: nat,
    maxPause: nat,
    capacity: nat)
  {
    predicate Usable() {
      && 1 <= min <= max
      && 1 <= probe
      && 1 <= cleanProbesBeforeIncrease
      && degradation.Finite? && degradation.value > 1.0
      && cooldown <= maxCooldown
      && maxPause <= ONE_DAY
      && 1 <= capacity
    }

    /** Whatever was configured, what the law runs under is usable. */
    function Sanitised(): (c: Config)
      ensures c.Usable()
      ensures Usable() ==> c == this
      ensures c.min >= min && c.max >= max && c.probe >= probe && c.maxPause <= maxPause
      ensures c.hold == hold && c.cooldown == cooldown
      ensures c.degradation != degradation ==> c.degradation == Finite(2.0)
    {
      var floor := MaxNat(min, 1);
      Config(
        floor,
        MaxNat(max, floor),
        MaxNat(probe, 1),
        if cleanProbesBeforeIncrease < 1 then 1 else cleanProbesBeforeIncrease,
        if degradation.Finite? && degradation.value > 1.0 then degradation else Finite(2.0),
        hold,
        cooldown,
        MaxNat(maxCooldown, cooldown),
        MinNat(maxPause, ONE_DAY),
        MaxNat(capacity, 1))
    }

    /** Healthy reports one added slot costs. */
    function SlotPrice(): nat {
      cleanProbesBeforeIncrease * probe
    }
  }

  /** What every entry's law is given besides the entry: settings, the last instant there is, and scaling. */
  datatype Shared = Shared(
    config: Config,
    ceilingRecovery: Option<nat>,
    latest: nat,
    scale: (nat, real) -> nat)

  datatype Signal =
    | Healthy
    | Neutral
    | Backpressure(retryAfter: Option<nat>)
    | Refused
    | Failed

  /** The value of one origin's entry. */
  datatype Origin = Origin(
    limit: nat,
    inFlight: nat,
    ceiling: nat,
    baseline: Option<nat>,
    probeTotal: nat,
    probeSamples: nat,
    cleanProbes: U32,
    saturated: bool,
    refused: bool,
    refusals: U32,
    retryAfterRequested: Option<nat>,
    resumeAt: Option<nat>,
    holdUntil: Option<nat>,
    ceilingSince: Option<nat>)

  function NewOrigin(c: Config): Origin {
    Origin(c.min, 0, c.max, None, 0, 0, 0, false, false, 0, None, None, None, None)
  }

  function SaturatingAdd(a: nat, b: nat): nat {
    MinNat(a + b, DURATION_MAX)
  }

  function SaturatingInc(n: U32): U32 {
    if n == U32_MAX then n else n + 1
  }

  function Pow2(n: nat): (p: nat)
    ensures p >= 1
  {
    if n == 0 then 1 else 2 * Pow2(n - 1)
  }

  /** `base` doubled `times` over. */
  function Doubled(base: nat, times: nat): (d: nat)
    ensures d >= base
  {
    if times == 0 then base else 2 * Doubled(base, times - 1)
  }

  /** Doubles with each refusal, thirty-one times at most, and never passes `maxCooldown`. */
  function Cooldown(c: Config, refusals: U32): nat {
    var doublings := if refusals == 0 then 0 else MinNat(refusals - 1, 31);
    MinNat(MinNat(Doubled(c.cooldown, doublings), DURATION_MAX), c.maxCooldown)
  }

  /** A named `Retry-After` up to the configured ceiling, the cooldown otherwise. */
  function Pause(c: Config, refusals: U32, retryAfter: Option<nat>): nat {
    if retryAfter.Some? then MinNat(retryAfter.value, c.maxPause) else Cooldown(c, refusals)
  }

  /** `from` plus `d`, or `from` itself when no instant can represent the sum. */
  function Deadline(s: Shared, from: nat, d: nat): nat {
    if from + d <= s.latest then from + d else from
  }

  // ----- The law as functions of the entry's value -----

  function AbandonProbe(o: Origin): Origin {
    o.(probeTotal := 0, probeSamples := 0, cleanProbes := 0)
  }

  function LimitChanged(o: Origin): Origin {
    AbandonProbe(o).(saturated := false)
  }

  function Threshold(s: Shared, baseline: nat): nat
    requires s.config.Usable()
  {
    MaxNat(s.scale(baseline, s.config.degradation.value), SaturatingAdd(baseline, DEGRADATION_FLOOR))
  }

  predicate RecoveryDue(o: Origin, s: Shared, now: nat) {
    && s.ceilingRecovery.Some?
    && o.ceiling < s.config.max
    && o.ceilingSince.Some?
    && Deadline(s, o.ceilingSince.value, s.ceilingRecovery.value) <= now
  }

  function RelaxCeiling(o: Origin, s: Shared, now: nat): Origin {
    if RecoveryDue(o, s, now) then o.(ceiling := o.ceiling + 1, ceilingSince := Some(now)) else o
  }

  predicate Holding(o: Origin, now: nat) {
    o.holdUntil.Some? && now < o.holdUntil.value
  }

  /** What a clean probe earns, once the ceiling has been given its chance to relax. */
  function Credit(o: Origin, c: Config, now: nat): Origin {
    if Holding(o, now) then o
    else
      var credited := o.(cleanProbes := SaturatingInc(o.cleanProbes));
      if || credited.cleanProbes < c.cleanProbesBeforeIncrease
         || credited.refused
         || !credited.saturated
         || credited.limit >= MinNat(credited.ceiling, c.max)
      then credited
      else LimitChanged(credited.(limit := credited.limit + 1))
  }

  function ProbeMean(o: Origin, latency: nat): nat {
    SaturatingAdd(o.probeTotal, latency) / MinNat(o.probeSamples + 1, U32_MAX)
  }

  predicate ProbeCompletes(o: Origin, c: Config) {
    o.probeSamples + 1 >= c.probe
  }

  predicate Degraded(o: Origin, s: Shared, latency: nat)
    requires s.config.Usable()
  {
    o.baseline.Some? && ProbeMean(o, latency) > Threshold(s, o.baseline.value)
  }

  function Judged(o: Origin, s: Shared, latency: nat): Origin
    requires o.baseline.Some?
  {
    o.(probeTotal := 0, probeSamples := 0,
       baseline := Some(MinNat(ProbeMean(o, latency), s.scale(o.baseline.value, BASELINE_DRIFT))))
  }

  function OnHealthy(o: Origin, s: Shared, now: nat, latency: nat): Origin
    requires s.config.Usable()
  {
    var c := s.config;
    if !ProbeCompletes(o, c) then
      o.(probeTotal := SaturatingAdd(o.probeTotal, latency), probeSamples := o.probeSamples + 1)
    else if o.baseline.None? then
      o.(probeTotal := 0, probeSamples := 0, baseline := Some(ProbeMean(o, latency)))
    else if Degraded(o, s, latency) then
      LimitChanged(Judged(o, s, latency).(
                   limit := MaxNat(o.limit / 2, c.min),
                   holdUntil := Some(Deadline(s, now, c.hold))))
    else
      Credit(RelaxCeiling(Judged(o, s, latency), s, now), c, now)
  }

  function OnBackpressure(o: Origin, s: Shared, now: nat, retryAfter: Option<nat>): Origin {
    var c := s.config;
    var learned := MaxNat(o.limit / 2, c.min);
    var ceiling := MinNat(o.ceiling, learned);
    var refusals := SaturatingInc(o.refusals);
    var pause := Pause(c, refusals, retryAfter);
    LimitChanged(o.(
                 refusals := refusals,
                 retryAfterRequested := retryAfter,
                 ceiling := ceiling,
                 limit := MinNat(o.limit, ceiling),
                 ceilingSince := Some(now),
                 resumeAt := Some(Deadline(s, now, pause)),
                 holdUntil := Some(Deadline(s, now, SaturatingAdd(pause, c.hold))),
                 baseline := None))
  }

  function OnSignal(o: Origin, s: Shared, now: nat, latency: nat, signal: Signal): Origin
    requires s.config.Usable()
  {
    match signal
    case Healthy => OnHealthy(o, s, now, latency)
    case Refused => AbandonProbe(o.(refused := true))
    case Backpressure(retryAfter) => OnBackpressure(o, s, now, retryAfter)
    case Neutral => AbandonProbe(o)
    case Failed => AbandonProbe(o)
  }

  function Released(o: Origin, s: Shared, now: nat, latency: nat, signal: Option<Signal>): Origin
    requires s.config.Usable()
  {
    var returned := o.(inFlight := if o.inFlight == 0 then 0 else o.inFlight - 1);
    if signal.Some? then OnSignal(returned, s, now, latency, signal.value) else returned
  }

  predicate SlotFree(o: Origin) {
    o.inFlight < o.limit
  }

  function Taken(o: Origin, waited: bool): Origin {
    if SlotFree(o) then o.(inFlight := o.inFlight + 1, saturated := o.saturated || waited) else o
  }

  // ----- The entry the law mutates -----

  /**
   One origin's entry: the state behind its lock, changed one field at a time by
   the methods below and only by them.
   */
  class OriginState {
    var inner: Origin

    constructor (c: Config)
      ensures inner == NewOrigin(c)
    {
      inner := NewOrigin(c);
    }

    method Abandon()
      modifies this
      ensures inner == AbandonProbe(old(inner))
    {
      inner := inner.(probeTotal := 0);
      inner := inner.(probeSamples := 0);
      inner := inner.(cleanProbes := 0);
    }

    method LimitMoved()
      modifies this
      ensures inner == LimitChanged(old(inner))
    {
      Abandon();
      inner := inner.(saturated := false);
    }

    method Relax(s: Shared, now: nat)
      modifies this
      ensures inner == RelaxCeiling(old(inner), s, now)
    {
      if s.ceilingRecovery.None? { return; }
      if inner.ceiling >= s.config.max { return; }
      if inner.ceilingSince.None? || now < Deadline(s, inner.ceilingSince.value, s.ceilingRecovery.value) { return; }
      inner := inner.(ceiling := inner.ceiling + 1);
      inner := inner.(ceilingSince := Some(now));
    }

    method RecordHealthy(s: Shared, now: nat, latency: nat)
      requires s.config.Usable()
      modifies this
      ensures inner == OnHealthy(old(inner), s, now, latency)
    {
      var c := s.config;
      inner := inner.(probeTotal := SaturatingAdd(inner.probeTotal, latency));
      inner := inner.(probeSamples := inner.probeSamples + 1);
      if inner.probeSamples < c.probe { return; }

      var samples := MinNat(inner.probeSamples, U32_MAX);
      var mean := inner.probeTotal / samples;
      assert mean == ProbeMean(old(inner), latency);
      inner := inner.(probeTotal := 0);
      inner := inner.(probeSamples := 0);

      if inner.baseline.None? {
        inner := inner.(baseline := Some(mean));
        return;
      }
      var was := inner.baseline.value;
      var threshold := MaxNat(s.scale(was, c.degradation.value), SaturatingAdd(was, DEGRADATION_FLOOR));
      var degraded := mean > threshold;
      inner := inner.(baseline := Some(MinNat(mean, s.scale(was, BASELINE_DRIFT))));
      if degraded {
        inner := inner.(limit := MaxNat(inner.limit / 2, c.min));
        inner := inner.(holdUntil := Some(Deadline(s, now, c.hold)));
        LimitMoved();
        return;
      }
      Relax(s, now);
      CreditProbe(c, now);
    }

    /** The tail of a clean probe: the hold, the run, and the four remaining conditions. */
    method CreditProbe(c: Config, now: nat)
      modifies this
      ensures inner == Credit(old(inner), c, now)
    {
      if inner.holdUntil.Some? && now < inner.holdUntil.value { return; }
      inner := inner.(cleanProbes := SaturatingInc(inner.cleanProbes));
      if inner.cleanProbes < c.cleanProbesBeforeIncrease { return; }
      if inner.refused { return; }
      if !inner.saturated { return; }
      if inner.limit >= MinNat(inner.ceiling, c.max) { return; }
      inner := inner.(limit := inner.limit + 1);
      LimitMoved();
    }

    method Refuse(s: Shared, now: nat, retryAfter: Option<nat>)
      modifies this
      ensures inner == OnBackpressure(old(inner), s, now, retryAfter)
    {
      var c := s.config;
      inner := inner.(refusals := SaturatingInc(inner.refusals));
      inner := inner.(retryAfterRequested := retryAfter);
      var learned := MaxNat(inner.limit / 2, c.min);
      inner := inner.(ceiling := MinNat(inner.ceiling, learned));
      inner := inner.(limit := MinNat(inner.limit, inner.ceiling));
      inner := inner.(ceilingSince := Some(now));
      var pause := Pause(c, inner.refusals, retryAfter);
      inner := inner.(resumeAt := Some(Deadline(s, now, pause)));
      inner := inner.(holdUntil := Some(Deadline(s, now, SaturatingAdd(pause, c.hold))));
      inner := inner.(baseline := None);
      LimitMoved();
    }

    method Apply(s: Shared, now: nat, latency: nat, signal: Signal)
      requires s.config.Usable()
      modifies this
      ensures inner == OnSignal(old(inner), s, now, latency, signal)
    {
      match signal
      case Healthy => RecordHealthy(s, now, latency);
      case Refused =>
        inner := inner.(refused := true);
        Abandon();
      case Backpressure(retryAfter) => Refuse(s, now, retryAfter);
      case Neutral => Abandon();
      case Failed => Abandon();
    }

    /** One slot fewer out, then the law's step for the signal if there is one; nobody is woken here. */
    method Release(s: Shared, now: nat, latency: nat, signal: Option<Signal>)
      requires s.config.Usable()
      modifies this
      ensures inner == Released(old(inner), s, now, latency, signal)
    {
      if inner.inFlight > 0 {
        inner := inner.(inFlight := inner.inFlight - 1);
      }
      if signal.Some? {
        Apply(s, now, latency, signal.value);
      }
    }

    method TryTakeSlot(waited: bool) returns (taken: bool)
      modifies this
      ensures taken <==> old(inner).inFlight < old(inner).limit
      ensures inner == Taken(old(inner), waited)
      ensures inner.inFlight == old(inner).inFlight + if taken then 1 else 0
      ensures inner.saturated <==> old(inner).saturated || (taken && waited)
    {
      if inner.inFlight < inner.limit {
        inner := inner.(inFlight := inner.inFlight + 1);
        if waited {
          inner := inner.(saturated := true);
        }
        return true;
      }
      return false;
    }
  }
}
