/** A chain of guarded decoders over one shared count of wire bytes. */
module DecoderChain {
  import opened Options
  import opened Text
  import opened Octets
  import opened ContentCodings

  /** Both limits are 64-bit counts. */
  datatype Guard = Guard(maxSize: Count, maxRatio: Count)

  type Count = n: nat | n <= U64_MAX

  /** The limit an output breaks, if it breaks one: the size first, then the ratio once a wire byte was read. */
  function BrokenLimit(g: Guard, decoded: nat, encoded: nat): Option<nat> {
    var ratioLimit := MinNat(encoded * g.maxRatio, U64_MAX);
    if decoded > g.maxSize then Some(g.maxSize)
    else if encoded > 0 && decoded > ratioLimit then Some(ratioLimit)
    else None
  }

  /** Saturation changes nothing a 64-bit count can see. */
  lemma WithinLimitsIff(g: Guard, decoded: nat, encoded: nat)
    requires decoded <= U64_MAX
    ensures BrokenLimit(g, decoded, encoded).None? <==> decoded <= g.maxSize && (encoded > 0 ==> decoded <= encoded * g.maxRatio)
  {
  }

  // ----- The objects -----

  /** The compressed-byte total a whole chain measures itself against. */
  class WireTotal {
    var total: nat

    constructor ()
      ensures total == 0
    {
      total := 0;
    }
  }

  class CountingStream {
    const counted: WireTotal?

    constructor (counted: WireTotal?)
      ensures this.counted == counted
    {
      this.counted := counted;
    }

    /** A chunk pulled by the decoder passes through unchanged, counted only on the wire's own stage. */
    method Pull(chunk: Bytes) returns (passed: Bytes)
      modifies counted
      ensures passed == chunk
      ensures counted != null ==> counted.total == old(counted.total) + |chunk|
    {
      if counted != null {
        counted.total := counted.total + |chunk|;
      }
      passed := chunk;
    }
  }

  datatype Delivery = Delivered(chunk: Bytes) | TooLarge(limit: nat)

  class GuardedStream {
    const guard: Guard
    const encoded: WireTotal
    var decoded: nat

    constructor (guard: Guard, encoded: WireTotal)
      ensures this.guard == guard && this.encoded == encoded && decoded == 0
    {
      this.guard, this.encoded, this.decoded := guard, encoded, 0;
    }

    method CheckLimits() returns (r: Option<nat>)
      ensures r == BrokenLimit(guard, decoded, encoded.total)
    {
      if decoded > guard.maxSize { return Some(guard.maxSize); }
      var ratioLimit := MinNat(encoded.total * guard.maxRatio, U64_MAX);
      if encoded.total > 0 && decoded > ratioLimit { return Some(ratioLimit); }
      return None;
    }

    /** A chunk the decoder produced is counted first and handed on only if no limit is broken. */
    method Emit(chunk: Bytes) returns (d: Delivery)
      modifies this
      ensures decoded == old(decoded) + |chunk|
      ensures d == match BrokenLimit(guard, decoded, encoded.total) { case Some(limit) => TooLarge(limit) case None => Delivered(chunk) }
    {
      decoded := decoded + |chunk|;
      var broken := CheckLimits();
      if broken.Some? {
        d := TooLarge(broken.value);
      } else {
        d := Delivered(chunk);
      }
    }
  }

  // ----- The chain -----

  /** One stage: the input its decoder has pulled, all it has produced, and what of that was handed on. */
  datatype Stage = Stage(layer: Layer, pulled: Bytes, produced: Bytes, output: Bytes)

  /** `source` is what has arrived on the wire; `wire` is the shared count. */
  datatype Chain = Chain(guard: Guard, source: Bytes, wire: nat, stages: seq<Stage>)

  /** Whatever the decoders do is a sequence of these. */
  datatype Event = Pull(stage: nat, chunk: Bytes) | Emit(stage: nat, chunk: Bytes)

  function Built(g: Guard, codings: seq<Coding>): Chain {
    var layers := LayersFor(ToUndo(codings));
    Chain(g, [], 0, seq(|layers|, i requires 0 <= i < |layers| => Stage(layers[i], [], [], [])))
  }

  /** A stage can pull only what the one below has handed on; the first pulls whatever arrives. */
  predicate Enabled(c: Chain, e: Event) {
    && e.stage < |c.stages|
    && (e.Pull? && e.stage > 0 ==> c.stages[e.stage].pulled + e.chunk <= c.stages[e.stage - 1].output)
  }

  function DecodedAfter(c: Chain, e: Event): nat
    requires e.stage < |c.stages|
  {
    |c.stages[e.stage].produced| + |e.chunk|
  }

  predicate Delivers(c: Chain, e: Event)
    requires e.stage < |c.stages|
  {
    e.Emit? && BrokenLimit(c.guard, DecodedAfter(c, e), c.wire).None?
  }

  function Next(c: Chain, e: Event): Chain
    requires Enabled(c, e)
  {
    var s := c.stages[e.stage];
    match e
    case Pull(i, chunk) =>
      Chain(c.guard,
            if i == 0 then c.source + chunk else c.source,
            if s.layer.counts then c.wire + |chunk| else c.wire,
            c.stages[i := s.(pulled := s.pulled + chunk)])
    case Emit(i, chunk) =>
      var output := if Delivers(c, e) then s.output + chunk else s.output;
      c.(stages := c.stages[i := s.(produced := s.produced + chunk, output := output)])
  }

  function Run(c: Chain, events: seq<Event>): Option<Chain>
    decreases |events|
  {
    if events == [] then Some(c)
    else if !Enabled(c, events[0]) then None
    else Run(Next(c, events[0]), events[1..])
  }

  /** Only the first stage counts, and the count is exactly what arrived on the wire. */
  ghost predicate ChainOk(c: Chain) {
    && (c.stages != [] ==> c.stages[0].pulled == c.source && c.wire == |c.source|)
    && forall i :: 0 <= i < |c.stages| ==>
         && (c.stages[i].layer.counts <==> i == 0)
         && |c.stages[i].output| <= |c.stages[i].produced|
         && (i > 0 ==> c.stages[i].pulled <= c.stages[i - 1].output)
  }

  lemma BuiltIsOk(g: Guard, codings: seq<Coding>)
    ensures ChainOk(Built(g, codings))
  {
  }

  lemma NextIsOk(c: Chain, e: Event)
    requires ChainOk(c) && Enabled(c, e)
    ensures ChainOk(Next(c, e)) && Next(c, e).guard == c.guard
  {
  }

  lemma {:induction false} EveryRunIsOk(c: Chain, events: seq<Event>)
    requires ChainOk(c)
    ensures Run(c, events).Some? ==> ChainOk(Run(c, events).value) && Run(c, events).value.guard == c.guard
    decreases |events|
  {
    if events != [] && Enabled(c, events[0]) {
      NextIsOk(c, events[0]);
      EveryRunIsOk(Next(c, events[0]), events[1..]);
    }
  }

  /**
   For every accepted coding list and whatever the decoders do: when any stage hands on a chunk, all it
   has ever handed on is within the size limit and, once a byte was read, within the ratio times the
   bytes read from the origin, however many stages lie between.
   */
  lemma EndToEndBound(g: Guard, codings: seq<Coding>, events: seq<Event>, e: Event)
    requires Run(Built(g, codings), events).Some?
    requires Enabled(Run(Built(g, codings), events).value, e) && Delivers(Run(Built(g, codings), events).value, e)
    ensures var c := Next(Run(Built(g, codings), events).value, e);
            var handedOn := |c.stages[e.stage].output|;
            && handedOn <= g.maxSize
            && (|c.source| > 0 ==> handedOn <= |c.source| * g.maxRatio)
  {
    BuiltIsOk(g, codings);
    EveryRunIsOk(Built(g, codings), events);
    var before := Run(Built(g, codings), events).value;
    NextIsOk(before, e);
  }

  /**
   The ratio binds from the first wire byte on, and only from there: at each delivery the bytes handed on
   are within it exactly when something was read or nothing was handed on.
   */
  lemma RatioHoldsIff(g: Guard, codings: seq<Coding>, events: seq<Event>, e: Event)
    requires Run(Built(g, codings), events).Some?
    requires Enabled(Run(Built(g, codings), events).value, e) && Delivers(Run(Built(g, codings), events).value, e)
    ensures var c := Next(Run(Built(g, codings), events).value, e);
            var handedOn := |c.stages[e.stage].output|;
            handedOn <= |c.source| * g.maxRatio <==> |c.source| > 0 || handedOn == 0
  {
    EndToEndBound(g, codings, events, e);
  }

  /** A decoder of any format in use produces nothing until it has read something. */
  predicate ReadsFirst(c: Chain, e: Event)
    requires e.stage < |c.stages|
  {
    e.Emit? && e.chunk != [] ==> c.stages[e.stage].pulled != []
  }

  predicate AllReadFirst(c: Chain, events: seq<Event>)
    decreases |events|
  {
    events != [] && Enabled(c, events[0]) ==>
      ReadsFirst(c, events[0]) && AllReadFirst(Next(c, events[0]), events[1..])
  }

  ghost predicate Fed(c: Chain) {
    forall i :: 0 <= i < |c.stages| && c.stages[i].produced != [] ==> c.stages[i].pulled != []
  }

  lemma {:induction false} ReadersAreFed(c: Chain, events: seq<Event>)
    requires Fed(c) && AllReadFirst(c, events)
    ensures Run(c, events).Some? ==> Fed(Run(c, events).value)
    decreases |events|
  {
    if events != [] && Enabled(c, events[0]) {
      assert Fed(Next(c, events[0]));
      ReadersAreFed(Next(c, events[0]), events[1..]);
    }
  }

  /** What a stage has read came up from the origin, stage by stage. */
  lemma {:induction false} FedFromTheOrigin(c: Chain, i: nat)
    requires ChainOk(c) && Fed(c) && i < |c.stages| && c.stages[i].pulled != []
    ensures c.source != []
  {
    if i > 0 {
      assert c.stages[i - 1].output != [];
      FedFromTheOrigin(c, i - 1);
    }
  }

  /**
   With decoders that read before they produce, the ratio holds without exception: at every delivery of
   every run, at any depth, all that was handed on is within the ratio times the bytes read.
   */
  lemma RatioHoldsThroughout(g: Guard, codings: seq<Coding>, events: seq<Event>, e: Event)
    requires Run(Built(g, codings), events).Some? && AllReadFirst(Built(g, codings), events)
    requires var c := Run(Built(g, codings), events).value;
             Enabled(c, e) && Delivers(c, e) && ReadsFirst(c, e)
    ensures var c := Next(Run(Built(g, codings), events).value, e);
            |c.stages[e.stage].output| <= |c.source| * g.maxRatio
  {
    var before := Run(Built(g, codings), events).value;
    RatioHoldsIff(g, codings, events, e);
    BuiltIsOk(g, codings);
    EveryRunIsOk(Built(g, codings), events);
    ReadersAreFed(Built(g, codings), events);
    if before.stages[e.stage].pulled != [] {
      FedFromTheOrigin(before, e.stage);
    }
  }

  /** Why that is asked of the decoders: one that produced before it read would hand on a byte against none. */
  lemma OutputBeforeInput(g: Guard) returns (codings: seq<Coding>, e: Event)
    requires g.maxSize >= 1
    ensures var c := Built(g, codings);
            && Enabled(c, e) && Delivers(c, e) && !ReadsFirst(c, e)
            && |Next(c, e).source| == 0 && |Next(c, e).stages[e.stage].output| == 1
  {
    codings, e := [Gzip], Emit(0, [0]);
    assert ToUndo([Gzip]) == [Gzip] by { assert [Gzip][..0] == []; }
  }

  // ----- Undoing every coding -----

  /** Encoders with the decoders that undo them; identity encodes nothing. */
  datatype Codec = Codec(encode: (Coding, Bytes) -> Bytes, decode: (Coding, Bytes) -> Bytes)
  {
    ghost predicate Inverse() {
      && (forall coding, body :: decode(coding, encode(coding, body)) == body)
      && forall body :: encode(Identity, body) == body
    }
  }

  function Encoded(codec: Codec, codings: seq<Coding>, body: Bytes): Bytes {
    if codings == [] then body
    else codec.encode(codings[|codings| - 1], Encoded(codec, codings[..|codings| - 1], body))
  }

  /** Undoing codings one after another, each on all of what the one before produced. */
  function Decoded(codec: Codec, undo: seq<Coding>, input: Bytes): Bytes
    decreases |undo|
  {
    if undo == [] then input else Decoded(codec, undo[1..], codec.decode(undo[0], input))
  }

  /** Codings applied left to right are undone right to left. */
  lemma {:induction false} DecodedUndoesEncoded(codec: Codec, codings: seq<Coding>, body: Bytes)
    requires codec.Inverse()
    ensures Decoded(codec, ToUndo(codings), Encoded(codec, codings, body)) == body
    decreases |codings|
  {
    if codings != [] {
      var last, front := codings[|codings| - 1], codings[..|codings| - 1];
      DecodedUndoesEncoded(codec, front, body);
      if last != Identity {
        assert ToUndo(codings)[1..] == ToUndo(front);
      }
    }
  }

  function UndoneFrom(c: Chain, i: nat): seq<Coding>
    requires i <= |c.stages|
    decreases |c.stages| - i
  {
    if i == |c.stages| then [] else [c.stages[i].layer.coding] + UndoneFrom(c, i + 1)
  }

  /** From stage `i` on, every decoder has pulled all there was and produced its decoding. */
  predicate FinishedFrom(codec: Codec, c: Chain, i: nat, input: Bytes)
    requires i <= |c.stages|
    decreases |c.stages| - i
  {
    i < |c.stages| ==>
      && c.stages[i].pulled == input
      && c.stages[i].produced == codec.decode(c.stages[i].layer.coding, input)
      && FinishedFrom(codec, c, i + 1, c.stages[i].output)
  }

  /** No stage ever withheld a chunk. */
  predicate NothingWithheld(c: Chain) {
    forall i :: 0 <= i < |c.stages| ==> c.stages[i].output == c.stages[i].produced
  }

  function Final(c: Chain, input: Bytes): Bytes {
    if c.stages == [] then input else c.stages[|c.stages| - 1].output
  }

  lemma {:induction false} FinishedChainDecodes(codec: Codec, c: Chain, i: nat, input: Bytes)
    requires i <= |c.stages| && FinishedFrom(codec, c, i, input) && NothingWithheld(c)
    requires i > 0 ==> input == c.stages[i - 1].output
    ensures Decoded(codec, UndoneFrom(c, i), input) == Final(c, input)
    decreases |c.stages| - i
  {
    if i < |c.stages| {
      FinishedChainDecodes(codec, c, i + 1, c.stages[i].output);
      assert UndoneFrom(c, i)[1..] == UndoneFrom(c, i + 1);
    }
  }

  lemma {:induction false} UndoneIsToUndo(c: Chain, undo: seq<Coding>, i: nat)
    requires i <= |c.stages| == |undo| && forall k :: 0 <= k < |undo| ==> c.stages[k].layer.coding == undo[k]
    ensures UndoneFrom(c, i) == undo[i..]
    decreases |c.stages| - i
  {
    if i < |undo| { UndoneIsToUndo(c, undo, i + 1); }
  }

  /**
   Whatever order the stages worked in: once every decoder has produced the decoding of all that came to
   it and no limit has withheld anything, what leaves the last is the body the origin started from.
   */
  lemma ChainRestoresTheBody(codec: Codec, g: Guard, codings: seq<Coding>, events: seq<Event>, body: Bytes)
    requires codec.Inverse() && Run(Built(g, codings), events).Some?
    requires FinishedFrom(codec, Run(Built(g, codings), events).value, 0, Encoded(codec, codings, body))
    requires NothingWithheld(Run(Built(g, codings), events).value)
    ensures Final(Run(Built(g, codings), events).value, Encoded(codec, codings, body)) == body
  {
    var c := Run(Built(g, codings), events).value;
    LayersStay(Built(g, codings), events);
    UndoneIsToUndo(c, ToUndo(codings), 0);
    FinishedChainDecodes(codec, c, 0, Encoded(codec, codings, body));
    DecodedUndoesEncoded(codec, codings, body);
  }

  // ----- Reaching the end -----

  /** Every intermediate decoding is within both limits, measured against `wire` bytes. */
  predicate FitsFrom(codec: Codec, g: Guard, undo: seq<Coding>, input: Bytes, wire: nat)
    decreases |undo|
  {
    undo != [] ==>
      var decoding := codec.decode(undo[0], input);
      && |decoding| <= g.maxSize && (wire > 0 ==> |decoding| <= wire * g.maxRatio)
      && FitsFrom(codec, g, undo[1..], decoding, wire)
  }

  lemma {:induction false} RunInTwo(c: Chain, a: seq<Event>, b: seq<Event>)
    requires Run(c, a).Some?
    ensures Run(c, a + b) == Run(Run(c, a).value, b)
    decreases |a|
  {
    if a == [] {
      assert a + b == b;
    } else {
      assert (a + b)[1..] == a[1..] + b;
      RunInTwo(Next(c, a[0]), a[1..], b);
    }
  }

  predicate Idle(s: Stage) {
    s.pulled == [] && s.produced == [] && s.output == []
  }

  /** One stage pulls everything below it and hands on its decoding in one chunk. */
  lemma OneStage(codec: Codec, c: Chain, i: nat, input: Bytes, wire: nat) returns (events: seq<Event>)
    requires ChainOk(c) && i < |c.stages| && Idle(c.stages[i]) && (i > 0 ==> input == c.stages[i - 1].output)
    requires wire == if i == 0 then |c.source| + |input| else c.wire
    requires var decoding := codec.decode(c.stages[i].layer.coding, input);
             |decoding| <= c.guard.maxSize && (wire > 0 ==> |decoding| <= wire * c.guard.maxRatio)
    ensures var decoding := codec.decode(c.stages[i].layer.coding, input);
            && Run(c, events).Some?
            && Run(c, events).value.stages == c.stages[i := Stage(c.stages[i].layer, input, decoding, decoding)]
            && Run(c, events).value.guard == c.guard && Run(c, events).value.wire == wire
  {
    var pull, emit := Pull(i, input), Emit(i, codec.decode(c.stages[i].layer.coding, input));
    events := [pull, emit];
    assert [] + input == input;
    var pulled := Next(c, pull);
    assert events[1..] == [emit] && [emit][1..] == [];
    WithinLimitsIff(c.guard, |emit.chunk|, wire);
    assert Delivers(pulled, emit);
    var end := Next(pulled, emit);
    assert [] + emit.chunk == emit.chunk;
    assert pulled.stages[i] == c.stages[i].(pulled := input);
    assert end.stages == c.stages[i := Stage(c.stages[i].layer, input, emit.chunk, emit.chunk)];
    assert Run(c, events) == Run(pulled, [emit]) == Some(end);
  }

  lemma {:induction false} StagesFinish(codec: Codec, c: Chain, i: nat, input: Bytes, wire: nat)
    returns (events: seq<Event>)
    requires ChainOk(c) && i <= |c.stages| && NothingWithheld(c) && (i > 0 ==> input == c.stages[i - 1].output)
    requires forall k :: i <= k < |c.stages| ==> Idle(c.stages[k])
    requires wire == if i == 0 then |c.source| + |input| else c.wire
    requires FitsFrom(codec, c.guard, UndoneFrom(c, i), input, wire)
    ensures Run(c, events).Some?
    ensures |Run(c, events).value.stages| == |c.stages|
    ensures forall k :: 0 <= k < i ==> Run(c, events).value.stages[k] == c.stages[k]
    ensures FinishedFrom(codec, Run(c, events).value, i, input) && NothingWithheld(Run(c, events).value)
    decreases |c.stages| - i
  {
    if i == |c.stages| {
      events := [];
    } else {
      assert UndoneFrom(c, i)[1..] == UndoneFrom(c, i + 1) && UndoneFrom(c, i)[0] == c.stages[i].layer.coding;
      var here := OneStage(codec, c, i, input, wire);
      EveryRunIsOk(c, here);
      var next := Run(c, here).value;
      SameUndone(c, next, i + 1);
      var rest := StagesFinish(codec, next, i + 1, next.stages[i].output, wire);
      RunInTwo(c, here, rest);
      events := here + rest;
    }
  }

  lemma {:induction false} SameUndone(a: Chain, b: Chain, i: nat)
    requires i <= |a.stages| == |b.stages| && forall k :: i <= k < |a.stages| ==> a.stages[k].layer == b.stages[k].layer
    ensures UndoneFrom(a, i) == UndoneFrom(b, i)
    decreases |a.stages| - i
  {
    if i < |a.stages| { SameUndone(a, b, i + 1); }
  }

  /**
   When every intermediate decoding fits both limits the chain can be run to its end, and the body that
   leaves it is the original one.
   */
  lemma FittingBodyIsDecoded(codec: Codec, g: Guard, codings: seq<Coding>, body: Bytes) returns (events: seq<Event>)
    requires codec.Inverse()
    requires FitsFrom(codec, g, ToUndo(codings), Encoded(codec, codings, body), |Encoded(codec, codings, body)|)
    ensures Run(Built(g, codings), events).Some?
    ensures Final(Run(Built(g, codings), events).value, Encoded(codec, codings, body)) == body
  {
    var wire := Encoded(codec, codings, body);
    BuiltIsOk(g, codings);
    UndoneIsToUndo(Built(g, codings), ToUndo(codings), 0);
    events := StagesFinish(codec, Built(g, codings), 0, wire, |wire|);
    ChainRestoresTheBody(codec, g, codings, events, body);
  }

  lemma {:induction false} LayersStay(c: Chain, events: seq<Event>)
    ensures Run(c, events).Some? ==>
              && |Run(c, events).value.stages| == |c.stages|
              && forall i :: 0 <= i < |c.stages| ==> Run(c, events).value.stages[i].layer == c.stages[i].layer
    decreases |events|
  {
    if events != [] && Enabled(c, events[0]) {
      LayersStay(Next(c, events[0]), events[1..]);
    }
  }
}
