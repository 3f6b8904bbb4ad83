/** Response bodies that store themselves as they are read, and bodies that drain a 304 first. */
module CacheStreams {
  import opened Options
  import opened Headers
  import opened Octets
  import opened CacheEntries
  import opened CachePolicy
  import opened CacheStoreRuns
  import opened MemoryStores

  /** What polling an inner body can answer. */
  datatype Frame = Data(chunk: Bytes) | Trailers | Failed | End | Waiting

  /** What polling the wrapped body answers. */
  datatype Polled = Chunk(bytes: Bytes) | Error | Done | NotReady

  datatype Commit = Commit(
    key: CacheKey,
    status: nat,
    version: nat,
    headers: HeaderMap,
    selector: Selector,
    requestedAt: int,
    receivedAt: int,
    limit: nat
  )

  function EntryOf(c: Commit, body: Bytes): CacheEntry {
    CacheEntry(c.status, c.version, c.headers, body, c.selector, c.requestedAt, c.receivedAt)
  }

  // ----- Recording -----

  datatype Recorder = Recorder(buffered: Bytes, commit: Option<Commit>)

  /** One frame: the recorder after it, and the entry it commits, if any. */
  function Take(r: Recorder, f: Frame): (Recorder, Option<CacheEntry>) {
    if r.commit.None? then (r, None)
    else
      match f
      case Data(chunk) =>
        if |r.buffered| + |chunk| > r.commit.value.limit then (Recorder([], None), None)
        else (r.(buffered := r.buffered + chunk), None)
      case Trailers => (r, None)
      case Failed => (r.(commit := None), None)
      case End =>
        (Recorder([], None), if DeclaresItsLength(r.commit.value.headers, |r.buffered|)
                             then Some(EntryOf(r.commit.value, r.buffered)) else None)
      case Waiting => (r, None)
  }

  function RecorderAfter(r: Recorder, frames: seq<Frame>): Recorder
    decreases |frames|
  {
    if frames == [] then r else RecorderAfter(Take(r, frames[0]).0, frames[1..])
  }

  function OneOrNone(e: Option<CacheEntry>): seq<CacheEntry> {
    if e.Some? then [e.value] else []
  }

  /** Every entry a recorder commits while it is fed these frames. */
  function Committed(r: Recorder, frames: seq<Frame>): seq<CacheEntry>
    decreases |frames|
  {
    if frames == [] then []
    else OneOrNone(Take(r, frames[0]).1) + Committed(Take(r, frames[0]).0, frames[1..])
  }

  /** The body these frames carry, if they reach an end and no failure comes before it. */
  function WholeBody(frames: seq<Frame>, sofar: Bytes): Option<Bytes>
    decreases |frames|
  {
    if frames == [] then None
    else
      match frames[0]
      case Data(chunk) => WholeBody(frames[1..], sofar + chunk)
      case Failed => None
      case End => Some(sofar)
      case _ => WholeBody(frames[1..], sofar)
  }

  /** What a recorder ought to commit. */
  function Expected(c: Commit, body: Option<Bytes>): seq<CacheEntry> {
    if body.Some? && |body.value| <= c.limit && DeclaresItsLength(c.headers, |body.value|) then [EntryOf(c, body.value)] else []
  }

  lemma {:induction false} SilentOnceCleared(buffered: Bytes, frames: seq<Frame>)
    ensures Committed(Recorder(buffered, None), frames) == []
    decreases |frames|
  {
    if frames != [] { SilentOnceCleared(buffered, frames[1..]); }
  }

  lemma {:induction false} WholeBodyGrows(frames: seq<Frame>, sofar: Bytes)
    ensures WholeBody(frames, sofar).Some? ==> |WholeBody(frames, sofar).value| >= |sofar|
    decreases |frames|
  {
    if frames != [] {
      match frames[0] {
        case Data(chunk) => WholeBodyGrows(frames[1..], sofar + chunk);
        case _ => WholeBodyGrows(frames[1..], sofar);
      }
    }
  }

  /**
   For every sequence of frames: the recorder commits the whole body once, when the body ends without
   failing, fits the budget, and is as long as it declared; otherwise it commits nothing, ever.
   */
  lemma {:induction false} CommitIsExact(c: Commit, buffered: Bytes, frames: seq<Frame>)
    requires |buffered| <= c.limit
    ensures Committed(Recorder(buffered, Some(c)), frames) == Expected(c, WholeBody(frames, buffered))
    decreases |frames|
  {
    var r := Recorder(buffered, Some(c));
    if frames != [] {
      match frames[0] {
        case Data(chunk) =>
          if |buffered| + |chunk| > c.limit {
            SilentOnceCleared([], frames[1..]);
            WholeBodyGrows(frames[1..], buffered + chunk);
          } else {
            CommitIsExact(c, buffered + chunk, frames[1..]);
          }
        case Failed => SilentOnceCleared(buffered, frames[1..]);
        case End => SilentOnceCleared([], frames[1..]);
        case _ => CommitIsExact(c, buffered, frames[1..]);
      }
    }
  }

  /** An abandoned body, whose end was never reached, leaves nothing stored. */
  lemma AbandonedBodyIsNotStored(c: Commit, frames: seq<Frame>)
    requires End !in frames
    ensures Committed(Recorder([], Some(c)), frames) == []
  {
    CommitIsExact(c, [], frames);
    NoEndNoBody(frames, []);
  }

  lemma {:induction false} NoEndNoBody(frames: seq<Frame>, sofar: Bytes)
    requires End !in frames
    ensures WholeBody(frames, sofar).None?
    decreases |frames|
  {
    if frames != [] {
      assert frames[0] in frames;
      assert forall f :: f in frames[1..] ==> f in frames;
      NoEndNoBody(frames[1..], if frames[0].Data? then sofar + frames[0].chunk else sofar);
    }
  }

  function Answered(f: Frame): Polled {
    match f
    case Data(chunk) => Chunk(chunk)
    case Trailers => NotReady
    case Failed => Error
    case End => Done
    case Waiting => NotReady
  }

  /** How many trailers stand before the next frame that is answered. */
  function LeadingTrailers(frames: seq<Frame>): (n: nat)
    ensures n <= |frames| && (n < |frames| ==> frames[n] != Trailers)
    ensures forall i :: 0 <= i < n ==> frames[i] == Trailers
  {
    if frames == [] || frames[0] != Trailers then 0 else 1 + LeadingTrailers(frames[1..])
  }

  class Recording {
    /** The frames still to come; when there are none left the inner body is not ready. */
    var inner: seq<Frame>
    var recorder: Recorder
    const storage: MemoryStore

    constructor (inner: seq<Frame>, commit: Commit, storage: MemoryStore)
      ensures this.inner == inner && recorder == Recorder([], Some(commit)) && this.storage == storage
    {
      this.inner, this.recorder, this.storage := inner, Recorder([], Some(commit)), storage;
    }

    /** The next chunk for the caller, recorded on the way past. */
    method PollNext() returns (p: Polled)
      requires storage.Valid()
      modifies this, storage
      ensures storage.Valid()
      ensures var n := LeadingTrailers(old(inner));
              if n == |old(inner)| then p == NotReady && inner == [] && recorder == old(recorder) && storage.calls == old(storage.calls)
              else
                && inner == old(inner)[n + 1..]
                && p == Answered(old(inner)[n])
                && recorder == Take(old(recorder), old(inner)[n]).0
                && storage.calls == old(storage.calls) + PutsFor(old(recorder), Take(old(recorder), old(inner)[n]).1, old(storage.tick) + 1)
    {
      ghost var n := LeadingTrailers(inner);
      ghost var skipped: nat := 0;
      while inner != [] && inner[0] == Trailers
        invariant skipped <= n && inner == old(inner)[skipped..] && recorder == old(recorder)
        invariant storage.Valid() && storage.calls == old(storage.calls) && storage.tick == old(storage.tick)
        decreases |inner|
      {
        inner, skipped := inner[1..], skipped + 1;
      }
      assert skipped == n;
      if inner == [] { return NotReady; }
      var f := inner[0];
      inner := inner[1..];
      assert f == old(inner)[n] && inner == old(inner)[n + 1..];
      p := Answered(f);
      Step(f);
    }

    method Step(f: Frame)
      requires storage.Valid()
      modifies this`recorder, storage
      ensures storage.Valid() && recorder == Take(old(recorder), f).0
      ensures storage.calls == old(storage.calls) + PutsFor(old(recorder), Take(old(recorder), f).1, old(storage.tick) + 1)
    {
      if recorder.commit.None? { return; }
      var commit := recorder.commit.value;
      match f {
        case Data(chunk) =>
          if |recorder.buffered| + |chunk| > commit.limit {
            recorder := Recorder([], None);
          } else {
            recorder := recorder.(buffered := recorder.buffered + chunk);
          }
        case Failed =>
          recorder := recorder.(commit := None);
        case End =>
          var body := recorder.buffered;
          recorder := Recorder([], None);
          if DeclaresItsLength(commit.headers, |body|) {
            storage.Put(commit.key, EntryOf(commit, body));
          }
        case _ =>
      }
    }
  }

  function PutsFor(r: Recorder, e: Option<CacheEntry>, stamp: nat): seq<Call> {
    if e.Some? && r.commit.Some? then [Put(r.commit.value.key, e.value, stamp)] else []
  }

  // ----- Draining -----

  datatype Drainer = Drainer(inner: Option<seq<Frame>>, stored: Option<Bytes>)

  /** The frames of a 304 are discarded until it ends or fails; then the stored body is given, once. */
  function Drain(d: Drainer): (Drainer, Polled)
    decreases if d.inner.Some? then 1 + |d.inner.value| else 0
  {
    match d.inner
    case None => (d.(stored := None), if d.stored.Some? then Chunk(d.stored.value) else Done)
    case Some(frames) =>
      if frames == [] then (d, NotReady)
      else
        match frames[0]
        case Data(_) => Drain(d.(inner := Some(frames[1..])))
        case Trailers => Drain(d.(inner := Some(frames[1..])))
        case Failed => Drain(d.(inner := None))
        case End => Drain(d.(inner := None))
        case Waiting => (d.(inner := Some(frames[1..])), NotReady)
  }

  function Polls(d: Drainer, n: nat): (r: seq<Polled>)
    ensures |r| == n
    decreases n
  {
    if n == 0 then [] else [Drain(d).1] + Polls(Drain(d).0, n - 1)
  }

  lemma {:induction false} DrainStep(d: Drainer)
    ensures var (after, p) := Drain(d);
            || (p == NotReady && after.stored == d.stored && after.inner.Some?)
            || (after.inner == None && after.stored == None && p == (if d.stored.Some? then Chunk(d.stored.value) else Done))
    decreases if d.inner.Some? then 1 + |d.inner.value| else 0
  {
    if d.inner.Some? && d.inner.value != [] {
      var frames := d.inner.value;
      match frames[0] {
        case Data(_) => DrainStep(d.(inner := Some(frames[1..])));
        case Trailers => DrainStep(d.(inner := Some(frames[1..])));
        case Failed => DrainStep(d.(inner := None));
        case End => DrainStep(d.(inner := None));
        case Waiting =>
      }
    }
  }

  lemma {:induction false} SpentStaysDone(d: Drainer, n: nat)
    requires d == Drainer(None, None)
    ensures forall i :: 0 <= i < n ==> Polls(d, n)[i] == Done
  {
    if n > 0 { SpentStaysDone(d, n - 1); }
  }

  /** However often it is polled: nothing until the 304 is drained, then the stored body once, then the end. */
  lemma {:induction false} StoredBodyComesOnce(d: Drainer, body: Bytes, n: nat) returns (at: nat)
    requires d.stored == Some(body)
    ensures at <= n
    ensures forall i :: 0 <= i < at ==> Polls(d, n)[i] == NotReady
    ensures at < n ==> Polls(d, n)[at] == Chunk(body)
    ensures forall i :: at < i < n ==> Polls(d, n)[i] == Done
    decreases n
  {
    if n == 0 {
      at := 0;
    } else {
      DrainStep(d);
      var next := Drain(d).0;
      if Drain(d).1 == NotReady {
        var later := StoredBodyComesOnce(next, body, n - 1);
        at := 1 + later;
      } else {
        SpentStaysDone(next, n - 1);
        at := 0;
      }
    }
  }

  class Draining {
    var inner: Option<seq<Frame>>
    var stored: Option<Bytes>

    constructor (notModified: seq<Frame>, body: Bytes)
      ensures inner == Some(notModified) && stored == Some(body)
    {
      inner, stored := Some(notModified), Some(body);
    }

    method PollNext() returns (p: Polled)
      modifies this
      ensures (Drainer(inner, stored), p) == Drain(Drainer(old(inner), old(stored)))
    {
      while inner.Some?
        invariant Drain(Drainer(inner, stored)) == Drain(Drainer(old(inner), old(stored)))
        decreases if inner.Some? then 1 + |inner.value| else 0
      {
        var frames := inner.value;
        if frames == [] { return NotReady; }
        match frames[0] {
          case Failed => inner := None;
          case End => inner := None;
          case Waiting =>
            inner := Some(frames[1..]);
            return NotReady;
          case _ => inner := Some(frames[1..]);
        }
      }
      if stored.Some? { p := Chunk(stored.value); } else { p := Done; }
      stored := None;
    }
  }
}
