/** The cache itself, over an in-memory store. */
module HttpCaches {
  import opened Options
  import opened Headers
  import opened CacheEntries
  import opened CachePolicy
  import opened CacheStoreRuns
  import opened MemoryStores
  import opened CacheStreams
  import opened HttpCaching
  import opened CachePromises

  /** The first stored variant the request matches. */
  method SelectVariant(variants: seq<CacheEntry>, request: HeaderMap) returns (r: Option<CacheEntry>)
    ensures r == Select(variants, request)
  {
    for i := 0 to |variants|
      invariant Select(variants, request) == FirstMatch(variants, request, i)
    {
      var matches := SelectorMatches(variants[i].selector, request);
      if matches { return Some(variants[i]); }
    }
    return None;
  }

  function Removals(keys: seq<CacheKey>): seq<Call> {
    seq(|keys|, i requires 0 <= i < |keys| => Remove(keys[i]))
  }

  lemma RemovalsGrow(calls: seq<Call>, keys: seq<CacheKey>, i: nat)
    requires i < |keys|
    ensures calls + Removals(keys[..i + 1]) == calls + Removals(keys[..i]) + [Remove(keys[i])]
  {
    assert Removals(keys[..i + 1]) == Removals(keys[..i]) + [Remove(keys[i])];
  }

  /** What a verdict does to the store at once; a recorder acts later. */
  function CallsFor(v: Verdict, stamp: nat): seq<Call> {
    match v
    case PassOn(dropped) => Removals(dropped)
    case Reuse(key, refreshed, keep, _) => if keep then [Put(key, refreshed, stamp)] else [Remove(key)]
    case RecordAs(_, _) => []
  }

  class HttpCache {
    const storage: MemoryStore
    const config: CacheConfig
    const resolve: (Url, string) -> Option<Url>

    constructor (storage: MemoryStore, config: CacheConfig, resolve: (Url, string) -> Option<Url>)
      ensures this.storage == storage && this.config == config && this.resolve == resolve
    {
      this.storage, this.config, this.resolve := storage, config, resolve;
    }

    /** Consulted before a request is sent; a request set aside does not touch the store. */
    method Before(verb: string, h: HeaderMap, url: Url, now: int) returns (r: Consulted)
      requires storage.Valid()
      modifies storage
      ensures storage.Valid()
      ensures r == HttpCaching.Before(config, VariantsOf(storage.backend, old(storage.shards), KeyOf(verb, url)), verb, h, url, now)
      ensures AnswersFrom(config, VariantsOf(storage.backend, old(storage.shards), KeyOf(verb, url)), verb, h, now, r.served)
      ensures storage.calls == old(storage.calls) + if SetsAside(verb, h) then [] else [Get(KeyOf(verb, url), old(storage.tick) + 1)]
    {
      ghost var variants := VariantsOf(storage.backend, storage.shards, KeyOf(verb, url));
      r := Consult(verb, h, url, now);
      BeforeAnswersFrom(config, variants, verb, h, url, now);
    }

    method Consult(verb: string, h: HeaderMap, url: Url, now: int) returns (r: Consulted)
      requires storage.Valid()
      modifies storage
      ensures storage.Valid()
      ensures r == HttpCaching.Before(config, VariantsOf(storage.backend, old(storage.shards), KeyOf(verb, url)), verb, h, url, now)
      ensures storage.calls == old(storage.calls) + if SetsAside(verb, h) then [] else [Get(KeyOf(verb, url), old(storage.tick) + 1)]
    {
      if SetsAside(verb, h) {
        return Consulted(SetAside(verb), None, h);
      }
      var state := Exchange(KeyOf(verb, url), h, ControlOfRequest(h), now, None);
      var variants := storage.Get(state.key);
      var found := SelectVariant(variants, h);
      if found.None? {
        return Consulted(Store(state), None, h);
      }
      var e := found.value;
      if ServesAsIs(config, e, h, now) {
        return Consulted(Store(state), Some(Serve(e, CurrentAge(e, now), Hit)), h);
      }
      if !HasValidator(e.headers) {
        return Consulted(Store(state), None, h);
      }
      var headers := h;
      if Has(e.headers, "etag") {
        headers := headers["if-none-match" := [Headers.Get(e.headers, "etag").value]];
      }
      if Has(e.headers, "last-modified") {
        headers := headers["if-modified-since" := [Headers.Get(e.headers, "last-modified").value]];
      }
      state := state.(revalidating := Some(e));
      return Consulted(Store(state), None, headers);
    }

    method RemoveAll(keys: seq<CacheKey>)
      requires storage.Valid()
      modifies storage
      ensures storage.Valid() && storage.calls == old(storage.calls) + Removals(keys)
    {
      for i := 0 to |keys|
        invariant storage.Valid() && storage.calls == old(storage.calls) + Removals(keys[..i])
      {
        RemovalsGrow(old(storage.calls), keys, i);
        storage.Remove(keys[i]);
      }
      assert keys[..|keys|] == keys;
    }

    /** Records what the origin answered; the body arrives as `frames`. */
    method After(pending: Pending, url: Url, response: Response, frames: seq<Frame>, now: int)
      returns (v: Verdict, recording: Recording?, draining: Draining?)
      requires storage.Valid()
      modifies storage
      ensures storage.Valid() && v == HttpCaching.After(config, resolve, pending, url, response, now)
      ensures storage.calls == old(storage.calls) + CallsFor(v, old(storage.tick) + 1)
      ensures v.RecordAs? <==> recording != null
      ensures v.RecordAs? ==> && fresh(recording) && recording.storage == storage
                              && recording.inner == frames && recording.recorder == Recorder([], Some(v.commit))
      ensures v.Reuse? <==> draining != null
      ensures v.Reuse? ==> fresh(draining) && draining.inner == Some(frames) && draining.stored == Some(v.served.body)
    {
      recording, draining := null, null;
      match pending {
        case Aside =>
          v := PassOn([]);
        case Invalidate =>
          var dropped := Invalidated(resolve, url, response);
          RemoveAll(dropped);
          v := PassOn(dropped);
        case Store(state) =>
          if state.revalidating.Some? && Confirms(state.revalidating.value, response) {
            v := Refreshing(state, state.revalidating.value, response, now);
            KeepOrDrop(v, old(storage.calls), old(storage.tick) + 1);
            draining := new Draining(frames, v.served.body);
          } else {
            v := Admit(state, response, now);
            if v.RecordAs? {
              recording := new Recording(frames, v.commit, storage);
            }
          }
      }
    }

    /** Keeps the refreshed entry, or drops what it refreshed. */
    method KeepOrDrop(v: Verdict, ghost calls: seq<Call>, ghost stamp: nat)
      requires storage.Valid() && v.Reuse? && storage.calls == calls && storage.tick + 1 == stamp
      modifies storage
      ensures storage.Valid() && storage.calls == calls + CallsFor(v, stamp)
    {
      if v.keep {
        storage.Put(v.key, v.refreshed);
      } else {
        storage.Remove(v.key);
      }
    }

    method Refreshing(state: Exchange, e: CacheEntry, response: Response, now: int) returns (v: Verdict)
      ensures v == Reused(config, state, e, response, now)
    {
      var refreshed := Refresh(e, response.headers, state.requestedAt, now);
      var keep := Admission(config, state, refreshed.status, refreshed.headers).Ok?;
      v := Reuse(state.key, refreshed, keep, Serve(refreshed, CurrentAge(refreshed, now), Revalidated));
    }

    method Admit(state: Exchange, response: Response, now: int) returns (v: Verdict)
      requires storage.Valid()
      modifies storage
      ensures storage.Valid() && v == Admitted(config, state, response, now)
      ensures storage.calls == old(storage.calls) + CallsFor(v, old(storage.tick) + 1)
    {
      var admission := Admission(config, state, response.status, response.headers);
      if admission.Err? {
        if ControlOf(response.headers).noStore || state.revalidating.Some? {
          storage.Remove(state.key);
          v := PassOn([state.key]);
        } else {
          v := PassOn([]);
        }
      } else if response.length.Some? && response.length.value > config.maxBodyBytes {
        v := PassOn([]);
      } else {
        var headers := StripHopByHop(response.headers);
        v := RecordAs(admission.value,
                      Commit(state.key, response.status, response.version, headers,
                             SelectorOf(admission.value, state.requestHeaders), state.requestedAt, now, config.maxBodyBytes));
      }
    }
  }
}
