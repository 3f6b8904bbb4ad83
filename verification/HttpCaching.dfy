/** What the HTTP cache does before a request and with what comes back, as decisions on values. */
module HttpCaching {
  import opened Options
  import opened Text
  import opened Headers
  import opened Octets
  import opened CacheEntries
  import opened CachePolicy
  import opened CacheStreams

  /** The head of a response, and its body's length when that is known in advance. */
  datatype Response = Response(status: nat, version: nat, headers: HeaderMap, length: Option<nat>)

  datatype CacheStatus = Hit | Revalidated

  /** A stored response on its way to the caller. */
  datatype Served = Served(status: nat, version: nat, headers: HeaderMap, body: Bytes, how: CacheStatus)

  datatype Exchange = Exchange(
    key: CacheKey,
    requestHeaders: HeaderMap,
    requestCc: CacheControl,
    requestedAt: int,
    revalidating: Option<CacheEntry>
  )

  datatype Pending = Aside | Invalidate | Store(state: Exchange)

  /** The safe methods of section 9.2.1 of RFC 9110. */
  predicate IsSafe(verb: string) {
    verb == "GET" || verb == "HEAD" || verb == "OPTIONS" || verb == "TRACE"
  }

  function SetAside(verb: string): Pending {
    if IsSafe(verb) then Aside else Invalidate
  }

  /** Section 5.1 of RFC 9111: a stored response carries its age. */
  function Serve(e: CacheEntry, age: nat, how: CacheStatus): Served {
    Served(e.status, e.version, e.headers["age" := [ToText(age / SECOND)]], e.body, how)
  }

  // ----- Before -----

  /** Requests the cache must not make conditional itself: they already are, or ask for a part. */
  predicate CallerOwnsIt(h: HeaderMap) {
    Has(h, "if-none-match") || Has(h, "if-modified-since") || Has(h, "range")
  }

  predicate SetsAside(verb: string, h: HeaderMap) {
    CallerOwnsIt(h) || verb != "GET" || ControlOfRequest(h).noStore
  }

  /** The first variant the request matches, from position `i` on. */
  function FirstMatch(variants: seq<CacheEntry>, request: HeaderMap, i: nat): (r: Option<CacheEntry>)
    requires i <= |variants|
    ensures r.Some? ==> r.value in variants && r.value.selector.Matches(request)
    ensures r.None? ==> forall k :: i <= k < |variants| ==> !variants[k].selector.Matches(request)
    decreases |variants| - i
  {
    if i == |variants| then None
    else if variants[i].selector.Matches(request) then Some(variants[i])
    else FirstMatch(variants, request, i + 1)
  }

  function Select(variants: seq<CacheEntry>, request: HeaderMap): Option<CacheEntry> {
    FirstMatch(variants, request, 0)
  }

  predicate ServesAsIs(config: CacheConfig, e: CacheEntry, request: HeaderMap, now: int) {
    IsFresh(e, ControlOf(e.headers), config, now) && !RequestForcesRevalidation(ControlOfRequest(request))
  }

  /** The request's headers with the stored validators added. */
  function Conditional(h: HeaderMap, stored: HeaderMap): HeaderMap {
    var tagged := if Has(stored, "etag") then h["if-none-match" := [Get(stored, "etag").value]] else h;
    if Has(stored, "last-modified") then tagged["if-modified-since" := [Get(stored, "last-modified").value]] else tagged
  }

  /** What `before` decides: what to remember, what to serve, and the headers to send. */
  datatype Consulted = Consulted(pending: Pending, served: Option<Served>, headers: HeaderMap)

  function Before(config: CacheConfig, variants: seq<CacheEntry>, verb: string, h: HeaderMap, url: Url, now: int): Consulted {
    if SetsAside(verb, h) then Consulted(SetAside(verb), None, h)
    else
      var state := Exchange(KeyOf(verb, url), h, ControlOfRequest(h), now, None);
      match Select(variants, h)
      case None => Consulted(Store(state), None, h)
      case Some(e) =>
        if ServesAsIs(config, e, h, now) then Consulted(Store(state), Some(Serve(e, CurrentAge(e, now), Hit)), h)
        else if !HasValidator(e.headers) then Consulted(Store(state), None, h)
        else Consulted(Store(state.(revalidating := Some(e))), None, Conditional(h, e.headers))
  }

  /** What is remembered of a consulted request: itself, and at most the variant it matched. */
  lemma PendingShape(config: CacheConfig, variants: seq<CacheEntry>, verb: string, h: HeaderMap, url: Url, now: int)
    ensures var pending := Before(config, variants, verb, h, url, now).pending;
            && (pending.Store? <==> !SetsAside(verb, h))
            && (pending.Store? ==>
                  && verb == "GET" && pending.state.key == KeyOf(verb, url) && pending.state.requestHeaders == h
                  && pending.state.requestCc == ControlOfRequest(h) && pending.state.requestedAt == now
                  && (pending.state.revalidating.None? || pending.state.revalidating == Select(variants, h)))
  {
  }

  /** The headers sent carry the remembered entry's validators, and are otherwise the caller's own. */
  lemma SentHeadersAreConditional(config: CacheConfig, variants: seq<CacheEntry>, verb: string, h: HeaderMap,
                                  url: Url, now: int, name: string)
    ensures var r := Before(config, variants, verb, h, url, now);
            var stored := if r.pending.Store? && r.pending.state.revalidating.Some? then r.pending.state.revalidating.value.headers else map[];
            GetAll(r.headers, name) ==
              if name == "if-none-match" && Has(stored, "etag") then [Get(stored, "etag").value]
              else if name == "if-modified-since" && Has(stored, "last-modified") then [Get(stored, "last-modified").value]
              else GetAll(h, name)
  {
  }

  // ----- After -----

  /** Weak and strong forms of one tag compare equal under this. */
  function OpaqueTag(tag: string): string {
    if StartsWith(tag, "W/") then tag[2..] else tag
  }

  /** Section 4.3.4 of RFC 9111: a 304 confirms the representation its validator names. */
  predicate ValidatorsAgree(stored: HeaderMap, notModified: HeaderMap) {
    Has(stored, "etag") && Has(notModified, "etag") ==>
      OpaqueTag(Get(stored, "etag").value) == OpaqueTag(Get(notModified, "etag").value)
  }

  predicate SelectsTheSameWay(stored: HeaderMap, notModified: HeaderMap) {
    Has(notModified, "vary") ==> VaryNames(stored).Some? && VaryNames(notModified) == VaryNames(stored)
  }

  predicate Confirms(e: CacheEntry, response: Response) {
    response.status == 304 && ValidatorsAgree(e.headers, response.headers) && SelectsTheSameWay(e.headers, response.headers)
  }

  function Admission(config: CacheConfig, state: Exchange, status: nat, h: HeaderMap): Result<seq<string>, NotStorable> {
    Storable(config, "GET", state.requestHeaders, state.requestCc, status, h, ControlOf(h))
  }

  /** What `after` decides. */
  datatype Verdict =
    /** Hand on the origin's own response, dropping these keys. */
    | PassOn(dropped: seq<CacheKey>)
    /** Serve the stored body, keeping the refreshed entry only if it may be kept. */
    | Reuse(key: CacheKey, refreshed: CacheEntry, keep: bool, served: Served)
    /** Hand on the origin's response through a recorder. */
    | RecordAs(names: seq<string>, commit: Commit)

  function CommitFor(config: CacheConfig, state: Exchange, response: Response, names: seq<string>, now: int): Commit {
    Commit(state.key, response.status, response.version, WithoutHopByHop(response.headers),
           SelectorOf(names, state.requestHeaders), state.requestedAt, now, config.maxBodyBytes)
  }

  /** A confirming 304: the merged response faces the storing rules afresh. */
  function Reused(config: CacheConfig, state: Exchange, e: CacheEntry, response: Response, now: int): Verdict {
    var refreshed := Refreshed(e, response.headers, state.requestedAt, now);
    Reuse(state.key, refreshed, Admission(config, state, refreshed.status, refreshed.headers).Ok?,
          Serve(refreshed, CurrentAge(refreshed, now), Revalidated))
  }

  /** Any other answer: recorded if it may be kept, and what it supersedes dropped if it may not. */
  function Admitted(config: CacheConfig, state: Exchange, response: Response, now: int): Verdict {
    match Admission(config, state, response.status, response.headers)
    case Err(_) =>
      PassOn(if ControlOf(response.headers).noStore || state.revalidating.Some? then [state.key] else [])
    case Ok(names) =>
      if response.length.Some? && response.length.value > config.maxBodyBytes then PassOn([])
      else RecordAs(names, CommitFor(config, state, response, names, now))
  }

  function Judge(config: CacheConfig, state: Exchange, response: Response, now: int): Verdict {
    if state.revalidating.Some? && Confirms(state.revalidating.value, response)
    then Reused(config, state, state.revalidating.value, response, now)
    else Admitted(config, state, response, now)
  }

  /** A field that names another target of the same origin. */
  function Referenced(resolve: (Url, string) -> Option<Url>, url: Url, h: HeaderMap, name: string): seq<CacheKey> {
    if !Has(h, name) || !AllVisible(Get(h, name).value) then []
    else
      match resolve(url, Get(h, name).value)
      case None => []
      case Some(target) => if target.origin == url.origin then [KeyOf("GET", target)] else []
  }

  /** Section 4.4 of RFC 9111: what a successful unsafe method makes untrue. */
  function Invalidated(resolve: (Url, string) -> Option<Url>, url: Url, response: Response): seq<CacheKey> {
    if response.status < 400 then
      [KeyOf("GET", url)] + Referenced(resolve, url, response.headers, "location")
      + Referenced(resolve, url, response.headers, "content-location")
    else []
  }

  function After(config: CacheConfig, resolve: (Url, string) -> Option<Url>, pending: Pending, url: Url,
                 response: Response, now: int): Verdict {
    match pending
    case Aside => PassOn([])
    case Invalidate => PassOn(Invalidated(resolve, url, response))
    case Store(state) => Judge(config, state, response, now)
  }
}
