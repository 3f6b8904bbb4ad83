/** RFC 9111 as functions: which responses are admitted, how old a copy is, and what holds of everything kept. */
module CachePolicy {
  import opened Options
  import opened Text
  import opened Headers
  import opened CacheEntries
  import opened Folds

  // ----- Cache-Control -----

  datatype CacheControl = CacheControl(
    noStore: bool,
    noCache: bool,
    isPrivate: bool,
    isPublic: bool,
    mustRevalidate: bool,
    immutable: bool,
    maxAge: Option<nat>,
    sMaxage: Option<nat>
  )

  const NO_DIRECTIVES := CacheControl(false, false, false, false, false, false, None, None)

  function Unquote(value: string): string {
    if |value| >= 2 && value[0] == '"' && value[|value| - 1] == '"' then value[1..|value| - 1] else value
  }

  /** A readable argument replaces what was known; an unreadable one changes nothing. */
  function Seconds(argument: Option<string>, known: Option<nat>): Option<nat> {
    match argument
    case None => known
    case Some(text) => if DeltaSeconds(text).Some? then DeltaSeconds(text) else known
  }

  function Directive(cc: CacheControl, name: string, argument: Option<string>): CacheControl {
    var n := ToLower(name);
    CacheControl(
      cc.noStore || n == "no-store",
      cc.noCache || n == "no-cache",
      cc.isPrivate || n == "private",
      cc.isPublic || n == "public",
      cc.mustRevalidate || n == "must-revalidate",
      cc.immutable || n == "immutable",
      if n == "max-age" then Seconds(argument, cc.maxAge) else cc.maxAge,
      if n == "s-maxage" then Seconds(argument, cc.sMaxage) else cc.sMaxage)
  }

  function AbsorbToken(cc: CacheControl, token: string): CacheControl {
    if token == "" then cc
    else match Find(token, '=')
         case None => Directive(cc, token, None)
         case Some(i) => Directive(cc, Trim(token[..i]), Some(Unquote(Trim(token[i + 1..]))))
  }

  function AbsorbTokens(cc: CacheControl, tokens: seq<string>): CacheControl {
    Fold(AbsorbToken, cc, tokens)
  }

  function AbsorbLine(cc: CacheControl, value: string): CacheControl {
    if AllVisible(value) then AbsorbTokens(cc, Pieces(value)) else cc
  }

  function AbsorbLines(cc: CacheControl, values: seq<string>): CacheControl {
    Fold(AbsorbLine, cc, values)
  }

  /** Every `Cache-Control` line of a message, merged. */
  function ControlOf(h: HeaderMap): CacheControl {
    AbsorbLines(NO_DIRECTIVES, GetAll(h, "cache-control"))
  }

  predicate AsksNoCache(value: string) {
    AllVisible(value) && exists i :: 0 <= i < |Pieces(value)| && EqIgnoreCase(Pieces(value)[i], "no-cache")
  }

  /** `Pragma: no-cache` speaks only for a request that has no `Cache-Control` at all. */
  function ControlOfRequest(h: HeaderMap): CacheControl {
    var cc, pragma := ControlOf(h), GetAll(h, "pragma");
    if !Has(h, "cache-control") && (exists i :: 0 <= i < |pragma| && AsksNoCache(pragma[i])) then cc.(noCache := true) else cc
  }

  // ----- Storing -----

  datatype CacheConfig = CacheConfig(maxBodyBytes: nat, storePrivate: bool, heuristicCap: nat)

  datatype NotStorable =
    | Method
    | RequestNoStore
    | ResponseNoStore
    | Status
    | SetCookie
    | VaryStar
    | VaryUnselectable
    | Private
    | Authorization
    | NoFreshnessAndNoValidator

  predicate CacheableStatus(status: nat) {
    status in {200, 203, 204, 300, 301, 302, 307, 308, 404, 405, 410, 414, 501}
  }

  predicate HeuristicStatus(status: nat) {
    status in {200, 203, 204, 300, 301, 308, 404, 405, 410, 414, 501}
  }

  /** Request fields written after the cache has looked, which it therefore cannot select by. */
  const UNSELECTABLE: seq<string> :=
    ["cookie", "accept", "referer", "origin", "priority", "upgrade-insecure-requests",
     "sec-fetch-site", "sec-fetch-mode", "sec-fetch-user", "sec-fetch-dest",
     "sec-ch-ua-arch", "sec-ch-ua-bitness", "sec-ch-ua-model", "sec-ch-ua-platform-version",
     "sec-ch-ua-full-version-list"]

  predicate HasValidator(h: HeaderMap) {
    Has(h, "etag") || Has(h, "last-modified")
  }

  /** Section 3 of RFC 9111: the fields to select by, or the first rule that refuses. */
  function Storable(config: CacheConfig, verb: string, request: HeaderMap, requestCc: CacheControl,
                    status: nat, response: HeaderMap, responseCc: CacheControl): Result<seq<string>, NotStorable> {
    if verb != "GET" then Err(Method)
    else if requestCc.noStore then Err(RequestNoStore)
    else if responseCc.noStore then Err(ResponseNoStore)
    else if !CacheableStatus(status) then Err(Status)
    else if Has(response, "set-cookie") then Err(SetCookie)
    else match VaryNames(response)
         case None => Err(VaryStar)
         case Some(names) =>
           if exists name :: name in names && name in UNSELECTABLE then Err(VaryUnselectable)
           else if responseCc.isPrivate && !config.storePrivate then Err(Private)
           else if Has(request, "authorization") && !config.storePrivate
                   && !(responseCc.isPublic || responseCc.mustRevalidate || responseCc.sMaxage.Some?) then Err(Authorization)
           else if !(responseCc.maxAge.Some? || Has(response, "expires") || HasValidator(response)
                     || (HeuristicStatus(status) && Has(response, "last-modified"))) then Err(NoFreshnessAndNoValidator)
           else Ok(names)
  }

  // ----- Freshness -----

  const DURATION_MAX: nat := U64_MAX * SECOND + (SECOND - 1)

  function Since(later: int, earlier: int): nat {
    if earlier <= later then later - earlier else 0
  }

  function SaturatingAdd(a: nat, b: nat): nat {
    MinNat(a + b, DURATION_MAX)
  }

  /** Section 4.2.3 of RFC 9111, in nanoseconds. */
  function CurrentAge(e: CacheEntry, now: int): nat {
    var apparent := Since(e.receivedAt, EffectiveDate(e));
    var delay := Since(e.receivedAt, e.requestedAt);
    var aged := match AgeField(e) case Some(seconds) => seconds * SECOND case None => 0;
    SaturatingAdd(MaxNat(apparent, SaturatingAdd(aged, delay)), Since(now, e.receivedAt))
  }

  /** A tenth of the time since the last change, up to the cap; nothing for a change yet to come. */
  function Tenth(made: int, modified: Option<int>, cap: nat): Option<nat> {
    match modified
    case None => None
    case Some(m) => if made < m then None else Some(MinNat((made - m) / 10, cap))
  }

  /** Section 4.2.2 of RFC 9111. */
  function GuessFor(e: CacheEntry, config: CacheConfig): Option<nat> {
    if HeuristicStatus(e.status) then Tenth(EffectiveDate(e), DateField(e.headers, "last-modified"), config.heuristicCap) else None
  }

  /** Sections 4.2.1 and 4.2.2 of RFC 9111. */
  function FreshnessLifetime(e: CacheEntry, cc: CacheControl, config: CacheConfig): Option<nat> {
    if cc.maxAge.Some? then Some(cc.maxAge.value * SECOND)
    else if ExpiresField(e).Some? then Some(Since(ExpiresField(e).value, EffectiveDate(e)))
    else GuessFor(e, config)
  }

  predicate IsFresh(e: CacheEntry, cc: CacheControl, config: CacheConfig, now: int) {
    !cc.noCache && FreshnessLifetime(e, cc, config).Some? && CurrentAge(e, now) < FreshnessLifetime(e, cc, config).value
  }

  predicate RequestForcesRevalidation(cc: CacheControl) {
    cc.noCache || cc.maxAge == Some(0)
  }

  /** Once stale, stale at every later moment: no clock reading makes an entry fresh again. */
  lemma StaleStaysStale(e: CacheEntry, cc: CacheControl, config: CacheConfig, now: int, later: int)
    requires now <= later && !IsFresh(e, cc, config, now)
    ensures !IsFresh(e, cc, config, later)
  {
    assert CurrentAge(e, now) <= CurrentAge(e, later);
  }

  /** An entry is never younger than the time it has sat here, nor than the `Age` it arrived with. */
  lemma AgeCoversResidence(e: CacheEntry, now: int)
    ensures CurrentAge(e, now) >= MinNat(Since(now, e.receivedAt), DURATION_MAX)
    ensures AgeField(e).Some? ==> CurrentAge(e, now) >= MinNat(AgeField(e).value * SECOND, DURATION_MAX)
    ensures CurrentAge(e, now) <= DURATION_MAX
  {
  }

  /** A guessed lifetime is at most the cap and a tenth of the time since the last change, and is guessed only where allowed. */
  lemma GuessIsATenth(e: CacheEntry, cc: CacheControl, config: CacheConfig)
    requires cc.maxAge.None? && ExpiresField(e).None? && FreshnessLifetime(e, cc, config).Some?
    ensures var l := FreshnessLifetime(e, cc, config).value;
            && HeuristicStatus(e.status) && l <= config.heuristicCap
            && DateField(e.headers, "last-modified").Some?
            && 10 * l <= EffectiveDate(e) - DateField(e.headers, "last-modified").value
  {
  }

  // ----- What may be kept -----

  function DeclaredLength(value: string): Option<nat> {
    if AllVisible(value) then ParseUnsigned(Trim(value), U64_MAX) else None
  }

  /** Whether a body is the length its first `Content-Length` promised. */
  predicate DeclaresItsLength(h: HeaderMap, length: nat) {
    match Get(h, "content-length")
    case None => true
    case Some(declared) => DeclaredLength(declared) == Some(length)
  }

  /** Every `Content-Length` line is true of the body, not only the first. */
  predicate EveryLengthIsTrue(h: HeaderMap, length: nat) {
    forall value :: value in GetAll(h, "content-length") ==> DeclaredLength(value) == Some(length)
  }

  predicate LengthLinesAgree(h: HeaderMap) {
    var values := GetAll(h, "content-length");
    forall i :: 0 <= i < |values| ==> DeclaredLength(values[i]) == DeclaredLength(values[0])
  }

  /** Looking at the first line alone is enough exactly when the lines agree. */
  lemma LengthIsTrueIff(h: HeaderMap, length: nat)
    ensures EveryLengthIsTrue(h, length) <==> DeclaresItsLength(h, length) && LengthLinesAgree(h)
  {
    var values := GetAll(h, "content-length");
    assert forall i :: 0 <= i < |values| ==> values[i] in values;
  }

  /** Lines that disagree slip through: a one-byte body passes as `1` and `2` bytes long. */
  lemma SecondLengthIsUnchecked(h: HeaderMap)
    requires GetAll(h, "content-length") == ["1", "2"]
    ensures DeclaresItsLength(h, 1) && !EveryLengthIsTrue(h, 1)
  {
    assert "2" in GetAll(h, "content-length");
    assert Trim("1") == "1" && Trim("2") == "2";
    assert "1"[..0] == "" && "2"[..0] == "";
    assert Decimal("1") == 1 && Decimal("2") == 2;
  }

  /** What is true of every stored entry, however it came to be stored. */
  predicate Keepable(config: CacheConfig, e: CacheEntry) {
    && CacheableStatus(e.status)
    && !Has(e.headers, "set-cookie")
    && !ControlOf(e.headers).noStore
    && (ControlOf(e.headers).isPrivate ==> config.storePrivate)
    && (forall name :: name in UNSELECTABLE ==> !e.selector.Names(name))
    && |e.body| <= config.maxBodyBytes
    && DeclaresItsLength(e.headers, |e.body|)
    && (forall name :: name in HOP_BY_HOP ==> !Has(e.headers, name))
  }

  /** Stripping can only take the directives away, all together. */
  lemma StrippedControl(h: HeaderMap)
    ensures ControlOf(WithoutHopByHop(h)) == ControlOf(h) || ControlOf(WithoutHopByHop(h)) == NO_DIRECTIVES
  {
    StrippedField(h, "cache-control");
  }

  /** Section 3 of RFC 9111 without an order: everything that must hold for a response to be stored. */
  predicate MayStore(config: CacheConfig, verb: string, request: HeaderMap, requestCc: CacheControl,
                     status: nat, response: HeaderMap, responseCc: CacheControl, names: seq<string>) {
    && verb == "GET" && !requestCc.noStore && !responseCc.noStore && CacheableStatus(status)
    && !Has(response, "set-cookie") && VaryNames(response) == Some(names)
    && (forall name :: name in UNSELECTABLE ==> name !in names)
    && (responseCc.isPrivate || Has(request, "authorization") ==>
          || config.storePrivate
          || (!responseCc.isPrivate && (responseCc.isPublic || responseCc.mustRevalidate || responseCc.sMaxage.Some?)))
    && (responseCc.maxAge.Some? || Has(response, "expires") || HasValidator(response))
  }

  /** The rules tried one after another admit exactly what the whole of them allows. */
  lemma AdmittedIff(config: CacheConfig, verb: string, request: HeaderMap, requestCc: CacheControl,
                    status: nat, response: HeaderMap, responseCc: CacheControl, names: seq<string>)
    ensures Storable(config, verb, request, requestCc, status, response, responseCc) == Ok(names) <==>
            MayStore(config, verb, request, requestCc, status, response, responseCc, names)
  {
  }

  lemma StrippedIsKeepable(config: CacheConfig, response: HeaderMap, names: seq<string>, request: HeaderMap,
                           e: CacheEntry)
    requires CacheableStatus(e.status) && !Has(response, "set-cookie") && !ControlOf(response).noStore
    requires ControlOf(response).isPrivate ==> config.storePrivate
    requires forall name :: name in UNSELECTABLE ==> name !in names
    requires e.headers == WithoutHopByHop(response) && e.selector == SelectorOf(names, request)
    requires |e.body| <= config.maxBodyBytes && DeclaresItsLength(e.headers, |e.body|)
    ensures Keepable(config, e)
  {
    StrippedField(response, "set-cookie");
    StrippedControl(response);
    forall name | name in HOP_BY_HOP ensures !Has(e.headers, name) {
      StrippedField(response, name);
    }
  }

  /** A response the policy admits, stripped and with a body that fits, may be kept. */
  lemma AdmittedIsKeepable(config: CacheConfig, verb: string, request: HeaderMap, requestCc: CacheControl,
                           response: HeaderMap, names: seq<string>, e: CacheEntry)
    requires Storable(config, verb, request, requestCc, e.status, response, ControlOf(response)) == Ok(names)
    requires e.headers == WithoutHopByHop(response) && e.selector == SelectorOf(names, request)
    requires |e.body| <= config.maxBodyBytes && DeclaresItsLength(e.headers, |e.body|)
    ensures Keepable(config, e)
  {
    AdmittedIff(config, verb, request, requestCc, e.status, response, ControlOf(response), names);
    StrippedIsKeepable(config, response, names, request, e);
  }

  /** A 304 merged into a kept entry, and admitted again, is still one that may be kept. */
  lemma RefreshedIsKeepable(config: CacheConfig, verb: string, request: HeaderMap, requestCc: CacheControl,
                            e: CacheEntry, notModified: HeaderMap, requestedAt: int, receivedAt: int)
    requires Keepable(config, e)
    requires var r := Refreshed(e, notModified, requestedAt, receivedAt);
             Storable(config, verb, request, requestCc, r.status, r.headers, ControlOf(r.headers)).Ok?
    ensures Keepable(config, Refreshed(e, notModified, requestedAt, receivedAt))
  {
    MergedField(e.headers, notModified, "content-length");
    forall name | name in HOP_BY_HOP ensures !Has(Merged(e.headers, notModified), name) {
      MergedField(e.headers, notModified, name);
    }
  }
}
