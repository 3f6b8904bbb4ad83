/**
 One cookie: reading a `Set-Cookie` field, and the eligibility checks that need no jar.

 Instants are whole seconds.  The public suffix list and the test for an IP
 literal are parameters.
 */
module Cookies {
  import opened Options
  import opened Text
  import opened CookieDates

  datatype SuffixList = SuffixList(registrable: string -> Option<string>, isIpLiteral: string -> bool)

  datatype SameSite = Strict | Lax | Anywhere

  datatype Cookie = Cookie(
    name: string,
    value: string,
    domain: string,
    hostOnly: bool,
    path: string,
    secure: bool,
    httpOnly: bool,
    sameSite: SameSite,
    partitioned: bool,
    expires: Option<int>)

  /** Who is asking, as far as `SameSite` cares. */
  datatype Context = Context(initiator: Option<string>, topLevelNavigation: bool)

  /** The request a response answers: lowercased host, path, and whether the origin is secure. */
  datatype Request = Request(host: string, path: string, secure: bool)

  const MAX_LIFETIME: int := 400 * 24 * 60 * 60
  const SECURE_PREFIX: string := "__Secure-"
  const HOST_PREFIX: string := "__Host-"

  // ----- Domains and paths -----

  predicate IsPublicSuffix(psl: SuffixList, domain: string) {
    psl.registrable(domain).None?
  }

  function SiteOf(psl: SuffixList, host: string): string {
    if psl.isIpLiteral(host) then host
    else match psl.registrable(host) case Some(site) => site case None => host
  }

  predicate DomainMatches(psl: SuffixList, host: string, domain: string) {
    || host == domain
    || (&& !psl.isIpLiteral(host)
        && EndsWith(host, domain)
        && EndsWith(host[..|host| - |domain|], "."))
  }

  function DefaultPath(requestPath: string): string {
    if !StartsWith(requestPath, "/") then "/"
    else
      match FindLast(requestPath, '/')
      case None => "/"
      case Some(i) => if i == 0 then "/" else requestPath[..i]
  }

  predicate PathMatches(requestPath: string, cookiePath: string) {
    || requestPath == cookiePath
    || (&& StartsWith(requestPath, cookiePath)
        && (EndsWith(cookiePath, "/") || (|cookiePath| < |requestPath| && requestPath[|cookiePath|] == '/')))
  }

  // ----- Eligibility -----

  predicate Expired(c: Cookie, now: int) {
    c.expires.Some? && c.expires.value <= now
  }

  predicate AppliesTo(psl: SuffixList, c: Cookie, r: Request) {
    && !(c.secure && !r.secure)
    && (if c.hostOnly then r.host == c.domain else DomainMatches(psl, r.host, c.domain))
    && PathMatches(r.path, c.path)
  }

  predicate SameSiteEligible(psl: SuffixList, c: Cookie, host: string, ctx: Context) {
    var same := ctx.initiator.Some? && SiteOf(psl, ctx.initiator.value) == SiteOf(psl, host);
    match c.sameSite
    case Anywhere => true
    case Lax => same || ctx.topLevelNavigation
    case Strict => same
  }

  predicate HasHostPrefix(name: string) {
    StartsWithIgnoreCase(name, HOST_PREFIX)
  }

  predicate HasSecurePrefix(name: string) {
    StartsWithIgnoreCase(name, SECURE_PREFIX)
  }

  predicate KeepsPrefixPromise(name: string, secure: bool, hostOnly: bool, path: string) {
    if HasHostPrefix(name) then secure && hostOnly && path == "/"
    else if HasSecurePrefix(name) then secure
    else true
  }

  /** Whether a name and value can go in a `Cookie` header without corrupting it. */
  predicate Representable(name: string, value: string) {
    && name != ""
    && AllVisible(name) && AllVisible(value)
    && ';' !in name && '=' !in name
    && ';' !in value
  }

  // ----- Reading a Set-Cookie field -----

  datatype Attributes = Attributes(
    expires: Option<int>,
    maxAge: Option<int>,
    domain: Option<string>,
    path: Option<string>,
    secure: bool,
    httpOnly: bool,
    sameSite: Option<SameSite>,
    partitioned: bool)

  const NO_ATTRIBUTES: Attributes := Attributes(None, None, None, None, false, false, None, false)

  function SameSiteNamed(v: string): Option<SameSite> {
    var lower := ToLower(v);
    if lower == "strict" then Some(Strict)
    else if lower == "lax" then Some(Lax)
    else if lower == "none" then Some(Anywhere)
    else None
  }

  function WithDomain(a: Attributes, v: string): Attributes {
    var stripped := if StartsWith(v, ".") then v[1..] else v;
    if stripped == "" then a else a.(domain := Some(ToLower(stripped)))
  }

  /** One attribute, its name in lower case. */
  function ReadNamed(a: Attributes, name: string, value: Option<string>): Attributes {
    if name == "expires" then
      (if value.Some? && CookieDate(value.value).Some? then a.(expires := CookieDate(value.value)) else a)
    else if name == "max-age" then
      (if value.Some? && ParseI64(value.value).Some? then a.(maxAge := ParseI64(value.value)) else a)
    else if name == "domain" then
      (if value.Some? then WithDomain(a, value.value) else a)
    else if name == "path" then
      (if value.Some? then a.(path := value) else a)
    else if name == "secure" then a.(secure := true)
    else if name == "httponly" then a.(httpOnly := true)
    else if name == "samesite" then
      (if value.Some? then a.(sameSite := SameSiteNamed(value.value)) else a)
    else if name == "partitioned" then a.(partitioned := true)
    else a
  }

  /** One trimmed, non-empty attribute segment. */
  function ReadAttribute(a: Attributes, segment: string): Attributes {
    match Find(segment, '=')
    case None => ReadNamed(a, ToLower(Trim(segment)), None)
    case Some(eq) => ReadNamed(a, ToLower(Trim(segment[..eq])), Some(Trim(segment[eq + 1..])))
  }

  function ReadAttributes(segments: seq<string>): Attributes {
    if segments == [] then NO_ATTRIBUTES
    else
      var before := ReadAttributes(segments[..|segments| - 1]);
      var last := Trim(segments[|segments| - 1]);
      if last == "" then before else ReadAttribute(before, last)
  }

  function Unquoted(value: string): string {
    if |value| >= 2 && value[0] == '"' && value[|value| - 1] == '"' then value[1..|value| - 1] else value
  }

  /** The name and value in front of the first `;`. */
  function ReadPair(first: string): Option<(string, string)> {
    var pair := Trim(first);
    match Find(pair, '=')
    case None => None
    case Some(eq) =>
      var name := Trim(pair[..eq]);
      if name == "" then None else Some((name, Unquoted(Trim(pair[eq + 1..]))))
  }

  /** Where the cookie is scoped, or `None` when its `Domain` is refused. */
  function Scope(psl: SuffixList, domain: Option<string>, host: string): Option<(string, bool)> {
    match domain
    case None => Some((host, true))
    case Some(d) =>
      if psl.isIpLiteral(host) then (if d == host then Some((host, true)) else None)
      else if IsPublicSuffix(psl, d) || !DomainMatches(psl, host, d) then None
      else Some((d, false))
  }

  function Expiry(a: Attributes, now: int): Option<int> {
    var cap := now + MAX_LIFETIME;
    match a.maxAge
    case Some(seconds) => if seconds <= 0 then Some(now) else Some(Min(now + seconds, cap))
    case None =>
      match a.expires
      case Some(e) => Some(Min(e, cap))
      case None => None
  }

  function PathOf(a: Attributes, requestPath: string): string {
    if a.path.Some? && StartsWith(a.path.value, "/") then a.path.value else DefaultPath(requestPath)
  }

  /** Everything after the attributes have been read. */
  function Resolve(psl: SuffixList, name: string, value: string, a: Attributes, r: Request, now: int): Option<Cookie> {
    match Scope(psl, a.domain, r.host)
    case None => None
    case Some((domain, hostOnly)) =>
      var path := PathOf(a, r.path);
      var sameSite := if a.sameSite.Some? then a.sameSite.value else Lax;
      if sameSite == Anywhere && !a.secure then None
      else if && (HasHostPrefix(name) || HasSecurePrefix(name))
              && (!r.secure || !KeepsPrefixPromise(name, a.secure, a.domain.None?, path)) then None
      else
        Some(Cookie(name, value, domain, hostOnly, path, a.secure, a.httpOnly, sameSite, a.partitioned, Expiry(a, now)))
  }

  /** A whole `Set-Cookie` field value. */
  function SetCookie(psl: SuffixList, header: string, r: Request, now: int): Option<Cookie> {
    if !AllVisible(header) then None
    else
      var segments := Split(header, ';');
      match ReadPair(segments[0])
      case None => None
      case Some((name, value)) => Resolve(psl, name, value, ReadAttributes(segments[1..]), r, now)
  }

  /** The parser's own loop over the attribute segments. */
  method ReadSegments(segments: seq<string>) returns (a: Attributes)
    ensures a == ReadAttributes(segments)
  {
    a := NO_ATTRIBUTES;
    for i := 0 to |segments|
      invariant a == ReadAttributes(segments[..i])
    {
      assert segments[..i + 1][..i] == segments[..i];
      var segment := Trim(segments[i]);
      if segment != "" {
        a := ReadAttribute(a, segment);
      }
    }
    assert segments[..|segments|] == segments;
  }

  method ParseSetCookie(psl: SuffixList, header: string, r: Request, now: int) returns (c: Option<Cookie>)
    ensures c == SetCookie(psl, header, r, now)
  {
    if !AllVisible(header) { return None; }
    var segments := Split(header, ';');
    var pair := ReadPair(segments[0]);
    if pair.None? { return None; }
    var (name, value) := pair.value;
    var attributes := ReadSegments(segments[1..]);
    c := Resolve(psl, name, value, attributes, r, now);
  }

  // ----- What every parsed cookie keeps -----

  /** Text free of anything that could end a pair or a header. */
  predicate Clean(s: string) {
    forall i :: 0 <= i < |s| ==> IsVisible(s[i]) && s[i] != ';'
  }

  lemma TrimKeeps(s: string, c: char)
    ensures Clean(s) ==> Clean(Trim(s))
    ensures c !in s ==> c !in Trim(s)
  {
  }

  /** The parts of a clean pair are clean, and the name holds no `=`. */
  lemma PairIsClean(first: string)
    requires Clean(first)
    ensures ReadPair(first).Some? ==>
              && Clean(ReadPair(first).value.0) && Clean(ReadPair(first).value.1)
              && '=' !in ReadPair(first).value.0 && ReadPair(first).value.0 != ""
  {
    var pair := Trim(first);
    TrimKeeps(first, '=');
    var eq := Find(pair, '=');
    if eq.Some? {
      var left, right := pair[..eq.value], pair[eq.value + 1..];
      assert Clean(left) && Clean(right);
      TrimKeeps(left, '=');
      TrimKeeps(right, '=');
      assert Clean(Unquoted(Trim(right)));
    }
  }

  lemma FirstSegmentIsClean(header: string)
    requires AllVisible(header)
    ensures Clean(Split(header, ';')[0])
  {
    PiecesOf(header, ';');
    var first := Split(header, ';')[0];
    forall i | 0 <= i < |first| ensures IsVisible(first[i]) && first[i] != ';' {
      assert first[i] in header;
      assert first[i] in first;
    }
  }

  lemma PairIsRepresentable(header: string)
    requires AllVisible(header)
    ensures var first := Split(header, ';')[0];
            ReadPair(first).Some? ==> Representable(ReadPair(first).value.0, ReadPair(first).value.1)
  {
    FirstSegmentIsClean(header);
    PairIsClean(Split(header, ';')[0]);
  }

  /** What is true of a cookie however it came into the jar. */
  predicate Sound(c: Cookie) {
    && Representable(c.name, c.value)
    && KeepsPrefixPromise(c.name, c.secure, c.hostOnly, c.path)
  }

  /** Every cookie `Set-Cookie` yields can go in a header and keeps its prefix's promise. */
  lemma ParsedIsSound(psl: SuffixList, header: string, r: Request, now: int)
    ensures SetCookie(psl, header, r, now).Some? ==> Sound(SetCookie(psl, header, r, now).value)
  {
    if AllVisible(header) {
      PairIsRepresentable(header);
    }
  }

  lemma DefaultPathIsRooted(requestPath: string)
    ensures StartsWith(DefaultPath(requestPath), "/")
  {
  }

  /** Whatever `Resolve` lets through is bounded and scoped by the request. */
  lemma ResolvedIsBounded(psl: SuffixList, name: string, value: string, a: Attributes, r: Request, now: int)
    ensures var c := Resolve(psl, name, value, a, r, now);
            c.Some? ==>
              && (HasHostPrefix(c.value.name) || HasSecurePrefix(c.value.name) ==> r.secure)
              && (c.value.expires.Some? ==> c.value.expires.value <= now + MAX_LIFETIME)
              && (c.value.sameSite == Anywhere ==> c.value.secure)
              && StartsWith(c.value.path, "/")
              && (if c.value.hostOnly then c.value.domain == r.host else DomainMatches(psl, r.host, c.value.domain))
  {
    DefaultPathIsRooted(r.path);
  }
}
