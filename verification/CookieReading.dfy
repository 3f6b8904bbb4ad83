/** What a `Set-Cookie` field means: which are accepted, and that one written out is read back as written. */
module CookieReading {
  import opened Options
  import opened Text
  import opened CivilDates
  import opened CookieDates
  import opened DateSpellings
  import opened Cookies

  // ----- Acceptance -----

  /** The directory of the request: everything before its last slash, or the root. */
  lemma DefaultPathIsTheDirectory(p: string)
    ensures var r := DefaultPath(p);
            if p != "" && p[0] == '/' && exists i :: 0 < i < |p| && p[i] == '/'
            then 0 < |r| < |p| && p[..|r|] == r && p[|r|] == '/' && '/' !in p[|r| + 1..]
            else r == "/"
  {
    assert p != "" ==> p[..1] == [p[0]];
    var last := FindLast(p, '/');
    if last.Some? { assert '/' !in p[last.value + 1..]; }
  }

  /** The domain, or a name under it. */
  predicate Covers(psl: SuffixList, domain: string, host: string) {
    || host == domain
    || (&& !psl.isIpLiteral(host) && |domain| < |host|
        && host[|host| - |domain|..] == domain && host[|host| - |domain| - 1] == '.')
  }

  lemma CoversIff(psl: SuffixList, host: string, domain: string)
    ensures DomainMatches(psl, host, domain) <==> Covers(psl, domain, host)
  {
    if |domain| <= |host| {
      var front := host[..|host| - |domain|];
      if front == "" {
        assert host[|host| - |domain|..] == host;
      } else {
        assert front[|front| - 1..] == [front[|front| - 1]] && front[|front| - 1] == host[|host| - |domain| - 1];
      }
    }
  }

  /** A `Domain` a host may ask for: an address only itself, a name only itself or what it is under, never a public suffix. */
  predicate MayScope(psl: SuffixList, domain: Option<string>, host: string) {
    domain.Some? ==>
      if psl.isIpLiteral(host) then domain.value == host
      else psl.registrable(domain.value).Some? && Covers(psl, domain.value, host)
  }

  /** What the two name prefixes ask of a cookie and of the request that sets it. */
  predicate PrefixAllows(name: string, a: Attributes, path: string, secure: bool) {
    && (HasHostPrefix(name) ==> secure && a.secure && a.domain.None? && path == "/")
    && (HasSecurePrefix(name) && !HasHostPrefix(name) ==> secure && a.secure)
  }

  /** The path given, if it is rooted; otherwise the directory of the request. */
  lemma PathIsGivenOrDefault(a: Attributes, requestPath: string)
    ensures PathOf(a, requestPath) ==
            if a.path.Some? && a.path.value != "" && a.path.value[0] == '/' then a.path.value else DefaultPath(requestPath)
  {
    if a.path.Some? && a.path.value != "" { assert a.path.value[..1] == [a.path.value[0]]; }
  }

  /** `Max-Age` decides if it is there, `Expires` otherwise; neither reaches past 400 days. */
  lemma ExpiryIs(a: Attributes, now: int)
    ensures a.maxAge.Some? && a.maxAge.value <= 0 ==> Expiry(a, now) == Some(now)
    ensures a.maxAge.Some? && 0 < a.maxAge.value <= 34_560_000 ==> Expiry(a, now) == Some(now + a.maxAge.value)
    ensures a.maxAge.Some? && a.maxAge.value > 34_560_000 ==> Expiry(a, now) == Some(now + 34_560_000)
    ensures a.maxAge.None? && a.expires.Some? && a.expires.value <= now + 34_560_000 ==> Expiry(a, now) == a.expires
    ensures a.maxAge.None? && a.expires.Some? && a.expires.value > now + 34_560_000 ==> Expiry(a, now) == Some(now + 34_560_000)
    ensures a.maxAge.None? && a.expires.None? ==> Expiry(a, now) == None
  {
  }

  /** Exactly which attributes make a cookie of a named pair, and every field of the cookie they make. */
  lemma ResolvedIff(psl: SuffixList, name: string, value: string, a: Attributes, r: Request, now: int)
    ensures var path, c := PathOf(a, r.path), Resolve(psl, name, value, a, r, now);
            && (c.Some? <==>
                  && MayScope(psl, a.domain, r.host) && (a.sameSite == Some(Anywhere) ==> a.secure)
                  && PrefixAllows(name, a, path, r.secure))
            && (c.Some? ==>
                  && c.value.name == name && c.value.value == value && c.value.path == path
                  && c.value.secure == a.secure && c.value.httpOnly == a.httpOnly && c.value.partitioned == a.partitioned
                  && c.value.sameSite == (if a.sameSite.Some? then a.sameSite.value else Lax)
                  && c.value.expires == Expiry(a, now)
                  && c.value.domain == (if a.domain.Some? then a.domain.value else r.host)
                  && c.value.hostOnly == (a.domain.None? || psl.isIpLiteral(r.host)))
  {
    if a.domain.Some? { CoversIff(psl, r.host, a.domain.value); }
  }

  /** A domain is read without its one leading dot and in lower case; nothing else of it changes, and none is no domain. */
  lemma DomainIsRead(a: Attributes, d: string)
    ensures d != "" && d[0] != '.' ==>
              WithDomain(a, d) == a.(domain := Some(ToLower(d))) && WithDomain(a, "." + d) == a.(domain := Some(ToLower(d)))
    ensures WithDomain(a, "") == a && WithDomain(a, ".") == a
  {
    assert ("." + d)[1..] == d && "."[1..] == "";
  }

  // ----- Writing a field -----

  datatype Attribute =
    | MaxAge(seconds: int)
    | Expires(weekday: nat, date: Date, time: Time)
    | Domain(domain: string)
    | Path(path: string)
    | Secure
    | HttpOnly
    | SameSiteIs(policy: SameSite)
    | Partitioned

  function IntText(n: int): string {
    if n < 0 then "-" + ToText(-n) else ToText(n)
  }

  function PolicyName(policy: SameSite): string {
    match policy case Strict => "Strict" case Lax => "Lax" case Anywhere => "None"
  }

  predicate HasValue(a: Attribute) {
    !a.Secure? && !a.HttpOnly? && !a.Partitioned?
  }

  function KeyOf(a: Attribute): string {
    match a
    case MaxAge(_) => "Max-Age"
    case Expires(_, _, _) => "Expires"
    case Domain(_) => "Domain"
    case Path(_) => "Path"
    case Secure => "Secure"
    case HttpOnly => "HttpOnly"
    case SameSiteIs(_) => "SameSite"
    case Partitioned => "Partitioned"
  }

  /** No white space at either end. */
  predicate Bare(s: string) {
    s != "" ==> !IsWhite(s[0]) && !IsWhite(s[|s| - 1])
  }

  /** Text that can stand between two semicolons. */
  predicate Quotable(s: string) {
    AllVisible(s) && ';' !in s
  }

  predicate Writable(a: Attribute) {
    match a
    case MaxAge(n) => -I64_MAX - 1 <= n <= I64_MAX
    case Expires(w, d, t) => w < 7 && ValidDate(d) && 1601 <= d.year < 10_000 && ClockTime(t)
    case Domain(d) => d != "" && d[0] != '.' && ToLower(d) == d && Bare(d) && Quotable(d)
    case Path(p) => Bare(p) && Quotable(p)
    case _ => true
  }

  function ValueOf(a: Attribute): string
    requires Writable(a) && HasValue(a)
  {
    match a
    case MaxAge(n) => IntText(n)
    case Expires(w, d, t) => ImfFixdate(w, d, t)
    case Domain(d) => d
    case Path(p) => p
    case SameSiteIs(policy) => PolicyName(policy)
  }

  function Spelled(a: Attribute): string
    requires Writable(a)
  {
    if HasValue(a) then KeyOf(a) + ['='] + ValueOf(a) else KeyOf(a)
  }

  /** What one attribute adds to what was read before it. */
  function WithAttribute(before: Attributes, a: Attribute): Attributes {
    match a
    case MaxAge(n) => before.(maxAge := Some(n))
    case Expires(_, d, t) => before.(expires := Some(Instant(d, t)))
    case Domain(d) => before.(domain := Some(d))
    case Path(p) => before.(path := Some(p))
    case Secure => before.(secure := true)
    case HttpOnly => before.(httpOnly := true)
    case SameSiteIs(policy) => before.(sameSite := Some(policy))
    case Partitioned => before.(partitioned := true)
  }

  /** The last of each kind counts. */
  function Meaning(attributes: seq<Attribute>): Attributes {
    if attributes == [] then NO_ATTRIBUTES
    else WithAttribute(Meaning(attributes[..|attributes| - 1]), attributes[|attributes| - 1])
  }

  // ----- Reading it back -----

  lemma TrimBare(s: string)
    requires Bare(s)
    ensures Trim(s) == s
  {
    if s == "" { assert Trim(s) == ""; }
  }

  lemma TrimAfterBlank(s: string)
    requires Bare(s) && s != ""
    ensures Trim(" " + s) == s
  {
    var t := " " + s;
    assert t[0] == ' ' && t[1] == s[0];
    assert SkipWhite(t, 0) == 1;
    assert t[|t| - 1] == s[|s| - 1];
    assert DropWhite(t, 1, |t|) == |t|;
    assert t[1..|t|] == s;
  }

  lemma FindAfterKey(key: string, value: string)
    requires '=' !in key
    ensures var s := key + ['='] + value;
            Find(s, '=') == Some(|key|) && s[..|key|] == key && s[|key| + 1..] == value
  {
    var s := key + ['='] + value;
    assert s[|key|] == '=';
    assert forall i :: 0 <= i < |key| ==> s[i] == key[i];
  }

  lemma NumberReadsBack(n: int)
    requires -I64_MAX - 1 <= n <= I64_MAX
    ensures ParseI64(IntText(n)) == Some(n) && Bare(IntText(n)) && Quotable(IntText(n)) && IntText(n) != ""
  {
    var m := if n < 0 then -n else n;
    ToTextReadsBack(m);
    var digits := ToText(m);
    assert forall i :: 0 <= i < |digits| ==> IsDigit(digits[i]);
    if n < 0 {
      assert ("-" + digits)[1..] == digits;
    }
  }

  /** The eight keys as the parser compares them. */
  function LowerKey(a: Attribute): string {
    match a
    case MaxAge(_) => "max-age"
    case Expires(_, _, _) => "expires"
    case Domain(_) => "domain"
    case Path(_) => "path"
    case Secure => "secure"
    case HttpOnly => "httponly"
    case SameSiteIs(_) => "samesite"
    case Partitioned => "partitioned"
  }

  predicate Lettered(s: string) {
    s != "" && forall i :: 0 <= i < |s| ==> 'A' <= s[i] <= 'Z' || 'a' <= s[i] <= 'z' || s[i] == '-'
  }

  lemma KeyIsLettered(a: Attribute)
    ensures Lettered(KeyOf(a))
  {
  }

  lemma LetteredIsWritten(s: string)
    requires Lettered(s)
    ensures '=' !in s && Bare(s) && Quotable(s)
  {
  }

  lemma KeyLowers(a: Attribute)
    ensures ToLower(KeyOf(a)) == LowerKey(a)
  {
    match a
    case MaxAge(_) => assert ToLower("Max-Age") == "max-age";
    case Expires(_, _, _) => assert ToLower("Expires") == "expires";
    case Domain(_) => assert ToLower("Domain") == "domain";
    case Path(_) => assert ToLower("Path") == "path";
    case Secure => assert ToLower("Secure") == "secure";
    case HttpOnly => assert ToLower("HttpOnly") == "httponly";
    case SameSiteIs(_) => assert ToLower("SameSite") == "samesite";
    case Partitioned => assert ToLower("Partitioned") == "partitioned";
  }

  /** A segment with a value: what is compared, and what is taken. */
  lemma SegmentReads(key: string, value: string)
    requires '=' !in key && Bare(key) && Bare(value)
    ensures var s := key + ['='] + value;
            var eq := Find(s, '=');
            && eq == Some(|key|) && Trim(s[..eq.value]) == key && Trim(s[eq.value + 1..]) == value
  {
    FindAfterKey(key, value);
    TrimBare(key);
    TrimBare(value);
  }

  predicate Solid(s: string) {
    s != "" && Bare(s)
  }

  /** Blanks around an attribute's name and value, and the case of its name, do not matter. */
  lemma BlanksDoNotMatter(a: Attributes, b1: string, key: string, b2: string, b3: string, value: string, b4: string)
    requires AllWhite(b1) && AllWhite(b2) && AllWhite(b3) && AllWhite(b4)
    requires Solid(key) && Solid(value) && '=' !in key
    ensures ReadAttribute(a, b1 + key + b2) == ReadNamed(a, ToLower(key), None)
    ensures ReadAttribute(a, (b1 + key + b2) + ['='] + (b3 + value + b4)) == ReadNamed(a, ToLower(key), Some(value))
  {
    var left, right := b1 + key + b2, b3 + value + b4;
    TrimsTo(b1, key, b2);
    TrimsTo(b3, value, b4);
    assert '=' !in left by { assert !IsWhite('='); }
    FindAfterKey(left, right);
  }

  lemma FlagReads(key: string)
    requires '=' !in key && Bare(key)
    ensures Find(key, '=') == None && Trim(key) == key
  {
    TrimBare(key);
  }

  lemma QuotableJoin(a: string, b: string)
    requires Quotable(a) && Quotable(b)
    ensures Quotable(a + b)
  {
  }

  lemma PartsAreQuotable(t: Time, n: nat, year: nat)
    requires ClockTime(t) && n < 100 && year < 10_000
    ensures Quotable(Clock(t)) && Quotable(Two(n)) && Quotable(Four(year))
  {
  }

  lemma WordIsQuotable(w: string)
    requires IsWord(w)
    ensures Quotable(w)
  {
  }

  lemma ImfIsWritten(w: nat, d: Date, t: Time)
    requires w < 7 && ValidDate(d) && 1601 <= d.year < 10_000 && ClockTime(t)
    ensures var s := ImfFixdate(w, d, t); s != "" && Bare(s) && Quotable(s)
  {
    NamesAreWords();
    PartsAreQuotable(t, d.day, d.year);
    WordIsQuotable(SHORT_DAYS[w]);
    WordIsQuotable(MONTH_NAMES[d.month - 1]);
    var zone := Clock(t) + [' '] + "GMT";
    QuotableJoin(Clock(t) + [' '], "GMT");
    var year := Four(d.year) + [' '] + zone;
    QuotableJoin(Four(d.year) + [' '], zone);
    var month := MONTH_NAMES[d.month - 1] + [' '] + year;
    QuotableJoin(MONTH_NAMES[d.month - 1] + [' '], year);
    var day := Two(d.day) + [' '] + month;
    QuotableJoin(Two(d.day) + [' '], month);
    QuotableJoin([' '], day);
    QuotableJoin(SHORT_DAYS[w] + [','], [' '] + day);
    var s := ImfFixdate(w, d, t);
    assert s == SHORT_DAYS[w] + [','] + ([' '] + day);
    assert s[|s| - 1] == 'T';
  }

  lemma PolicyReadsBack(policy: SameSite)
    ensures SameSiteNamed(PolicyName(policy)) == Some(policy)
    ensures Bare(PolicyName(policy)) && Quotable(PolicyName(policy)) && PolicyName(policy) != ""
  {
    match policy
    case Strict => assert ToLower("Strict") == "strict";
    case Lax => assert ToLower("Lax") == "lax" && "lax"[0] != "strict"[0];
    case Anywhere => assert ToLower("None") == "none" && "none"[0] != "strict"[0] && "none"[0] != "lax"[0];
  }

  lemma DomainReadsBack(before: Attributes, d: string)
    requires d != "" && d[0] != '.' && ToLower(d) == d
    ensures WithDomain(before, d) == before.(domain := Some(d))
  {
    assert d[..1] == [d[0]];
  }

  lemma ValueIsWritten(a: Attribute)
    requires Writable(a) && HasValue(a)
    ensures Bare(ValueOf(a)) && Quotable(ValueOf(a))
  {
    match a
    case MaxAge(n) => NumberReadsBack(n);
    case Expires(w, d, t) => ImfIsWritten(w, d, t);
    case SameSiteIs(policy) => PolicyReadsBack(policy);
    case _ =>
  }

  lemma ReadsExpires(before: Attributes, w: nat, d: Date, t: Time)
    requires w < 7 && ValidDate(d) && 1601 <= d.year < 10_000 && ClockTime(t)
    ensures ReadNamed(before, "expires", Some(ImfFixdate(w, d, t))) == before.(expires := Some(Instant(d, t)))
  {
    FourDigitYearsAreExact(w, d, t);
  }

  lemma ReadsMaxAge(before: Attributes, n: int)
    requires -I64_MAX - 1 <= n <= I64_MAX
    ensures ReadNamed(before, "max-age", Some(IntText(n))) == before.(maxAge := Some(n))
  {
    NumberReadsBack(n);
    assert "max-age"[0] != "expires"[0];
  }

  lemma ReadsDomain(before: Attributes, d: string)
    requires d != "" && d[0] != '.' && ToLower(d) == d
    ensures ReadNamed(before, "domain", Some(d)) == before.(domain := Some(d))
  {
    DomainReadsBack(before, d);
    assert "domain"[0] != "expires"[0] && "domain"[0] != "max-age"[0];
  }

  lemma ReadsPath(before: Attributes, p: string)
    ensures ReadNamed(before, "path", Some(p)) == before.(path := Some(p))
  {
    assert "path"[0] != "expires"[0] && "path"[0] != "max-age"[0] && "path"[0] != "domain"[0];
  }

  lemma ReadsSameSite(before: Attributes, policy: SameSite)
    ensures ReadNamed(before, "samesite", Some(PolicyName(policy))) == before.(sameSite := Some(policy))
  {
    PolicyReadsBack(policy);
    assert |"samesite"| == 8 && |"expires"| == 7 && |"max-age"| == 7 && |"domain"| == 6 && |"path"| == 4 && |"secure"| == 6;
    assert "samesite"[0] != "httponly"[0];
  }

  lemma ReadsFlags(before: Attributes)
    ensures ReadNamed(before, "secure", None) == before.(secure := true)
    ensures ReadNamed(before, "httponly", None) == before.(httpOnly := true)
    ensures ReadNamed(before, "partitioned", None) == before.(partitioned := true)
  {
    assert "secure"[0] == 's' && "expires"[0] == 'e' && "max-age"[0] == 'm' && "domain"[0] == 'd' && "path"[0] == 'p';
    assert "httponly"[0] == 'h' && |"partitioned"| == 11 && |"path"| == 4 && "samesite"[0] == 's' && "partitioned"[0] == 'p';
  }

  /** Each attribute, spelled out, is read as itself. */
  lemma AttributeReadsBack(before: Attributes, a: Attribute)
    requires Writable(a)
    ensures ReadAttribute(before, Spelled(a)) == WithAttribute(before, a)
  {
    KeyIsLettered(a);
    LetteredIsWritten(KeyOf(a));
    KeyLowers(a);
    if HasValue(a) {
      ValueIsWritten(a);
      SegmentReads(KeyOf(a), ValueOf(a));
    } else {
      FlagReads(KeyOf(a));
    }
    NamedReadsBack(before, a);
  }

  lemma NamedReadsBack(before: Attributes, a: Attribute)
    requires Writable(a)
    ensures ReadNamed(before, LowerKey(a), if HasValue(a) then Some(ValueOf(a)) else None) == WithAttribute(before, a)
  {
    match a
    case MaxAge(n) => ReadsMaxAge(before, n);
    case Expires(w, d, t) => ReadsExpires(before, w, d, t);
    case Domain(d) => ReadsDomain(before, d);
    case Path(p) => ReadsPath(before, p);
    case SameSiteIs(policy) => ReadsSameSite(before, policy);
    case _ => ReadsFlags(before);
  }

  // ----- A whole field -----

  function SpelledAll(attributes: seq<Attribute>): seq<string>
    requires forall i :: 0 <= i < |attributes| ==> Writable(attributes[i])
  {
    seq(|attributes|, i requires 0 <= i < |attributes| => Spelled(attributes[i]))
  }

  lemma SpelledIsWritten(a: Attribute)
    requires Writable(a)
    ensures Spelled(a) != "" && Bare(Spelled(a)) && Quotable(Spelled(a))
  {
    KeyIsLettered(a);
    LetteredIsWritten(KeyOf(a));
    if HasValue(a) {
      ValueIsWritten(a);
      var s := Spelled(a);
      assert s[0] == KeyOf(a)[0];
      assert s[|s| - 1] == if ValueOf(a) == "" then '=' else ValueOf(a)[|ValueOf(a)| - 1];
      QuotableJoin(KeyOf(a) + ['='], ValueOf(a));
    }
  }

  lemma {:induction false} AttributesReadBack(attributes: seq<Attribute>, segments: seq<string>)
    requires forall i :: 0 <= i < |attributes| ==> Writable(attributes[i])
    requires |segments| == |attributes| && forall i :: 0 <= i < |segments| ==> segments[i] == " " + Spelled(attributes[i])
    ensures ReadAttributes(segments) == Meaning(attributes)
    decreases |attributes|
  {
    if attributes != [] {
      var last := attributes[|attributes| - 1];
      AttributesReadBack(attributes[..|attributes| - 1], segments[..|segments| - 1]);
      SpelledIsWritten(last);
      TrimAfterBlank(Spelled(last));
      AttributeReadsBack(Meaning(attributes[..|attributes| - 1]), last);
    }
  }

  /** The value as it is, or between quotes. */
  function PairText(name: string, value: string, quoted: bool): string {
    name + ['='] + WrittenValue(value, quoted)
  }

  /** A name and value a field can carry: quotes let the value begin or end in a blank. */
  predicate WritablePair(name: string, value: string, quoted: bool) {
    && name != "" && Bare(name) && Quotable(name) && '=' !in name
    && Quotable(value) && (!quoted ==> Bare(value) && Unquoted(value) == value)
  }

  function WrittenValue(value: string, quoted: bool): string {
    if quoted then ['"'] + value + ['"'] else value
  }

  lemma WrittenReadsBack(value: string, quoted: bool)
    requires Quotable(value) && (!quoted ==> Bare(value) && Unquoted(value) == value)
    ensures var w := WrittenValue(value, quoted); Bare(w) && Quotable(w) && Unquoted(w) == value
  {
    var w := WrittenValue(value, quoted);
    if quoted {
      assert w[0] == '"' && w[|w| - 1] == '"' && w[1..|w| - 1] == value;
      QuotableJoin(['"'], value);
      QuotableJoin(['"'] + value, ['"']);
    }
  }

  lemma PairIsBare(name: string, written: string)
    requires name != "" && Bare(name) && Bare(written)
    ensures Bare(name + ['='] + written)
  {
    var pair := name + ['='] + written;
    assert pair[0] == name[0];
    assert pair[|pair| - 1] == if written == "" then '=' else written[|written| - 1];
  }

  lemma NamedPairReads(name: string, written: string)
    requires name != "" && Bare(name) && '=' !in name && Bare(written)
    ensures ReadPair(name + ['='] + written) == Some((name, Unquoted(written)))
  {
    PairIsBare(name, written);
    TrimBare(name + ['='] + written);
    SegmentReads(name, written);
  }

  lemma PairReadsBack(name: string, value: string, quoted: bool)
    requires WritablePair(name, value, quoted)
    ensures ReadPair(PairText(name, value, quoted)) == Some((name, value)) && Quotable(PairText(name, value, quoted))
  {
    WrittenReadsBack(value, quoted);
    NamedPairReads(name, WrittenValue(value, quoted));
    QuotableJoin(name, ['=']);
    QuotableJoin(name + ['='], WrittenValue(value, quoted));
  }

  function Field(name: string, value: string, quoted: bool, attributes: seq<Attribute>): string
    requires forall i :: 0 <= i < |attributes| ==> Writable(attributes[i])
  {
    Join([PairText(name, value, quoted)] + SpelledAll(attributes), "; ")
  }

  lemma {:induction false} JoinedIsVisible(parts: seq<string>)
    requires forall i :: 0 <= i < |parts| ==> AllVisible(parts[i])
    ensures AllVisible(Join(parts, "; "))
    decreases |parts|
  {
    if |parts| > 1 { JoinedIsVisible(parts[1..]); }
  }

  /** A field is cut into the parts it was joined from. */
  lemma FieldPieces(pair: string, spelled: seq<string>)
    requires Quotable(pair) && forall i :: 0 <= i < |spelled| ==> Quotable(spelled[i])
    ensures var field := Join([pair] + spelled, "; ");
            var segments := Split(field, ';');
            && AllVisible(field) && segments[0] == pair && |segments[1..]| == |spelled|
            && forall i :: 0 <= i < |spelled| ==> segments[1..][i] == " " + spelled[i]
  {
    var parts := [pair] + spelled;
    JoinedIsVisible(parts);
    JoinedPieces(parts, ';');
    var segments := Split(Join(parts, "; "), ';');
    assert segments[0] == "" + pair == pair;
    forall i | 0 <= i < |spelled| ensures segments[1..][i] == " " + spelled[i] {
      assert parts[i + 1] == spelled[i];
    }
  }

  lemma CutIsResolved(psl: SuffixList, field: string, name: string, value: string, a: Attributes, r: Request, now: int)
    requires AllVisible(field) && ReadPair(Split(field, ';')[0]) == Some((name, value))
    requires ReadAttributes(Split(field, ';')[1..]) == a
    ensures SetCookie(psl, field, r, now) == Resolve(psl, name, value, a, r, now)
  {
  }

  /**
   A field written out is read back as written: the name and the value, quoted or not, and of each kind
   of attribute the last one, in whatever order and however often they come.
   */
  lemma FieldReadsBack(psl: SuffixList, name: string, value: string, quoted: bool, attributes: seq<Attribute>, r: Request,
                       now: int)
    requires WritablePair(name, value, quoted) && forall i :: 0 <= i < |attributes| ==> Writable(attributes[i])
    ensures SetCookie(psl, Field(name, value, quoted, attributes), r, now) ==
            Resolve(psl, name, value, Meaning(attributes), r, now)
  {
    var field := Field(name, value, quoted, attributes);
    FieldIsCut(name, value, quoted, attributes);
    AttributesReadBack(attributes, Split(field, ';')[1..]);
    CutIsResolved(psl, field, name, value, Meaning(attributes), r, now);
  }

  lemma FieldIsCut(name: string, value: string, quoted: bool, attributes: seq<Attribute>)
    requires WritablePair(name, value, quoted) && forall i :: 0 <= i < |attributes| ==> Writable(attributes[i])
    ensures var field := Field(name, value, quoted, attributes);
            var segments := Split(field, ';');
            && AllVisible(field) && ReadPair(segments[0]) == Some((name, value)) && |segments[1..]| == |attributes|
            && forall i :: 0 <= i < |attributes| ==> segments[1..][i] == " " + Spelled(attributes[i])
  {
    var pair, spelled := PairText(name, value, quoted), SpelledAll(attributes);
    PairReadsBack(name, value, quoted);
    forall i | 0 <= i < |spelled| ensures Quotable(spelled[i]) { SpelledIsWritten(attributes[i]); }
    FieldPieces(pair, spelled);
  }
}
