/**
 What the cookie jar's operations do, as relations between jar values.

 A jar value maps each site to its bucket's entries, in bucket order, and carries
 the two counters.  Trimming a bucket may break a recency tie either way, so the
 operations are relations; everything else is determined.  Counters are unbounded.
 */
module JarModel {
  import opened Options
  import opened Text
  import opened Cookies
  import opened Lowest

  datatype Entry = Entry(cookie: Cookie, creationSeq: nat, lastAccess: nat)

  datatype Identity = Identity(name: string, domain: string, path: string)

  datatype Limits = Limits(perDomain: nat, total: nat)
  {
    function PurgeTarget(): nat { total - total / 10 }

    function DomainPurgeTarget(): nat { perDomain - perDomain / 6 }
  }

  datatype JarState = JarState(sites: map<string, seq<Entry>>, nextCreation: nat, nextAccess: nat)

  const EMPTY_JAR: JarState := JarState(map[], 0, 0)

  function IdentityOf(c: Cookie): Identity {
    Identity(c.name, c.domain, c.path)
  }

  function At(sites: map<string, seq<Entry>>, site: string): seq<Entry> {
    if site in sites then sites[site] else []
  }

  /** The jar with one bucket replaced; an empty bucket is not kept. */
  function PutSite(sites: map<string, seq<Entry>>, site: string, bucket: seq<Entry>): map<string, seq<Entry>> {
    if bucket == [] then sites - {site} else sites[site := bucket]
  }

  // ----- One bucket -----

  function PositionFrom(bucket: seq<Entry>, id: Identity, i: nat): (r: Option<nat>)
    requires i <= |bucket|
    ensures r.Some? ==> i <= r.value < |bucket| && IdentityOf(bucket[r.value].cookie) == id
    ensures r.None? ==> forall k :: i <= k < |bucket| ==> IdentityOf(bucket[k].cookie) != id
    decreases |bucket| - i
  {
    if i == |bucket| then None
    else if IdentityOf(bucket[i].cookie) == id then Some(i)
    else PositionFrom(bucket, id, i + 1)
  }

  function PositionOf(bucket: seq<Entry>, id: Identity): Option<nat> {
    PositionFrom(bucket, id, 0)
  }

  predicate DistinctIds(bucket: seq<Entry>) {
    forall i, j :: 0 <= i < j < |bucket| ==> IdentityOf(bucket[i].cookie) != IdentityOf(bucket[j].cookie)
  }

  /** `Vec::swap_remove`: the last entry moves into the gap. */
  function SwapRemove(bucket: seq<Entry>, i: nat): (r: seq<Entry>)
    requires i < |bucket|
    ensures |r| == |bucket| - 1
    ensures forall k :: 0 <= k < |r| ==> r[k] == if k == i then bucket[|bucket| - 1] else bucket[k]
  {
    var last := |bucket| - 1;
    if i == last then bucket[..last] else bucket[..last][i := bucket[last]]
  }

  /** The positions below `n` outside `doomed`, ascending. */
  function KeptPositions(n: nat, doomed: set<nat>): (p: seq<nat>)
    ensures |p| <= n
    ensures forall k :: 0 <= k < |p| ==> p[k] < n
  {
    if n == 0 then []
    else if n - 1 in doomed then KeptPositions(n - 1, doomed)
    else KeptPositions(n - 1, doomed) + [n - 1]
  }

  /** The bucket without the entries at `doomed`, in order. */
  function Keep(bucket: seq<Entry>, doomed: set<nat>): seq<Entry> {
    var p := KeptPositions(|bucket|, doomed);
    seq(|p|, k requires 0 <= k < |p| => bucket[p[k]])
  }

  function ExpiredPositions(bucket: seq<Entry>, now: int): set<nat> {
    set i: nat | i < |bucket| && Expired(bucket[i].cookie, now)
  }

  function Unexpired(bucket: seq<Entry>, now: int): seq<Entry> {
    Keep(bucket, ExpiredPositions(bucket, now))
  }

  /** `doomed` are `count` positions none of whose entries was used after an entry that stays. */
  ghost predicate LeastRecent(bucket: seq<Entry>, doomed: set<nat>, count: nat) {
    && (forall i :: i in doomed ==> i < |bucket|)
    && |doomed| == count
    && forall i, k :: i in doomed && 0 <= k < |bucket| && k !in doomed ==> bucket[i].lastAccess <= bucket[k].lastAccess
  }

  /** Keeping the `keep` most recently accessed entries. */
  ghost predicate Trimmed(bucket: seq<Entry>, keep: nat, after: seq<Entry>) {
    if |bucket| <= keep then after == bucket
    else exists doomed: set<nat> :: LeastRecent(bucket, doomed, |bucket| - keep) && after == Keep(bucket, doomed)
  }

  /** A bucket past `cap` sheds its expired entries and is then trimmed to `keep`. */
  ghost predicate HeldDown(bucket: seq<Entry>, now: int, cap: nat, keep: nat, after: seq<Entry>) {
    if |bucket| > cap then Trimmed(Unexpired(bucket, now), keep, after) else after == bucket
  }

  datatype BucketChange = BucketChange(bucket: seq<Entry>, nextCreation: nat, nextAccess: nat)

  predicate SecureBlocks(bucket: seq<Entry>, c: Cookie, requestIsSecure: bool) {
    var existing := PositionOf(bucket, IdentityOf(c));
    existing.Some? && bucket[existing.value].cookie.secure && !requestIsSecure
  }

  /** One parsed `Set-Cookie` against its bucket. */
  function ApplySetCookie(bucket: seq<Entry>, c: Cookie, now: int, requestIsSecure: bool,
                          nextCreation: nat, nextAccess: nat): BucketChange
  {
    var existing := PositionOf(bucket, IdentityOf(c));
    var same := BucketChange(bucket, nextCreation, nextAccess);
    if SecureBlocks(bucket, c, requestIsSecure) then same
    else if Expired(c, now) then
      (if existing.Some? then same.(bucket := SwapRemove(bucket, existing.value)) else same)
    else if existing.Some? then
      BucketChange(
        bucket[existing.value := Entry(c, bucket[existing.value].creationSeq, nextAccess)],
        nextCreation, nextAccess + 1)
    else
      BucketChange(bucket + [Entry(c, nextCreation, nextAccess)], nextCreation + 1, nextAccess + 1)
  }

  // ----- The whole jar -----

  datatype Place = Place(site: string, position: nat)

  function Places(sites: map<string, seq<Entry>>): set<Place> {
    set site, i | site in sites && 0 <= i < |sites[site]| :: Place(site, i)
  }

  /** How many cookies the jar holds. */
  function Total(sites: map<string, seq<Entry>>): nat {
    |Places(sites)|
  }

  /** One entry as the purge ranks it: expired first, then least recently used, then by place. */
  datatype Candidate = Candidate(live: bool, lastAccess: nat, site: string, position: nat)

  predicate EvictedBefore(a: Candidate, b: Candidate) {
    if a.live != b.live then b.live
    else if a.lastAccess != b.lastAccess then a.lastAccess < b.lastAccess
    else if a.site != b.site then StrLess(a.site, b.site)
    else a.position < b.position
  }

  function CandidateAt(sites: map<string, seq<Entry>>, now: int, p: Place): Candidate
    requires p in Places(sites)
  {
    var e := sites[p.site][p.position];
    Candidate(!Expired(e.cookie, now), e.lastAccess, p.site, p.position)
  }

  function Candidates(sites: map<string, seq<Entry>>, now: int): set<Candidate> {
    set p | p in Places(sites) :: CandidateAt(sites, now, p)
  }

  function DoomedIn(victims: set<Candidate>, site: string): set<nat> {
    set c | c in victims && c.site == site :: c.position
  }

  /** Every bucket without its victims, and no empty bucket. */
  function WithoutVictims(sites: map<string, seq<Entry>>, victims: set<Candidate>): map<string, seq<Entry>> {
    map site | site in sites && Keep(sites[site], DoomedIn(victims, site)) != [] ::
      Keep(sites[site], DoomedIn(victims, site))
  }

  /** A jar past its total is purged of its lowest-ranked entries, down to the target. */
  ghost predicate Enforced(lim: Limits, s: JarState, now: int, t: JarState) {
    if Total(s.sites) <= lim.total then t == s
    else exists victims: set<Candidate> ::
           && IsLowest(EvictedBefore, victims, Candidates(s.sites, now), Total(s.sites) - lim.PurgeTarget())
           && t == s.(sites := WithoutVictims(s.sites, victims))
  }

  // ----- Storing a response's cookies -----

  ghost predicate AppliedOne(psl: SuffixList, lim: Limits, s: JarState, r: Request, header: string, now: int,
                             t: JarState) {
    match SetCookie(psl, header, r, now)
    case None => t == s
    case Some(c) =>
      var site := SiteOf(psl, c.domain);
      var change := ApplySetCookie(At(s.sites, site), c, now, r.secure, s.nextCreation, s.nextAccess);
      && t == JarState(PutSite(s.sites, site, At(t.sites, site)), change.nextCreation, change.nextAccess)
      && HeldDown(change.bucket, now, 2 * lim.perDomain, lim.perDomain, At(t.sites, site))
  }

  /** The jar after each header in turn. */
  ghost predicate AppliedThrough(psl: SuffixList, lim: Limits, r: Request, headers: seq<string>, now: int,
                                 trace: seq<JarState>) {
    && |trace| == |headers| + 1
    && forall i :: 0 <= i < |headers| ==> AppliedOne(psl, lim, trace[i], r, headers[i], now, trace[i + 1])
  }

  /** The sites a response's cookies landed in, in order of first appearance. */
  function Touched(psl: SuffixList, r: Request, headers: seq<string>, now: int): seq<string> {
    if headers == [] then []
    else
      var before := Touched(psl, r, headers[..|headers| - 1], now);
      match SetCookie(psl, headers[|headers| - 1], r, now)
      case None => before
      case Some(c) => if SiteOf(psl, c.domain) in before then before else before + [SiteOf(psl, c.domain)]
  }

  ghost predicate TidiedOne(lim: Limits, s: JarState, site: string, now: int, t: JarState) {
    && t == s.(sites := PutSite(s.sites, site, At(t.sites, site)))
    && HeldDown(At(s.sites, site), now, lim.perDomain, lim.DomainPurgeTarget(), At(t.sites, site))
  }

  /** The jar after each touched bucket in turn. */
  ghost predicate TidiedThrough(lim: Limits, touched: seq<string>, now: int, trace: seq<JarState>) {
    && |trace| == |touched| + 1
    && forall i :: 0 <= i < |touched| ==> TidiedOne(lim, trace[i], touched[i], now, trace[i + 1])
  }

  /** A URL without an origin stores nothing. */
  ghost predicate Stored(psl: SuffixList, lim: Limits, s: JarState, req: Option<Request>, headers: seq<string>,
                         now: int, t: JarState) {
    match req
    case None => t == s
    case Some(r) =>
      exists applied: seq<JarState>, tidied: seq<JarState> ::
        && AppliedThrough(psl, lim, r, headers, now, applied)
        && TidiedThrough(lim, Touched(psl, r, headers, now), now, tidied)
        && applied[0] == s && applied[|headers|] == tidied[0]
        && Enforced(lim, tidied[|tidied| - 1], now, t)
  }

  // ----- Snapshots -----

  datatype CookieRecord = CookieRecord(
    name: string,
    value: string,
    domain: string,
    hostOnly: bool,
    path: string,
    secure: bool,
    httpOnly: bool,
    sameSite: SameSite,
    partitioned: bool,
    expires: Option<int>,
    creationSeq: nat,
    lastAccessSeq: nat)

  function RecordOf(e: Entry): CookieRecord {
    var c := e.cookie;
    CookieRecord(c.name, c.value, c.domain, c.hostOnly, c.path, c.secure, c.httpOnly, c.sameSite, c.partitioned,
                 c.expires, e.creationSeq, e.lastAccess)
  }

  function EntryOf(r: CookieRecord): Entry {
    Entry(Cookie(r.name, r.value, r.domain, r.hostOnly, r.path, r.secure, r.httpOnly, r.sameSite, r.partitioned, r.expires),
          r.creationSeq, r.lastAccessSeq)
  }

  predicate Admissible(r: CookieRecord, now: int) {
    && !(r.expires.Some? && r.expires.value <= now)
    && Representable(r.name, r.value)
    && KeepsPrefixPromise(r.name, r.secure, r.hostOnly, r.path)
  }

  function Replaced(bucket: seq<Entry>, e: Entry): seq<Entry> {
    match PositionOf(bucket, IdentityOf(e.cookie))
    case None => bucket + [e]
    case Some(i) => SwapRemove(bucket, i) + [e]
  }

  function AbsorbOne(psl: SuffixList, s: JarState, r: CookieRecord, now: int): JarState {
    if !Admissible(r, now) then s
    else
      var e := EntryOf(r);
      var site := SiteOf(psl, e.cookie.domain);
      JarState(PutSite(s.sites, site, Replaced(At(s.sites, site), e)),
               MaxNat(s.nextCreation, r.creationSeq + 1),
               MaxNat(s.nextAccess, r.lastAccessSeq + 1))
  }

  function AbsorbRecords(psl: SuffixList, s: JarState, records: seq<CookieRecord>, now: int): JarState {
    if records == [] then s
    else AbsorbOne(psl, AbsorbRecords(psl, s, records[..|records| - 1], now), records[|records| - 1], now)
  }

  /** Every bucket without its expired entries and trimmed to the cap; no empty bucket. */
  ghost predicate TidiedEverywhere(lim: Limits, s: JarState, now: int, t: JarState) {
    && t.nextCreation == s.nextCreation && t.nextAccess == s.nextAccess
    && t.sites.Keys <= s.sites.Keys
    && (forall site :: site in t.sites ==> t.sites[site] != [])
    && forall site :: site in s.sites ==> Trimmed(Unexpired(s.sites[site], now), lim.perDomain, At(t.sites, site))
  }

  ghost predicate Imported(psl: SuffixList, lim: Limits, s: JarState, records: seq<CookieRecord>, now: int,
                           t: JarState) {
    exists tidied: JarState ::
      && TidiedEverywhere(lim, AbsorbRecords(psl, s, records, now), now, tidied)
      && Enforced(lim, tidied, now, t)
  }

  function RecordsOf(entries: seq<Entry>): seq<CookieRecord> {
    if entries == [] then []
    else RecordsOf(entries[..|entries| - 1]) + [RecordOf(entries[|entries| - 1])]
  }

  /** The sites in turn, and under each its live entries in bucket order. */
  function Snapshot(s: JarState, order: seq<string>, now: int): seq<CookieRecord> {
    if order == [] then []
    else Snapshot(s, order[..|order| - 1], now) + RecordsOf(Unexpired(At(s.sites, order[|order| - 1]), now))
  }

  /** `order` is some order of these sites. */
  ghost predicate Lists(order: seq<string>, sites: set<string>) {
    && (forall i, j :: 0 <= i < j < |order| ==> order[i] != order[j])
    && forall site :: site in order <==> site in sites
  }

  /** Only the order of the sites is arbitrary: the map of sites is hashed, a bucket is a list. */
  ghost predicate Exported(s: JarState, now: int, records: seq<CookieRecord>) {
    exists order: seq<string> :: Lists(order, s.sites.Keys) && records == Snapshot(s, order, now)
  }

  // ----- Looking cookies up -----

  predicate Eligible(psl: SuffixList, e: Entry, r: Request, ctx: Context, now: int) {
    && !Expired(e.cookie, now)
    && AppliesTo(psl, e.cookie, r)
    && SameSiteEligible(psl, e.cookie, r.host, ctx)
  }

  function Matches(psl: SuffixList, bucket: seq<Entry>, r: Request, ctx: Context, now: int): seq<Entry> {
    if bucket == [] then []
    else
      var before := Matches(psl, bucket[..|bucket| - 1], r, ctx, now);
      var e := bucket[|bucket| - 1];
      if Eligible(psl, e, r, ctx, now) then before + [e] else before
  }

  /** Bytes of a text in UTF-8; an imported path need not be ASCII. */
  function ByteLength(s: string): nat {
    if s == [] then 0
    else
      var c := s[|s| - 1] as int;
      ByteLength(s[..|s| - 1]) + if c < 0x80 then 1 else if c < 0x800 then 2 else if c < 0x10000 then 3 else 4
  }

  /** Section 5.4 of RFC 6265: longer paths first, then earlier creation. */
  predicate SentBefore(a: Entry, b: Entry) {
    || ByteLength(a.cookie.path) > ByteLength(b.cookie.path)
    || (ByteLength(a.cookie.path) == ByteLength(b.cookie.path) && a.creationSeq < b.creationSeq)
  }

  /** `e` goes behind everything it does not precede. */
  function Insert(sorted: seq<Entry>, e: Entry): seq<Entry> {
    if sorted != [] && SentBefore(e, sorted[|sorted| - 1])
    then Insert(sorted[..|sorted| - 1], e) + [sorted[|sorted| - 1]]
    else sorted + [e]
  }

  /** A stable sort into sending order. */
  function Ordered(entries: seq<Entry>): seq<Entry> {
    if entries == [] then [] else Insert(Ordered(entries[..|entries| - 1]), entries[|entries| - 1])
  }

  function Pair(e: Entry): string {
    e.cookie.name + "=" + e.cookie.value
  }

  function Pairs(entries: seq<Entry>): seq<string> {
    seq(|entries|, i requires 0 <= i < |entries| => Pair(entries[i]))
  }

  function RepresentableOnly(entries: seq<Entry>): seq<Entry> {
    if entries == [] then []
    else
      var before, e := RepresentableOnly(entries[..|entries| - 1]), entries[|entries| - 1];
      if Representable(e.cookie.name, e.cookie.value) then before + [e] else before
  }

  /** The header text, with the fallback that drops what cannot go in one. */
  function HeaderOf(ordered: seq<Entry>): Option<string> {
    if ordered == [] then None
    else
      var joined := Join(Pairs(ordered), "; ");
      if AllVisible(joined) then Some(joined)
      else
        var kept := RepresentableOnly(ordered);
        if kept == [] then None
        else if AllVisible(Join(Pairs(kept), "; ")) then Some(Join(Pairs(kept), "; "))
        else None
  }

  function CookieHeader(psl: SuffixList, s: JarState, r: Request, ctx: Context, now: int): Option<string> {
    HeaderOf(Ordered(Matches(psl, At(s.sites, SiteOf(psl, r.host)), r, ctx, now)))
  }

  function Accessed(psl: SuffixList, bucket: seq<Entry>, r: Request, ctx: Context, now: int, access: nat): seq<Entry> {
    seq(|bucket|, i requires 0 <= i < |bucket| =>
      if Eligible(psl, bucket[i], r, ctx, now) then bucket[i].(lastAccess := access) else bucket[i])
  }

  /** A lookup that finds something stamps everything it found with one access number. */
  function AfterLookup(psl: SuffixList, s: JarState, r: Request, ctx: Context, now: int): JarState {
    var site := SiteOf(psl, r.host);
    if site !in s.sites || Matches(psl, s.sites[site], r, ctx, now) == [] then s
    else s.(sites := s.sites[site := Accessed(psl, s.sites[site], r, ctx, now, s.nextAccess)],
            nextAccess := s.nextAccess + 1)
  }
}
