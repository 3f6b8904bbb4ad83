/**
 What a response, a snapshot and a lookup do to the jar, and what is sent, in terms of the entries
 themselves: their name, domain, path, flags, expiry and numbers.
 */
module JarPromises {
  import opened Options
  import opened Text
  import opened Cookies
  import opened JarModel
  import opened JarBuckets
  import opened JarRuns
  import opened JarSafety
  import CookieReading

  /** The same name, domain and path. */
  predicate SameCookie(c: Cookie, d: Cookie) {
    c.name == d.name && c.domain == d.domain && c.path == d.path
  }

  predicate Deletes(c: Cookie, now: int) {
    c.expires.Some? && c.expires.value <= now
  }

  /** A plaintext response meets a Secure entry of that cookie. */
  ghost predicate OutOfReach(b: seq<Entry>, c: Cookie, secure: bool) {
    !secure && exists e :: e in b && SameCookie(e.cookie, c) && e.cookie.secure
  }

  /** The entry a live cookie leaves: just used, and as old as the entry it replaces, if any. */
  ghost predicate Enters(b: seq<Entry>, c: Cookie, nextCreation: nat, nextAccess: nat, x: Entry) {
    && x.cookie == c && x.lastAccess == nextAccess
    && (|| (exists d :: d in b && SameCookie(d.cookie, c) && x.creationSeq == d.creationSeq)
        || ((forall d :: d in b ==> !SameCookie(d.cookie, c)) && x.creationSeq == nextCreation))
  }

  // ----- One cookie and its bucket -----

  lemma OneOfEach(b: seq<Entry>, d: Entry, e: Entry)
    requires DistinctIds(b) && d in b && e in b && SameCookie(d.cookie, e.cookie)
    ensures d == e
  {
    var i :| 0 <= i < |b| && b[i] == d;
    var j :| 0 <= j < |b| && b[j] == e;
  }

  lemma SwapRemoveEntries(b: seq<Entry>, i: nat, x: Entry)
    requires DistinctIds(b) && i < |b|
    ensures x in SwapRemove(b, i) <==> x in b && !SameCookie(x.cookie, b[i].cookie)
  {
    var after := SwapRemove(b, i);
    if x in after {
      var k :| 0 <= k < |after| && after[k] == x;
      assert x == if k == i then b[|b| - 1] else b[k];
    }
    if x in b && !SameCookie(x.cookie, b[i].cookie) {
      var k :| 0 <= k < |b| && b[k] == x;
      assert after[if k == |b| - 1 then i else k] == x;
    }
  }

  lemma UpdatedEntries(b: seq<Entry>, i: nat, e: Entry, x: Entry)
    requires DistinctIds(b) && i < |b| && SameCookie(e.cookie, b[i].cookie)
    ensures x in b[i := e] <==> x == e || (x in b && !SameCookie(x.cookie, e.cookie))
  {
    var after := b[i := e];
    if x in after {
      var k :| 0 <= k < |after| && after[k] == x;
      assert k != i ==> x == b[k];
    }
    if x in b && !SameCookie(x.cookie, e.cookie) {
      var k :| 0 <= k < |b| && b[k] == x;
      assert after[k] == x;
    }
    assert after[i] == e;
  }

  lemma FoundIs(b: seq<Entry>, c: Cookie)
    requires DistinctIds(b)
    ensures var found := PositionOf(b, IdentityOf(c));
            && (found.Some? ==> found.value < |b| && b[found.value] in b && SameCookie(b[found.value].cookie, c)
                                && forall d :: d in b && SameCookie(d.cookie, c) ==> d == b[found.value])
            && (found.None? ==> forall d :: d in b ==> !SameCookie(d.cookie, c))
  {
    var found := PositionOf(b, IdentityOf(c));
    if found.Some? {
      forall d | d in b && SameCookie(d.cookie, c) ensures d == b[found.value] {
        OneOfEach(b, d, b[found.value]);
      }
    }
  }

  /** Exactly what one parsed cookie leaves in its bucket. */
  lemma ApplyIsExact(b: seq<Entry>, c: Cookie, now: int, secure: bool, nc: nat, na: nat, x: Entry)
    requires DistinctIds(b)
    ensures x in ApplySetCookie(b, c, now, secure, nc, na).bucket <==>
            if OutOfReach(b, c, secure) then x in b
            else (x in b && !SameCookie(x.cookie, c)) || (!Deletes(c, now) && Enters(b, c, nc, na, x))
  {
    var found := PositionOf(b, IdentityOf(c));
    FoundIs(b, c);
    assert SecureBlocks(b, c, secure) <==> OutOfReach(b, c, secure);
    if found.Some? {
      SwapRemoveEntries(b, found.value, x);
      var e := Entry(c, b[found.value].creationSeq, na);
      UpdatedEntries(b, found.value, e, x);
      assert Enters(b, c, nc, na, x) <==> x == e;
    } else {
      assert Enters(b, c, nc, na, x) <==> x == Entry(c, nc, na);
    }
  }

  ghost predicate AppliedExactly(b: seq<Entry>, c: Cookie, now: int, secure: bool, nc: nat, na: nat, after: seq<Entry>) {
    forall x :: x in after <==>
                if OutOfReach(b, c, secure) then x in b
                else (x in b && !SameCookie(x.cookie, c)) || (!Deletes(c, now) && Enters(b, c, nc, na, x))
  }

  lemma AppliedIsExact(b: seq<Entry>, c: Cookie, now: int, secure: bool, nc: nat, na: nat)
    requires DistinctIds(b)
    ensures AppliedExactly(b, c, now, secure, nc, na, ApplySetCookie(b, c, now, secure, nc, na).bucket)
  {
    forall x ensures x in ApplySetCookie(b, c, now, secure, nc, na).bucket <==>
                     if OutOfReach(b, c, secure) then x in b
                     else (x in b && !SameCookie(x.cookie, c)) || (!Deletes(c, now) && Enters(b, c, nc, na, x)) {
      ApplyIsExact(b, c, now, secure, nc, na, x);
    }
  }

  // ----- A response of one header -----

  /** Exactly what a cookie of a one-header response leaves in the jar, while no cap overflows. */
  lemma StoredOneIsExact(psl: SuffixList, lim: Limits, s: JarState, r: Request, header: string, now: int, t: JarState,
                         c: Cookie, site: string, x: Entry)
    requires JarOk(psl, s) && Stored(psl, lim, s, Some(r), [header], now, t) && SetCookie(psl, header, r, now) == Some(c)
    requires NoCapOverflows(psl, lim, s, r, [header], now)
    ensures var b := At(s.sites, site);
            x in At(t.sites, site) <==>
              if site != SiteOf(psl, c.domain) || OutOfReach(b, c, r.secure) then x in b
              else (x in b && !SameCookie(x.cookie, c)) || (!Deletes(c, now) && Enters(b, c, s.nextCreation, s.nextAccess, x))
  {
    StoredWithoutPurging(psl, lim, s, r, [header], now, t);
    OneUnpurged(psl, s, r, header, now);
    EmptyIsOk(psl, s, site);
    ApplyIsExact(At(s.sites, site), c, now, r.secure, s.nextCreation, s.nextAccess, x);
  }

  lemma OneUnpurged(psl: SuffixList, s: JarState, r: Request, header: string, now: int)
    ensures Unpurged(psl, s, r, [header], now, 1) == UnpurgedOne(psl, s, r, header, now)
  {
    assert Unpurged(psl, s, r, [header], now, 0) == s;
  }

  // ----- What each step can bring in -----

  /** No entry of that cookie anywhere in the jar. */
  ghost predicate Absent(s: JarState, c: Cookie) {
    forall site, e :: e in At(s.sites, site) ==> !SameCookie(e.cookie, c)
  }

  lemma HeldDownFrom(b: seq<Entry>, now: int, cap: nat, keep: nat, after: seq<Entry>, x: Entry)
    requires HeldDown(b, now, cap, keep, after) && x in after
    ensures x in b
  {
    if |b| > cap {
      TrimmedIsFrom(Unexpired(b, now), keep, after, x);
      KeptEntries(b, ExpiredPositions(b, now), x);
    }
  }

  /** A header that sets the cookie, rather than deleting it. */
  predicate Sets(psl: SuffixList, r: Request, header: string, now: int, c: Cookie) {
    match SetCookie(psl, header, r, now)
    case None => false
    case Some(d) => SameCookie(d, c) && !Deletes(d, now)
  }

  lemma AppliedOneFrom(psl: SuffixList, lim: Limits, s: JarState, r: Request, header: string, now: int, t: JarState,
                       site: string, x: Entry, c: Cookie)
    requires JarOk(psl, s) && AppliedOne(psl, lim, s, r, header, now, t) && x in At(t.sites, site)
    requires SameCookie(x.cookie, c) && !Sets(psl, r, header, now, c)
    ensures x in At(s.sites, site)
  {
    match SetCookie(psl, header, r, now)
    case None =>
    case Some(d) =>
      if site == SiteOf(psl, d.domain) {
        var b := At(s.sites, site);
        var change := ApplySetCookie(b, d, now, r.secure, s.nextCreation, s.nextAccess);
        EmptyIsOk(psl, s, site);
        HeldDownFrom(change.bucket, now, 2 * lim.perDomain, lim.perDomain, At(t.sites, site), x);
        ApplyIsExact(b, d, now, r.secure, s.nextCreation, s.nextAccess, x);
      }
  }

  predicate SetsAt(psl: SuffixList, r: Request, headers: seq<string>, now: int, k: nat, c: Cookie)
    requires k < |headers|
  {
    Sets(psl, r, headers[k], now, c)
  }

  /** No header from the `i`th on sets the cookie. */
  predicate SetByNoneFrom(psl: SuffixList, r: Request, headers: seq<string>, now: int, i: nat, c: Cookie) {
    forall k :: i <= k < |headers| ==> !SetsAt(psl, r, headers, now, k, c)
  }

  /** Step `k` of a trace brings no entry of the cookie in. */
  ghost predicate KeepsAbsent(trace: seq<JarState>, k: nat, c: Cookie)
    requires k + 1 < |trace|
  {
    Absent(trace[k], c) ==> Absent(trace[k + 1], c)
  }

  /** Nothing between states `i` and `j` of a trace brings the cookie in. */
  ghost predicate KeptOut(trace: seq<JarState>, i: nat, j: nat, c: Cookie)
    requires j < |trace|
  {
    forall k :: i <= k < j ==> KeepsAbsent(trace, k, c)
  }

  lemma {:induction false} AbsentUntil(trace: seq<JarState>, i: nat, j: nat, c: Cookie)
    requires i <= j < |trace| && Absent(trace[i], c) && KeptOut(trace, i, j, c)
    ensures Absent(trace[j], c)
    decreases j - i
  {
    if i < j {
      AbsentUntil(trace, i, j - 1, c);
      assert KeepsAbsent(trace, j - 1, c);
    }
  }

  lemma HeaderKeepsAbsent(psl: SuffixList, lim: Limits, s: JarState, r: Request, header: string, now: int, t: JarState,
                          c: Cookie)
    requires JarOk(psl, s) && AppliedOne(psl, lim, s, r, header, now, t)
    requires Absent(s, c) && !Sets(psl, r, header, now, c)
    ensures Absent(t, c)
  {
    forall site, x | x in At(t.sites, site) ensures !SameCookie(x.cookie, c) {
      if SameCookie(x.cookie, c) {
        AppliedOneFrom(psl, lim, s, r, header, now, t, site, x, c);
      }
    }
  }

  lemma AppliedStepKeepsAbsent(psl: SuffixList, lim: Limits, r: Request, headers: seq<string>, now: int,
                               trace: seq<JarState>, k: nat, c: Cookie)
    requires AppliedThrough(psl, lim, r, headers, now, trace) && k < |headers| && JarOk(psl, trace[0])
    requires !SetsAt(psl, r, headers, now, k, c)
    ensures KeepsAbsent(trace, k, c)
  {
    AppliedThroughIsOk(psl, lim, r, headers, now, trace, k);
    if Absent(trace[k], c) {
      HeaderKeepsAbsent(psl, lim, trace[k], r, headers[k], now, trace[k + 1], c);
    }
  }

  lemma AppliedKeepsAbsent(psl: SuffixList, lim: Limits, r: Request, headers: seq<string>, now: int,
                           trace: seq<JarState>, i: nat, c: Cookie)
    requires AppliedThrough(psl, lim, r, headers, now, trace) && JarOk(psl, trace[0])
    requires SetByNoneFrom(psl, r, headers, now, i, c)
    ensures KeptOut(trace, i, |headers|, c)
  {
    forall k | i <= k < |headers| ensures KeepsAbsent(trace, k, c) {
      AppliedStepKeepsAbsent(psl, lim, r, headers, now, trace, k, c);
    }
  }

  /** A touched bucket past its cap sheds what has expired and is then cut to a sixth below the cap. */
  lemma TidiedSize(lim: Limits, s: JarState, site: string, now: int, t: JarState)
    requires TidiedOne(lim, s, site, now, t)
    ensures |At(t.sites, site)| == if |At(s.sites, site)| <= lim.perDomain then |At(s.sites, site)|
                                   else MinNat(|Unexpired(At(s.sites, site), now)|, lim.perDomain - lim.perDomain / 6)
  {
    var b := At(s.sites, site);
    if |b| > lim.perDomain { TrimmedSize(Unexpired(b, now), lim.DomainPurgeTarget(), At(t.sites, site)); }
  }

  lemma TidiedOneFrom(lim: Limits, s: JarState, tidied: string, now: int, t: JarState, site: string, x: Entry)
    requires TidiedOne(lim, s, tidied, now, t) && x in At(t.sites, site)
    ensures x in At(s.sites, site)
  {
    if site == tidied {
      HeldDownFrom(At(s.sites, site), now, lim.perDomain, lim.DomainPurgeTarget(), At(t.sites, site), x);
    }
  }

  lemma {:induction false} TidiedThroughFrom(lim: Limits, touched: seq<string>, now: int, trace: seq<JarState>, k: nat,
                                             site: string, x: Entry)
    requires TidiedThrough(lim, touched, now, trace) && k <= |touched| && x in At(trace[k].sites, site)
    ensures x in At(trace[0].sites, site)
  {
    if k > 0 {
      var i := k - 1;
      assert TidiedOne(lim, trace[i], touched[i], now, trace[i + 1]);
      TidiedOneFrom(lim, trace[i], touched[i], now, trace[k], site, x);
      TidiedThroughFrom(lim, touched, now, trace, i, site, x);
    }
  }

  lemma EnforcedFrom(lim: Limits, s: JarState, now: int, t: JarState, site: string, x: Entry)
    requires Enforced(lim, s, now, t) && x in At(t.sites, site)
    ensures x in At(s.sites, site)
  {
    if Total(s.sites) > lim.total {
      var victims: set<Candidate> :| t == s.(sites := WithoutVictims(s.sites, victims));
      KeptEntries(s.sites[site], DoomedIn(victims, site), x);
    }
  }

  // ----- A deletion -----

  /** The deleting header leaves no entry of its cookie where it reaches. */
  lemma DeletionRemoves(psl: SuffixList, lim: Limits, s: JarState, r: Request, header: string, now: int, t: JarState,
                        c: Cookie)
    requires JarOk(psl, s) && AppliedOne(psl, lim, s, r, header, now, t) && SetCookie(psl, header, r, now) == Some(c)
    requires Deletes(c, now) && !OutOfReach(At(s.sites, SiteOf(psl, c.domain)), c, r.secure)
    ensures Absent(t, c)
  {
    forall site, x | x in At(t.sites, site) ensures !SameCookie(x.cookie, c) {
      if SameCookie(x.cookie, c) {
        AppliedOneIsOk(psl, lim, s, r, header, now, t);
        EntryAtHome(psl, t, site, x);
        var b := At(s.sites, site);
        EmptyIsOk(psl, s, site);
        HeldDownFrom(ApplySetCookie(b, c, now, r.secure, s.nextCreation, s.nextAccess).bucket, now, 2 * lim.perDomain,
                     lim.perDomain, At(t.sites, site), x);
        ApplyIsExact(b, c, now, r.secure, s.nextCreation, s.nextAccess, x);
      }
    }
  }

  lemma EntryAtHome(psl: SuffixList, s: JarState, site: string, x: Entry)
    requires JarOk(psl, s) && x in At(s.sites, site)
    ensures SiteOf(psl, x.cookie.domain) == site
  {
    assert BucketOk(psl, site, s.sites[site], s.nextCreation, s.nextAccess);
    var i :| 0 <= i < |s.sites[site]| && s.sites[site][i] == x;
    assert EntryOk(psl, site, s.sites[site][i], s.nextCreation, s.nextAccess);
  }

  /** Header `k` of a response deletes `c`, can reach it, and no later header sets it again. */
  ghost predicate DeletesIn(psl: SuffixList, s: JarState, r: Request, headers: seq<string>, now: int, k: nat, c: Cookie) {
    && k < |headers| && SetCookie(psl, headers[k], r, now) == Some(c) && Deletes(c, now)
    && (r.secure || (k == 0 && !OutOfReach(At(s.sites, SiteOf(psl, c.domain)), c, r.secure)))
    && SetByNoneFrom(psl, r, headers, now, k + 1, c)
  }

  /** Trimming and purging bring nothing in. */
  lemma CleanupKeepsAbsent(lim: Limits, touched: seq<string>, now: int, tidied: seq<JarState>, t: JarState, c: Cookie)
    requires TidiedThrough(lim, touched, now, tidied) && Enforced(lim, tidied[|touched|], now, t) && Absent(tidied[0], c)
    ensures Absent(t, c)
  {
    forall site, x | x in At(t.sites, site) ensures !SameCookie(x.cookie, c) {
      EnforcedFrom(lim, tidied[|touched|], now, t, site, x);
      TidiedThroughFrom(lim, touched, now, tidied, |touched|, site, x);
    }
  }

  lemma DeletedOnTheWay(psl: SuffixList, lim: Limits, s: JarState, r: Request, headers: seq<string>, now: int,
                        applied: seq<JarState>, k: nat, c: Cookie)
    requires JarOk(psl, s) && AppliedThrough(psl, lim, r, headers, now, applied) && applied[0] == s
    requires DeletesIn(psl, s, r, headers, now, k, c)
    ensures Absent(applied[k + 1], c)
  {
    AppliedThroughIsOk(psl, lim, r, headers, now, applied, k);
    assert AppliedOne(psl, lim, applied[k], r, headers[k], now, applied[k + 1]);
    DeletionRemoves(psl, lim, applied[k], r, headers[k], now, applied[k + 1], c);
  }

  lemma DeletedOnceApplied(psl: SuffixList, lim: Limits, s: JarState, r: Request, headers: seq<string>, now: int,
                           applied: seq<JarState>, k: nat, c: Cookie)
    requires JarOk(psl, s) && AppliedThrough(psl, lim, r, headers, now, applied) && applied[0] == s
    requires DeletesIn(psl, s, r, headers, now, k, c)
    ensures Absent(applied[k + 1], c) && KeptOut(applied, k + 1, |headers|, c)
  {
    DeletedOnTheWay(psl, lim, s, r, headers, now, applied, k, c);
    AppliedKeepsAbsent(psl, lim, r, headers, now, applied, k + 1, c);
  }

  lemma AbsentAcross(applied: seq<JarState>, i: nat, n: nat, after: JarState, c: Cookie)
    requires i <= n < |applied| && Absent(applied[i], c) && KeptOut(applied, i, n, c) && applied[n] == after
    ensures Absent(after, c)
  {
    AbsentUntil(applied, i, n, c);
  }

  /** A response from whose state `i` on the cookie is kept out, and what its tidying and purge leave. */
  ghost predicate Vanishing(lim: Limits, touched: seq<string>, now: int, applied: seq<JarState>, tidied: seq<JarState>,
                            i: nat, n: nat, t: JarState, c: Cookie) {
    && i <= n < |applied| && Absent(applied[i], c) && KeptOut(applied, i, n, c)
    && |tidied| > 0 && applied[n] == tidied[0]
    && TidiedThrough(lim, touched, now, tidied) && Enforced(lim, tidied[|tidied| - 1], now, t)
  }

  lemma VanishedIsAbsent(lim: Limits, touched: seq<string>, now: int, applied: seq<JarState>, tidied: seq<JarState>,
                         i: nat, n: nat, t: JarState, c: Cookie)
    requires Vanishing(lim, touched, now, applied, tidied, i, n, t, c)
    ensures Absent(t, c)
  {
    AbsentAcross(applied, i, n, tidied[0], c);
    CleanupKeepsAbsent(lim, touched, now, tidied, t, c);
  }

  lemma DeletedTraces(psl: SuffixList, lim: Limits, s: JarState, r: Request, headers: seq<string>, now: int, t: JarState,
                      k: nat, c: Cookie) returns (touched: seq<string>, applied: seq<JarState>, tidied: seq<JarState>)
    requires JarOk(psl, s) && Stored(psl, lim, s, Some(r), headers, now, t) && DeletesIn(psl, s, r, headers, now, k, c)
    ensures Vanishing(lim, touched, now, applied, tidied, k + 1, |headers|, t, c)
  {
    touched := Touched(psl, r, headers, now);
    applied, tidied := StoredTraces(psl, lim, s, r, headers, now, t);
    DeletedOnceApplied(psl, lim, s, r, headers, now, applied, k, c);
  }

  /**
   A cookie a response deletes is in no bucket afterwards, whatever else the response sets and whatever
   is trimmed or purged.
   */
  lemma DeletedIsGone(psl: SuffixList, lim: Limits, s: JarState, r: Request, headers: seq<string>, now: int, t: JarState,
                      k: nat, c: Cookie)
    requires JarOk(psl, s) && Stored(psl, lim, s, Some(r), headers, now, t) && DeletesIn(psl, s, r, headers, now, k, c)
    ensures Absent(t, c)
  {
    var touched, applied, tidied := DeletedTraces(psl, lim, s, r, headers, now, t, k, c);
    var i, n := k + 1, |headers|;
    VanishedIsAbsent(lim, touched, now, applied, tidied, i, n, t, c);
  }

  // ----- Until it is stored or imported again -----

  lemma StoreKeepsAbsent(psl: SuffixList, lim: Limits, s: JarState, r: Request, headers: seq<string>, now: int, t: JarState,
                         c: Cookie)
    requires JarOk(psl, s) && Stored(psl, lim, s, Some(r), headers, now, t) && Absent(s, c)
    requires SetByNoneFrom(psl, r, headers, now, 0, c)
    ensures Absent(t, c)
  {
    var applied, tidied := StoredTraces(psl, lim, s, r, headers, now, t);
    AppliedKeepsAbsent(psl, lim, r, headers, now, applied, 0, c);
    VanishedIsAbsent(lim, Touched(psl, r, headers, now), now, applied, tidied, 0, |headers|, t, c);
  }

  /** Exactly what one record of a snapshot leaves: itself, in place of any entry of the same cookie. */
  lemma AbsorbIsExact(psl: SuffixList, s: JarState, rec: CookieRecord, now: int, site: string, x: Entry)
    requires JarOk(psl, s)
    ensures var b, e := At(s.sites, site), EntryOf(rec);
            x in At(AbsorbOne(psl, s, rec, now).sites, site) <==>
              if site == SiteOf(psl, rec.domain) && Admissible(rec, now)
              then x == e || (x in b && !SameCookie(x.cookie, e.cookie)) else x in b
  {
    var b, e := At(s.sites, site), EntryOf(rec);
    EmptyIsOk(psl, s, site);
    FoundIs(b, e.cookie);
    var found := PositionOf(b, IdentityOf(e.cookie));
    if found.Some? { SwapRemoveEntries(b, found.value, x); }
  }

  lemma {:induction false} AbsorbedFrom(psl: SuffixList, s: JarState, records: seq<CookieRecord>, now: int, site: string,
                                        x: Entry, c: Cookie)
    requires JarOk(psl, s) && x in At(AbsorbRecords(psl, s, records, now).sites, site) && SameCookie(x.cookie, c)
    requires forall i :: 0 <= i < |records| ==> !SameCookie(EntryOf(records[i]).cookie, c)
    ensures x in At(s.sites, site)
    decreases |records|
  {
    if records != [] {
      var front, last := records[..|records| - 1], records[|records| - 1];
      AbsorbRecordsIsOk(psl, s, front, now);
      AbsorbIsExact(psl, AbsorbRecords(psl, s, front, now), last, now, site, x);
      AbsorbedFrom(psl, s, front, now, site, x, c);
    }
  }

  lemma TidiedEverywhereFrom(lim: Limits, s: JarState, now: int, t: JarState, site: string, x: Entry)
    requires TidiedEverywhere(lim, s, now, t) && x in At(t.sites, site)
    ensures x in At(s.sites, site)
  {
    TrimmedIsFrom(Unexpired(s.sites[site], now), lim.perDomain, At(t.sites, site), x);
    KeptEntries(s.sites[site], ExpiredPositions(s.sites[site], now), x);
  }

  lemma ImportKeepsAbsent(psl: SuffixList, lim: Limits, s: JarState, records: seq<CookieRecord>, now: int, t: JarState,
                          c: Cookie)
    requires JarOk(psl, s) && Imported(psl, lim, s, records, now, t) && Absent(s, c)
    requires forall i :: 0 <= i < |records| ==> !SameCookie(EntryOf(records[i]).cookie, c)
    ensures Absent(t, c)
  {
    var m := AbsorbRecords(psl, s, records, now);
    var tidied: JarState :| TidiedEverywhere(lim, m, now, tidied) && Enforced(lim, tidied, now, t);
    forall site, x | x in At(t.sites, site) ensures !SameCookie(x.cookie, c) {
      EnforcedFrom(lim, tidied, now, t, site, x);
      TidiedEverywhereFrom(lim, m, now, tidied, site, x);
      if SameCookie(x.cookie, c) {
        AbsorbedFrom(psl, s, records, now, site, x, c);
      }
    }
  }

  lemma LookupKeepsAbsent(psl: SuffixList, s: JarState, r: Request, ctx: Context, now: int, c: Cookie)
    requires Absent(s, c)
    ensures Absent(AfterLookup(psl, s, r, ctx, now), c)
  {
    var t := AfterLookup(psl, s, r, ctx, now);
    forall site, x | x in At(t.sites, site) ensures !SameCookie(x.cookie, c) {
      var i :| 0 <= i < |t.sites[site]| && t.sites[site][i] == x;
      assert s.sites[site][i] in At(s.sites, site) && s.sites[site][i].cookie == x.cookie;
    }
  }

  /** An operation that may bring the cookie back. */
  ghost predicate Introduces(psl: SuffixList, op: Op, c: Cookie) {
    match op
    case Store(req, headers, now) => req.Some? && !SetByNoneFrom(psl, req.value, headers, now, 0, c)
    case Import(records, _) => exists i :: 0 <= i < |records| && SameCookie(EntryOf(records[i]).cookie, c)
    case Lookup(_, _, _) => false
  }

  lemma StepKeepsAbsent(psl: SuffixList, lim: Limits, s: JarState, op: Op, t: JarState, c: Cookie)
    requires JarOk(psl, s) && Steps(psl, lim, s, op, t) && Absent(s, c) && !Introduces(psl, op, c)
    ensures Absent(t, c)
  {
    match op
    case Store(req, headers, now) =>
      if req.Some? {
        assert SetByNoneFrom(psl, req.value, headers, now, 0, c);
        StoreKeepsAbsent(psl, lim, s, req.value, headers, now, t, c);
      }
    case Import(records, now) => ImportKeepsAbsent(psl, lim, s, records, now, t, c);
    case Lookup(req, ctx, now) => if req.Some? { LookupKeepsAbsent(psl, s, req.value, ctx, now, c); }
  }

  ghost predicate IntroducesAt(psl: SuffixList, ops: seq<Op>, k: nat, c: Cookie)
    requires k < |ops|
  {
    Introduces(psl, ops[k], c)
  }

  lemma RunStepKeepsAbsent(psl: SuffixList, lim: Limits, ops: seq<Op>, trace: seq<JarState>, k: nat, c: Cookie)
    requires Run(psl, lim, ops, trace) && k < |ops| && !IntroducesAt(psl, ops, k, c)
    ensures KeepsAbsent(trace, k, c)
  {
    EveryRunKeepsTheJar(psl, lim, ops, trace, k);
    assert Steps(psl, lim, trace[k], ops[k], trace[k + 1]);
    if Absent(trace[k], c) { StepKeepsAbsent(psl, lim, trace[k], ops[k], trace[k + 1], c); }
  }

  /** Operation `i` of the run is a response whose header `k` deletes the cookie. */
  ghost predicate DeletedAt(psl: SuffixList, ops: seq<Op>, trace: seq<JarState>, i: nat, k: nat, c: Cookie)
    requires i < |ops| && i < |trace|
  {
    && ops[i].Store? && ops[i].request.Some?
    && DeletesIn(psl, trace[i], ops[i].request.value, ops[i].headers, ops[i].now, k, c)
  }

  lemma DeletedThen(psl: SuffixList, lim: Limits, ops: seq<Op>, trace: seq<JarState>, i: nat, k: nat, c: Cookie)
    requires Run(psl, lim, ops, trace) && i < |ops| && DeletedAt(psl, ops, trace, i, k, c)
    ensures Absent(trace[i + 1], c)
  {
    EveryRunKeepsTheJar(psl, lim, ops, trace, i);
    assert Steps(psl, lim, trace[i], ops[i], trace[i + 1]);
    DeletedIsGone(psl, lim, trace[i], ops[i].request.value, ops[i].headers, ops[i].now, trace[i + 1], k, c);
  }

  /** No operation from `i` to `j` brings the cookie in. */
  ghost predicate Quiet(psl: SuffixList, ops: seq<Op>, i: nat, j: nat, c: Cookie)
    requires j <= |ops|
  {
    forall l :: i <= l < j ==> !IntroducesAt(psl, ops, l, c)
  }

  lemma QuietKeepsAbsent(psl: SuffixList, lim: Limits, ops: seq<Op>, trace: seq<JarState>, i: nat, j: nat, c: Cookie)
    requires Run(psl, lim, ops, trace) && i <= j <= |ops| && Quiet(psl, ops, i, j, c)
    ensures KeptOut(trace, i, j, c)
  {
    forall l | i <= l < j ensures KeepsAbsent(trace, l, c) {
      RunStepKeepsAbsent(psl, lim, ops, trace, l, c);
    }
  }

  lemma QuietStaysAbsent(psl: SuffixList, lim: Limits, ops: seq<Op>, trace: seq<JarState>, i: nat, j: nat, c: Cookie)
    requires Run(psl, lim, ops, trace) && i <= j <= |ops| && Quiet(psl, ops, i, j, c) && Absent(trace[i], c)
    ensures Absent(trace[j], c)
  {
    QuietKeepsAbsent(psl, lim, ops, trace, i, j, c);
    AbsentUntil(trace, i, j, c);
  }

  lemma DeletedStaysGone(psl: SuffixList, lim: Limits, ops: seq<Op>, trace: seq<JarState>, i: nat, j: nat, k: nat, c: Cookie)
    requires Run(psl, lim, ops, trace) && i < j <= |ops| && DeletedAt(psl, ops, trace, i, k, c)
    requires Quiet(psl, ops, i + 1, j, c)
    ensures Absent(trace[j], c)
  {
    var after := i + 1;
    DeletedThen(psl, lim, ops, trace, i, k, c);
    QuietStaysAbsent(psl, lim, ops, trace, after, j, c);
  }

  /**
   In every run: from the response that deletes a cookie until one sets it or a snapshot brings it back,
   no lookup sends it.
   */
  lemma DeletedIsNotSent(psl: SuffixList, lim: Limits, ops: seq<Op>, trace: seq<JarState>, i: nat, j: nat, k: nat, c: Cookie,
                         r: Request, ctx: Context, now: int, e: Entry)
    requires Run(psl, lim, ops, trace) && i < j <= |ops| && DeletedAt(psl, ops, trace, i, k, c)
    requires Quiet(psl, ops, i + 1, j, c)
    requires e in Sent(psl, trace[j], r, ctx, now)
    ensures !SameCookie(e.cookie, c)
  {
    DeletedStaysGone(psl, lim, ops, trace, i, j, k, c);
    SentAre(psl, trace[j], r, ctx, now, e);
  }

  // ----- Who is sent what -----

  /** The path, or something below it: the text after it starts at a slash. */
  predicate AtOrBelow(path: string, request: string) {
    && |path| <= |request| && request[..|path|] == path
    && (|path| == |request| || request[|path|] == '/' || (path != "" && path[|path| - 1] == '/'))
  }

  lemma PathIsAtOrBelow(request: string, path: string)
    ensures PathMatches(request, path) <==> AtOrBelow(path, request)
  {
    if path <= request { assert request[..|path|] == path; }
    if AtOrBelow(path, request) && |path| == |request| { assert request[..|path|] == request; }
    if path != "" { assert path[|path| - 1..] == [path[|path| - 1]]; }
  }

  /**
   Two hosts are one site when they are the same host, or neither is an address and both register one
   domain; given only that a registered domain is no address and registers itself.
   */
  lemma OneSiteIff(psl: SuffixList, a: string, b: string)
    requires forall h, d :: psl.registrable(h) == Some(d) ==> !psl.isIpLiteral(d) && psl.registrable(d) == Some(d)
    ensures SiteOf(psl, a) == SiteOf(psl, b) <==>
            || a == b
            || (&& !psl.isIpLiteral(a) && !psl.isIpLiteral(b)
                && psl.registrable(a).Some? && psl.registrable(a) == psl.registrable(b))
  {
  }

  /** The request was started by a page of the host's own site. */
  predicate SameSiteRequest(psl: SuffixList, r: Request, ctx: Context) {
    ctx.initiator.Some? && SiteOf(psl, ctx.initiator.value) == SiteOf(psl, r.host)
  }

  /**
   A cookie a request may see: one that has not expired, a Secure one only if the request is, a host-only
   one only at its own host and any other at its domain and below, each at its path and below, a `Strict`
   one only in a request that its own site started, a `Lax` one in those and in top-level navigations.
   */
  predicate MaySee(psl: SuffixList, c: Cookie, r: Request, ctx: Context, now: int) {
    && (c.expires.None? || now < c.expires.value)
    && (c.secure ==> r.secure)
    && (if c.hostOnly then r.host == c.domain else CookieReading.Covers(psl, c.domain, r.host))
    && AtOrBelow(c.path, r.path)
    && (c.sameSite == Strict ==> SameSiteRequest(psl, r, ctx))
    && (c.sameSite == Lax ==> ctx.topLevelNavigation || SameSiteRequest(psl, r, ctx))
  }

  /** In every state, a lookup sends exactly what the request may see of the host's bucket. */
  lemma SentIff(psl: SuffixList, s: JarState, r: Request, ctx: Context, now: int, e: Entry)
    ensures e in Sent(psl, s, r, ctx, now) <==> e in At(s.sites, SiteOf(psl, r.host)) && MaySee(psl, e.cookie, r, ctx, now)
  {
    SentAre(psl, s, r, ctx, now, e);
    PathIsAtOrBelow(r.path, e.cookie.path);
    CookieReading.CoversIff(psl, r.host, e.cookie.domain);
  }

  /** Longer paths first, and among equally long ones the older cookie. */
  predicate LongerThenOlder(sent: seq<Entry>) {
    forall i, j :: 0 <= i < j < |sent| ==>
                     var a, b := ByteLength(sent[i].cookie.path), ByteLength(sent[j].cookie.path);
                     a > b || (a == b && sent[i].creationSeq <= sent[j].creationSeq)
  }

  /** The header lists what the request may see, longer paths first and then older cookies; or there is nothing. */
  ghost predicate HeaderLists(psl: SuffixList, s: JarState, r: Request, ctx: Context, now: int, header: Option<string>) {
    exists sent: seq<Entry> ::
      && (forall e :: e in sent <==> e in At(s.sites, SiteOf(psl, r.host)) && MaySee(psl, e.cookie, r, ctx, now))
      && LongerThenOlder(sent)
      && header == if sent == [] then None else Some(Join(Pairs(sent), "; "))
  }

  lemma InOrderIs(sent: seq<Entry>)
    requires InOrder(sent)
    ensures LongerThenOlder(sent)
  {
  }

  lemma LookupLists(psl: SuffixList, s: JarState, r: Request, ctx: Context, now: int)
    requires JarOk(psl, s)
    ensures HeaderLists(psl, s, r, ctx, now, CookieHeader(psl, s, r, ctx, now))
  {
    var sent := Sent(psl, s, r, ctx, now);
    HeaderIsExact(psl, s, r, ctx, now);
    InOrderIs(sent);
    forall e ensures e in sent <==> e in At(s.sites, SiteOf(psl, r.host)) && MaySee(psl, e.cookie, r, ctx, now) {
      SentIff(psl, s, r, ctx, now, e);
    }
  }

  /** A lookup stamps exactly what it sends, all with one number, and changes nothing else. */
  lemma LookupStampsWhatItSends(psl: SuffixList, s: JarState, r: Request, ctx: Context, now: int, site: string, i: nat)
    requires site in s.sites && i < |s.sites[site]|
    ensures var t := AfterLookup(psl, s, r, ctx, now);
            && t.sites.Keys == s.sites.Keys && |t.sites[site]| == |s.sites[site]| && t.nextCreation == s.nextCreation
            && t.sites[site][i] ==
               (if site == SiteOf(psl, r.host) && s.sites[site][i] in Sent(psl, s, r, ctx, now)
                then s.sites[site][i].(lastAccess := s.nextAccess) else s.sites[site][i])
            && t.nextAccess == (if Sent(psl, s, r, ctx, now) == [] then s.nextAccess else s.nextAccess + 1)
  {
    var mine := SiteOf(psl, r.host);
    OrderedIsSorted(Matches(psl, At(s.sites, mine), r, ctx, now));
    SameEmptiness(Ordered(Matches(psl, At(s.sites, mine), r, ctx, now)), Matches(psl, At(s.sites, mine), r, ctx, now));
    if site == mine { SentAre(psl, s, r, ctx, now, s.sites[site][i]); }
    if mine in s.sites && i < |s.sites[mine]| { MatchesAre(psl, s.sites[mine], r, ctx, now, s.sites[mine][i]); }
  }

  lemma SameEmptiness(a: seq<Entry>, b: seq<Entry>)
    requires multiset(a) == multiset(b)
    ensures a == [] <==> b == []
  {
    assert a != [] ==> a[0] in multiset(a);
    assert b != [] ==> b[0] in multiset(b);
  }

  // ----- What the header says -----

  lemma PairReadsBack(e: Entry)
    requires Representable(e.cookie.name, e.cookie.value)
    ensures ';' !in Pair(e) && Find(Pair(e), '=') == Some(|e.cookie.name|)
    ensures Pair(e)[..|e.cookie.name|] == e.cookie.name && Pair(e)[|e.cookie.name| + 1..] == e.cookie.value
  {
    var p := Pair(e);
    assert p[|e.cookie.name|] == '=';
    assert forall k :: 0 <= k < |e.cookie.name| ==> p[k] == e.cookie.name[k];
  }

  /**
   A server that cuts the header at its semicolons, drops the blank after each, and cuts each part at its
   first equals sign, reads exactly the names and values of what was sent, in order.
   */
  lemma HeaderReadsBack(psl: SuffixList, s: JarState, r: Request, ctx: Context, now: int)
    requires JarOk(psl, s) && CookieHeader(psl, s, r, ctx, now).Some?
    ensures var sent, pieces := Sent(psl, s, r, ctx, now), Split(CookieHeader(psl, s, r, ctx, now).value, ';');
            && |pieces| == |sent|
            && forall i :: 0 <= i < |sent| ==> pieces[i] == (if i == 0 then "" else " ") + Pair(sent[i])
    ensures forall e :: e in Sent(psl, s, r, ctx, now) ==>
              var p, n := Pair(e), |e.cookie.name|;
              Find(p, '=') == Some(n) && n < |p| && p[..n] == e.cookie.name && p[n + 1..] == e.cookie.value
  {
    var sent := Sent(psl, s, r, ctx, now);
    HeaderIsExact(psl, s, r, ctx, now);
    forall e | e in sent
      ensures ';' !in Pair(e)
      ensures var p, n := Pair(e), |e.cookie.name|;
              Find(p, '=') == Some(n) && n < |p| && p[..n] == e.cookie.name && p[n + 1..] == e.cookie.value
    {
      SentAre(psl, s, r, ctx, now, e);
      EntriesAreSound(psl, s, SiteOf(psl, r.host), e);
      PairReadsBack(e);
    }
    JoinedPieces(Pairs(sent), ';');
  }
}
