/** What a lookup sends, which cookies survive a store, and what a plaintext response cannot reach. */
module JarSafety {
  import opened Options
  import opened Text
  import opened Cookies
  import opened JarModel
  import opened JarBuckets
  import opened JarTotals
  import opened JarRuns

  // ----- The header -----

  lemma {:induction false} MatchesAre(psl: SuffixList, b: seq<Entry>, r: Request, ctx: Context, now: int, e: Entry)
    ensures e in Matches(psl, b, r, ctx, now) <==> e in b && Eligible(psl, e, r, ctx, now)
    decreases |b|
  {
    if b != [] {
      var front := b[..|b| - 1];
      MatchesAre(psl, front, r, ctx, now, e);
      assert b == front + [b[|b| - 1]];
    }
  }

  /** Nothing is sent ahead of something it should follow. */
  predicate InOrder(s: seq<Entry>) {
    forall i, j :: 0 <= i < j < |s| ==> !SentBefore(s[j], s[i])
  }

  lemma {:induction false} InsertKeepsMembers(s: seq<Entry>, e: Entry)
    ensures multiset(Insert(s, e)) == multiset(s) + multiset{e}
    decreases |s|
  {
    if s != [] && SentBefore(e, s[|s| - 1]) {
      InsertKeepsMembers(s[..|s| - 1], e);
      assert s == s[..|s| - 1] + [s[|s| - 1]];
    }
  }

  /** An entry behind everything of a list in order leaves the list in order. */
  lemma LastInOrder(s: seq<Entry>, last: Entry)
    requires InOrder(s) && forall x :: x in s ==> !SentBefore(last, x)
    ensures InOrder(s + [last])
  {
  }

  lemma {:induction false} InsertKeepsOrder(s: seq<Entry>, e: Entry)
    requires InOrder(s)
    ensures InOrder(Insert(s, e))
    decreases |s|
  {
    if s == [] {
    } else if SentBefore(e, s[|s| - 1]) {
      var front, last := s[..|s| - 1], s[|s| - 1];
      InsertKeepsOrder(front, e);
      InsertKeepsMembers(front, e);
      forall x | x in Insert(front, e) ensures !SentBefore(last, x) {
        assert x in multiset(Insert(front, e));
      }
      LastInOrder(Insert(front, e), last);
    } else {
      forall x | x in s ensures !SentBefore(e, x) {
        assert x == s[|s| - 1] || !SentBefore(s[|s| - 1], x);
      }
      LastInOrder(s, e);
    }
  }

  lemma {:induction false} OrderedIsSorted(s: seq<Entry>)
    ensures InOrder(Ordered(s)) && multiset(Ordered(s)) == multiset(s)
    decreases |s|
  {
    if s != [] {
      var front := s[..|s| - 1];
      OrderedIsSorted(front);
      InsertKeepsOrder(Ordered(front), s[|s| - 1]);
      InsertKeepsMembers(Ordered(front), s[|s| - 1]);
      assert s == front + [s[|s| - 1]];
    }
  }

  /** The entries of a list that the sending order cannot tell from `x`, as they stand. */
  function TiedWith(s: seq<Entry>, x: Entry): seq<Entry> {
    if s == [] then []
    else
      var front, last := TiedWith(s[..|s| - 1], x), s[|s| - 1];
      if SentBefore(last, x) || SentBefore(x, last) then front else front + [last]
  }

  lemma TiedOneMore(s: seq<Entry>, last: Entry, x: Entry)
    ensures TiedWith(s + [last], x) == TiedWith(s, x) + if SentBefore(last, x) || SentBefore(x, last) then [] else [last]
  {
    assert (s + [last])[..|s|] == s;
  }

  lemma {:induction false} InsertIsStable(s: seq<Entry>, e: Entry, x: Entry)
    ensures TiedWith(Insert(s, e), x) == TiedWith(s + [e], x)
    decreases |s|
  {
    if s != [] && SentBefore(e, s[|s| - 1]) {
      var front, last := s[..|s| - 1], s[|s| - 1];
      InsertIsStable(front, e, x);
      TiedOneMore(Insert(front, e), last, x);
      TiedOneMore(front, e, x);
      TiedOneMore(front, last, x);
      assert s == front + [last];
      TiedOneMore(s, e, x);
    }
  }

  /** Ties keep the order they had in the bucket. */
  lemma {:induction false} OrderedIsStable(s: seq<Entry>, x: Entry)
    ensures TiedWith(Ordered(s), x) == TiedWith(s, x)
    decreases |s|
  {
    if s != [] {
      var front, last := s[..|s| - 1], s[|s| - 1];
      OrderedIsStable(front, x);
      InsertIsStable(Ordered(front), last, x);
      TiedOneMore(Ordered(front), last, x);
    }
  }

  lemma {:induction false} JoinIsVisible(parts: seq<string>, sep: string)
    requires AllVisible(sep) && forall i :: 0 <= i < |parts| ==> AllVisible(parts[i])
    ensures AllVisible(Join(parts, sep))
    decreases |parts|
  {
    if |parts| > 1 { JoinIsVisible(parts[1..], sep); }
  }

  /** What one lookup puts in the header, in order. */
  function Sent(psl: SuffixList, s: JarState, r: Request, ctx: Context, now: int): seq<Entry> {
    Ordered(Matches(psl, At(s.sites, SiteOf(psl, r.host)), r, ctx, now))
  }

  lemma SentAre(psl: SuffixList, s: JarState, r: Request, ctx: Context, now: int, e: Entry)
    ensures e in Sent(psl, s, r, ctx, now) <==> e in At(s.sites, SiteOf(psl, r.host)) && Eligible(psl, e, r, ctx, now)
  {
    var b := At(s.sites, SiteOf(psl, r.host));
    MatchesAre(psl, b, r, ctx, now, e);
    OrderedIsSorted(Matches(psl, b, r, ctx, now));
    assert e in Sent(psl, s, r, ctx, now) <==> e in multiset(Sent(psl, s, r, ctx, now));
  }

  lemma SentIsVisible(psl: SuffixList, s: JarState, r: Request, ctx: Context, now: int)
    requires JarOk(psl, s)
    ensures AllVisible(Join(Pairs(Sent(psl, s, r, ctx, now)), "; "))
  {
    var sent := Sent(psl, s, r, ctx, now);
    forall i | 0 <= i < |sent| ensures AllVisible(Pairs(sent)[i]) {
      SentAre(psl, s, r, ctx, now, sent[i]);
      EntriesAreSound(psl, s, SiteOf(psl, r.host), sent[i]);
    }
    JoinIsVisible(Pairs(sent), "; ");
  }

  lemma EntriesAreSound(psl: SuffixList, s: JarState, site: string, e: Entry)
    requires JarOk(psl, s) && e in At(s.sites, site)
    ensures Sound(e.cookie)
  {
    assert BucketOk(psl, site, s.sites[site], s.nextCreation, s.nextAccess);
    var i :| 0 <= i < |s.sites[site]| && s.sites[site][i] == e;
    assert EntryOk(psl, site, s.sites[site][i], s.nextCreation, s.nextAccess);
  }

  /**
   The header a coherent jar sends is every eligible cookie of the host's bucket, each as often as it
   is there, in sending order with ties as they stand in the bucket; the fallback for text no header
   can carry is never taken.
   */
  lemma HeaderIsExact(psl: SuffixList, s: JarState, r: Request, ctx: Context, now: int)
    requires JarOk(psl, s)
    ensures var sent := Sent(psl, s, r, ctx, now);
            && CookieHeader(psl, s, r, ctx, now) == (if sent == [] then None else Some(Join(Pairs(sent), "; ")))
            && InOrder(sent)
            && multiset(sent) == multiset(Matches(psl, At(s.sites, SiteOf(psl, r.host)), r, ctx, now))
            && forall x :: TiedWith(sent, x) == TiedWith(Matches(psl, At(s.sites, SiteOf(psl, r.host)), r, ctx, now), x)
  {
    var matches := Matches(psl, At(s.sites, SiteOf(psl, r.host)), r, ctx, now);
    SentIsVisible(psl, s, r, ctx, now);
    OrderedIsSorted(matches);
    forall x ensures TiedWith(Ordered(matches), x) == TiedWith(matches, x) {
      OrderedIsStable(matches, x);
    }
  }

  /** In every run, a prefixed cookie is sent only over a secure origin, and a `__Host-` one only to its own host. */
  lemma PrefixedCookiesStayHome(psl: SuffixList, lim: Limits, ops: seq<Op>, trace: seq<JarState>, k: nat,
                                r: Request, ctx: Context, now: int, e: Entry)
    requires Run(psl, lim, ops, trace) && k <= |ops|
    requires e in Sent(psl, trace[k], r, ctx, now)
    ensures HasHostPrefix(e.cookie.name) || HasSecurePrefix(e.cookie.name) ==> r.secure
    ensures HasHostPrefix(e.cookie.name) ==> r.host == e.cookie.domain && e.cookie.path == "/"
  {
    EveryRunKeepsTheJar(psl, lim, ops, trace, k);
    SentAre(psl, trace[k], r, ctx, now, e);
    EntriesAreSound(psl, trace[k], SiteOf(psl, r.host), e);
  }

  // ----- A cookie just stored -----

  /** `e` is in the bucket for `site` and was used after everything else in the jar. */
  ghost predicate Latest(s: JarState, site: string, e: Entry) {
    && e in At(s.sites, site)
    && forall u, k :: u in s.sites && 0 <= k < |s.sites[u]| && s.sites[u][k] != e ==> s.sites[u][k].lastAccess < e.lastAccess
  }

  lemma LatestIsNewest(psl: SuffixList, s: JarState, site: string, e: Entry) returns (i: nat)
    requires JarOk(psl, s) && Latest(s, site, e)
    ensures Newest(s, site, i) && s.sites[site][i] == e
  {
    i :| 0 <= i < |s.sites[site]| && s.sites[site][i] == e;
    forall u, k | u in s.sites && 0 <= k < |s.sites[u]| && (u != site || k != i)
      ensures s.sites[u][k].lastAccess < e.lastAccess
    {
      OneEntryOnePlace(psl, s, u, k, site, i);
    }
  }

  /** A live cookie a plaintext response may not have been barred from setting becomes the latest entry. */
  lemma ApplyingMakesLatest(b: seq<Entry>, c: Cookie, now: int, secure: bool, nc: nat, na: nat) returns (e: Entry)
    requires !Expired(c, now) && !SecureBlocks(b, c, secure)
    requires DistinctIds(b) && forall i :: 0 <= i < |b| ==> b[i].lastAccess < na
    ensures e.cookie == c && e.lastAccess == na
    ensures var after := ApplySetCookie(b, c, now, secure, nc, na).bucket;
            && e in after
            && forall x :: x in after && x != e ==> x.lastAccess < e.lastAccess
  {
    var existing := PositionOf(b, IdentityOf(c));
    var after := ApplySetCookie(b, c, now, secure, nc, na).bucket;
    if existing.Some? {
      e := Entry(c, b[existing.value].creationSeq, na);
      assert after[existing.value] == e;
    } else {
      e := Entry(c, nc, na);
      assert after[|b|] == e;
    }
  }

  lemma HeldDownKeepsLatest(s: JarState, site: string, b: seq<Entry>, now: int, cap: nat, keep: nat, t: JarState,
                            e: Entry)
    requires e in b && !Expired(e.cookie, now) && keep > 0
    requires forall x :: x in b && x != e ==> x.lastAccess < e.lastAccess
    requires forall u, k :: u in s.sites && u != site && 0 <= k < |s.sites[u]| ==> s.sites[u][k].lastAccess < e.lastAccess
    requires t.sites == PutSite(s.sites, site, At(t.sites, site))
    requires HeldDown(b, now, cap, keep, At(t.sites, site))
    ensures Latest(t, site, e)
    ensures forall u, k :: u in t.sites && u != site && 0 <= k < |t.sites[u]| ==> t.sites[u][k].lastAccess < e.lastAccess
  {
    HeldDownKeepsTheNewest(b, now, cap, keep, At(t.sites, site), e);
    forall u, k | u in t.sites && 0 <= k < |t.sites[u]| && t.sites[u][k] != e
      ensures t.sites[u][k].lastAccess < e.lastAccess
    {
      if u == site {
        assert t.sites[u][k] in At(t.sites, site);
      }
    }
  }

  lemma BelowTheCounter(psl: SuffixList, s: JarState, u: string, k: nat)
    requires JarOk(psl, s) && u in s.sites && k < |s.sites[u]|
    ensures s.sites[u][k].lastAccess < s.nextAccess
  {
    assert BucketOk(psl, u, s.sites[u], s.nextCreation, s.nextAccess);
    assert EntryOk(psl, u, s.sites[u][k], s.nextCreation, s.nextAccess);
  }

  /** After its own header is applied the cookie is the latest entry of the jar. */
  lemma AppliedIsLatest(psl: SuffixList, lim: Limits, s: JarState, r: Request, header: string, now: int, t: JarState)
    returns (e: Entry)
    requires JarOk(psl, s) && AppliedOne(psl, lim, s, r, header, now, t) && lim.perDomain > 0
    requires SetCookie(psl, header, r, now).Some?
    requires var c := SetCookie(psl, header, r, now).value;
             !Expired(c, now) && !SecureBlocks(At(s.sites, SiteOf(psl, c.domain)), c, r.secure)
    ensures e.cookie == SetCookie(psl, header, r, now).value && e.lastAccess == s.nextAccess
    ensures Latest(t, SiteOf(psl, e.cookie.domain), e)
  {
    var c := SetCookie(psl, header, r, now).value;
    var site := SiteOf(psl, c.domain);
    var b := At(s.sites, site);
    EmptyIsOk(psl, s, site);
    forall i | 0 <= i < |b| ensures b[i].lastAccess < s.nextAccess { BelowTheCounter(psl, s, site, i); }
    e := ApplyingMakesLatest(b, c, now, r.secure, s.nextCreation, s.nextAccess);
    forall u, k | u in s.sites && u != site && 0 <= k < |s.sites[u]| ensures s.sites[u][k].lastAccess < e.lastAccess {
      BelowTheCounter(psl, s, u, k);
    }
    var change := ApplySetCookie(b, c, now, r.secure, s.nextCreation, s.nextAccess);
    HeldDownKeepsLatest(s, site, change.bucket, now, 2 * lim.perDomain, lim.perDomain, t, e);
  }

  lemma TidyingKeepsLatest(lim: Limits, s: JarState, site: string, now: int, t: JarState, e: Entry)
    requires TidiedOne(lim, s, site, now, t) && lim.perDomain > 0
    requires Latest(s, site, e) && !Expired(e.cookie, now)
    requires forall u, k :: u in s.sites && u != site && 0 <= k < |s.sites[u]| ==> s.sites[u][k].lastAccess < e.lastAccess
    ensures Latest(t, site, e)
  {
    forall x | x in At(s.sites, site) && x != e ensures x.lastAccess < e.lastAccess {
      var k :| 0 <= k < |s.sites[site]| && s.sites[site][k] == x;
    }
    HeldDownKeepsLatest(s, site, At(s.sites, site), now, lim.perDomain, lim.DomainPurgeTarget(), t, e);
  }

  lemma LatestElsewhere(psl: SuffixList, s: JarState, site: string, e: Entry)
    requires JarOk(psl, s) && Latest(s, site, e)
    ensures forall u, k :: u in s.sites && u != site && 0 <= k < |s.sites[u]| ==> s.sites[u][k].lastAccess < e.lastAccess
  {
    var i := LatestIsNewest(psl, s, site, e);
  }

  /** The latest live entry outlives the tidying of its bucket and the purge of the jar. */
  lemma LatestSurvivesCleanup(psl: SuffixList, lim: Limits, applied: JarState, site: string, now: int,
                              tidied: JarState, t: JarState, e: Entry)
    requires JarOk(psl, applied) && Latest(applied, site, e) && !Expired(e.cookie, now)
    requires lim.perDomain > 0 && lim.total > 0
    requires TidiedOne(lim, applied, site, now, tidied) && Enforced(lim, tidied, now, t)
    ensures e in At(t.sites, site)
  {
    LatestElsewhere(psl, applied, site, e);
    TidyingKeepsLatest(lim, applied, site, now, tidied, e);
    TidiedOneIsOk(psl, lim, applied, site, now, tidied);
    var i := LatestIsNewest(psl, tidied, site, e);
    PurgeKeepsTheNewest(lim, tidied, now, t, site, i);
  }

  /**
   With room for at least one cookie, a live cookie stored or replaced by a one-header response is in
   the jar afterwards, whatever the response's own purges removed.
   */
  lemma FreshCookieSurvives(psl: SuffixList, lim: Limits, s: JarState, r: Request, header: string, now: int,
                            t: JarState) returns (e: Entry)
    requires JarOk(psl, s) && Stored(psl, lim, s, Some(r), [header], now, t)
    requires lim.perDomain > 0 && lim.total > 0
    requires SetCookie(psl, header, r, now).Some?
    requires var c := SetCookie(psl, header, r, now).value;
             !Expired(c, now) && !SecureBlocks(At(s.sites, SiteOf(psl, c.domain)), c, r.secure)
    ensures e.cookie == SetCookie(psl, header, r, now).value
    ensures e in At(t.sites, SiteOf(psl, e.cookie.domain))
  {
    var applied, tidied := OneHeader(psl, lim, s, r, header, now, t);
    e := AppliedIsLatest(psl, lim, s, r, header, now, applied);
    AppliedOneIsOk(psl, lim, s, r, header, now, applied);
    LatestSurvivesCleanup(psl, lim, applied, SiteOf(psl, e.cookie.domain), now, tidied, t, e);
  }

  /** The three stages of a one-header response. */
  lemma OneHeader(psl: SuffixList, lim: Limits, s: JarState, r: Request, header: string, now: int, t: JarState)
    returns (applied: JarState, tidied: JarState)
    requires Stored(psl, lim, s, Some(r), [header], now, t) && SetCookie(psl, header, r, now).Some?
    ensures AppliedOne(psl, lim, s, r, header, now, applied)
    ensures TidiedOne(lim, applied, SiteOf(psl, SetCookie(psl, header, r, now).value.domain), now, tidied)
    ensures Enforced(lim, tidied, now, t)
  {
    var through, swept := StoredTraces(psl, lim, s, r, [header], now, t);
    OneTouched(psl, r, header, now);
    applied, tidied := through[1], swept[1];
    assert AppliedOne(psl, lim, through[0], r, [header][0], now, through[1]);
    var touched := Touched(psl, r, [header], now);
    assert TidiedOne(lim, swept[0], touched[0], now, swept[1]);
  }

  lemma OneTouched(psl: SuffixList, r: Request, header: string, now: int)
    requires SetCookie(psl, header, r, now).Some?
    ensures Touched(psl, r, [header], now) == [SiteOf(psl, SetCookie(psl, header, r, now).value.domain)]
  {
    assert [header][..0] == [];
  }

  // ----- Secure cookies under a plaintext response -----

  lemma ApplyLeavesSecure(b: seq<Entry>, c: Cookie, now: int, nc: nat, na: nat, e: Entry)
    requires DistinctIds(b) && e in b && e.cookie.secure
    ensures e in ApplySetCookie(b, c, now, false, nc, na).bucket
  {
    var i :| 0 <= i < |b| && b[i] == e;
    var existing := PositionOf(b, IdentityOf(c));
    var after := ApplySetCookie(b, c, now, false, nc, na).bucket;
    if existing.Some? && existing.value != i && !SecureBlocks(b, c, false) {
      if Expired(c, now) {
        assert after[if i == |b| - 1 then existing.value else i] == e;
      } else {
        assert after[i] == e;
      }
    } else if existing.None? && !Expired(c, now) {
      assert after[i] == e;
    }
  }

  /** One header applied to its bucket, and nothing held down. */
  function UnpurgedOne(psl: SuffixList, s: JarState, r: Request, header: string, now: int): JarState {
    match SetCookie(psl, header, r, now)
    case None => s
    case Some(c) =>
      var site := SiteOf(psl, c.domain);
      var change := ApplySetCookie(At(s.sites, site), c, now, r.secure, s.nextCreation, s.nextAccess);
      JarState(PutSite(s.sites, site, change.bucket), change.nextCreation, change.nextAccess)
  }

  /** The jar after the first `k` headers if no cap existed. */
  function Unpurged(psl: SuffixList, s: JarState, r: Request, headers: seq<string>, now: int, k: nat): JarState
    requires k <= |headers|
  {
    if k == 0 then s else UnpurgedOne(psl, Unpurged(psl, s, r, headers, now, k - 1), r, headers[k - 1], now)
  }

  /** The bucket a header lands in is not past twice its cap. */
  predicate StepFits(psl: SuffixList, lim: Limits, s: JarState, r: Request, header: string, now: int) {
    match SetCookie(psl, header, r, now)
    case None => true
    case Some(c) => |At(UnpurgedOne(psl, s, r, header, now).sites, SiteOf(psl, c.domain))| <= 2 * lim.perDomain
  }

  predicate FitsAt(psl: SuffixList, lim: Limits, s: JarState, r: Request, headers: seq<string>, now: int, k: nat)
    requires k < |headers|
  {
    StepFits(psl, lim, Unpurged(psl, s, r, headers, now, k), r, headers[k], now)
  }

  /**
   No cap overflows: no header takes its bucket past twice the cap, and once all are applied no touched
   bucket is past its cap, nor the jar past its total.  Replacements, deletions and refused headers take
   no room, so a full bucket or a full jar is no obstacle to them.
   */
  predicate NoCapOverflows(psl: SuffixList, lim: Limits, s: JarState, r: Request, headers: seq<string>, now: int) {
    var end := Unpurged(psl, s, r, headers, now, |headers|);
    && (forall k :: 0 <= k < |headers| ==> FitsAt(psl, lim, s, r, headers, now, k))
    && (forall site :: site in Touched(psl, r, headers, now) ==> |At(end.sites, site)| <= lim.perDomain)
    && Total(end.sites) <= lim.total
  }

  lemma AppliedWithinCap(psl: SuffixList, lim: Limits, s: JarState, r: Request, header: string, now: int, t: JarState)
    requires AppliedOne(psl, lim, s, r, header, now, t) && StepFits(psl, lim, s, r, header, now)
    ensures t == UnpurgedOne(psl, s, r, header, now)
  {
  }

  lemma TraceWithinCap(psl: SuffixList, lim: Limits, s: JarState, r: Request, headers: seq<string>, now: int,
                       trace: seq<JarState>, i: nat)
    requires AppliedThrough(psl, lim, r, headers, now, trace) && i < |headers|
    requires trace[i] == s && StepFits(psl, lim, s, r, headers[i], now)
    ensures trace[i + 1] == UnpurgedOne(psl, s, r, headers[i], now)
  {
    AppliedWithinCap(psl, lim, trace[i], r, headers[i], now, trace[i + 1]);
  }

  lemma {:induction false} AppliedWithoutPurging(psl: SuffixList, lim: Limits, s: JarState, r: Request,
                                                 headers: seq<string>, now: int, trace: seq<JarState>, k: nat)
    requires AppliedThrough(psl, lim, r, headers, now, trace) && k <= |headers| && trace[0] == s
    requires forall j :: 0 <= j < k ==> FitsAt(psl, lim, s, r, headers, now, j)
    ensures trace[k] == Unpurged(psl, s, r, headers, now, k)
    decreases k
  {
    if k > 0 {
      AppliedWithoutPurging(psl, lim, s, r, headers, now, trace, k - 1);
      assert FitsAt(psl, lim, s, r, headers, now, k - 1);
      TraceWithinCap(psl, lim, Unpurged(psl, s, r, headers, now, k - 1), r, headers, now, trace, k - 1);
    }
  }

  lemma UnpurgedOneIsOk(psl: SuffixList, s: JarState, r: Request, header: string, now: int)
    requires JarOk(psl, s)
    ensures JarOk(psl, UnpurgedOne(psl, s, r, header, now))
  {
    match SetCookie(psl, header, r, now)
    case None =>
    case Some(c) =>
      ParsedIsSound(psl, header, r, now);
      var site := SiteOf(psl, c.domain);
      EmptyIsOk(psl, s, site);
      AppliedIsOk(psl, site, At(s.sites, site), c, now, r.secure, s.nextCreation, s.nextAccess);
      var change := ApplySetCookie(At(s.sites, site), c, now, r.secure, s.nextCreation, s.nextAccess);
      PutSiteIsOk(psl, s, site, change.bucket, change.nextCreation, change.nextAccess);
  }

  lemma PutSiteElsewhere(sites: map<string, seq<Entry>>, put: string, b: seq<Entry>, site: string)
    ensures At(PutSite(sites, put, b), site) == if site == put then b else At(sites, site)
  {
  }

  /** One plaintext header leaves every Secure entry in its bucket, whatever else it does. */
  lemma UnpurgedOneLeavesSecure(psl: SuffixList, s: JarState, r: Request, header: string, now: int, site: string,
                                e: Entry)
    requires JarOk(psl, s) && !r.secure && e in At(s.sites, site) && e.cookie.secure
    ensures e in At(UnpurgedOne(psl, s, r, header, now).sites, site)
  {
    match SetCookie(psl, header, r, now)
    case None =>
    case Some(c) =>
      var put := SiteOf(psl, c.domain);
      var b := At(s.sites, put);
      EmptyIsOk(psl, s, put);
      PutSiteElsewhere(s.sites, put, ApplySetCookie(b, c, now, r.secure, s.nextCreation, s.nextAccess).bucket, site);
      if site == put { ApplyLeavesSecure(b, c, now, s.nextCreation, s.nextAccess, e); }
  }

  lemma {:induction false} UnpurgedLeavesSecure(psl: SuffixList, s: JarState, r: Request, headers: seq<string>,
                                                now: int, k: nat, site: string, e: Entry)
    requires JarOk(psl, s) && k <= |headers| && !r.secure && e in At(s.sites, site) && e.cookie.secure
    ensures JarOk(psl, Unpurged(psl, s, r, headers, now, k))
    ensures e in At(Unpurged(psl, s, r, headers, now, k).sites, site)
    decreases k
  {
    if k > 0 {
      UnpurgedLeavesSecure(psl, s, r, headers, now, k - 1, site, e);
      UnpurgedOneIsOk(psl, Unpurged(psl, s, r, headers, now, k - 1), r, headers[k - 1], now);
      UnpurgedOneLeavesSecure(psl, Unpurged(psl, s, r, headers, now, k - 1), r, headers[k - 1], now, site, e);
    }
  }

  lemma {:induction false} NothingToTidy(lim: Limits, touched: seq<string>, now: int, trace: seq<JarState>, k: nat)
    requires TidiedThrough(lim, touched, now, trace) && k <= |touched|
    requires forall site :: site in touched ==> |At(trace[0].sites, site)| <= lim.perDomain
    requires forall site :: site in trace[0].sites ==> trace[0].sites[site] != []
    ensures trace[k] == trace[0]
  {
    if k > 0 {
      NothingToTidy(lim, touched, now, trace, k - 1);
      assert TidiedOne(lim, trace[k - 1], touched[k - 1], now, trace[k]);
      assert PutSite(trace[0].sites, touched[k - 1], At(trace[0].sites, touched[k - 1])) == trace[0].sites;
    }
  }

  /** While no cap overflows, a response is applied header by header and nothing at all is purged. */
  lemma StoredWithoutPurging(psl: SuffixList, lim: Limits, s: JarState, r: Request, headers: seq<string>,
                             now: int, t: JarState)
    requires JarOk(psl, s) && Stored(psl, lim, s, Some(r), headers, now, t)
    requires NoCapOverflows(psl, lim, s, r, headers, now)
    ensures t == Unpurged(psl, s, r, headers, now, |headers|)
  {
    var applied, tidied := StoredTraces(psl, lim, s, r, headers, now, t);
    AppliedThroughIsOk(psl, lim, r, headers, now, applied, |headers|);
    AppliedWithoutPurging(psl, lim, s, r, headers, now, applied, |headers|);
    var touched := Touched(psl, r, headers, now);
    NothingToTidy(lim, touched, now, tidied, |touched|);
  }

  /** While no cap overflows, a plaintext response neither overwrites, deletes nor evicts any Secure entry. */
  lemma PlaintextCannotTouchSecure(psl: SuffixList, lim: Limits, s: JarState, r: Request, headers: seq<string>,
                                   now: int, t: JarState, site: string, e: Entry)
    requires JarOk(psl, s) && Stored(psl, lim, s, Some(r), headers, now, t)
    requires !r.secure && NoCapOverflows(psl, lim, s, r, headers, now)
    requires e in At(s.sites, site) && e.cookie.secure
    ensures e in At(t.sites, site)
  {
    StoredWithoutPurging(psl, lim, s, r, headers, now, t);
    UnpurgedLeavesSecure(psl, s, r, headers, now, |headers|, site, e);
  }
}
