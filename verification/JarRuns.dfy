/** What the jar keeps over every run of its operations. */
module JarRuns {
  import opened Options
  import opened Cookies
  import opened JarModel
  import opened JarBuckets
  import opened JarTotals
  import opened Lowest

  /** No bucket is empty, and every entry of every bucket belongs where it is. */
  ghost predicate JarOk(psl: SuffixList, s: JarState) {
    forall site :: site in s.sites ==>
      s.sites[site] != [] && BucketOk(psl, site, s.sites[site], s.nextCreation, s.nextAccess)
  }

  /** Between operations every bucket is within its cap and the jar within its total. */
  ghost predicate AtRest(lim: Limits, s: JarState) {
    && (forall site :: site in s.sites ==> |s.sites[site]| <= lim.perDomain)
    && Total(s.sites) <= lim.total
  }

  /** No two entries of one bucket were created at the same count. */
  ghost predicate CreationsApart(s: JarState) {
    forall site :: site in s.sites ==> DistinctCreations(s.sites[site])
  }

  ghost predicate Bounded(s: JarState, cap: nat) {
    forall site :: site in s.sites ==> |s.sites[site]| <= cap
  }

  // ----- One bucket changed -----

  lemma CountersGrow(psl: SuffixList, site: string, b: seq<Entry>, nc: nat, na: nat, nc': nat, na': nat)
    requires BucketOk(psl, site, b, nc, na) && nc <= nc' && na <= na'
    ensures BucketOk(psl, site, b, nc', na')
  {
  }

  lemma PutSiteIsOk(psl: SuffixList, s: JarState, site: string, b: seq<Entry>, nc: nat, na: nat)
    requires JarOk(psl, s) && s.nextCreation <= nc && s.nextAccess <= na
    requires BucketOk(psl, site, b, nc, na)
    ensures JarOk(psl, JarState(PutSite(s.sites, site, b), nc, na))
    ensures CreationsApart(s) && DistinctCreations(b) ==> CreationsApart(JarState(PutSite(s.sites, site, b), nc, na))
  {
    var t := JarState(PutSite(s.sites, site, b), nc, na);
    forall u | u in t.sites
      ensures t.sites[u] != [] && BucketOk(psl, u, t.sites[u], nc, na)
    {
      if u != site {
        CountersGrow(psl, u, s.sites[u], s.nextCreation, s.nextAccess, nc, na);
      }
    }
  }

  lemma EmptyIsOk(psl: SuffixList, s: JarState, site: string)
    requires JarOk(psl, s)
    ensures BucketOk(psl, site, At(s.sites, site), s.nextCreation, s.nextAccess)
    ensures CreationsApart(s) ==> DistinctCreations(At(s.sites, site))
  {
  }

  lemma AppliedOneIsOk(psl: SuffixList, lim: Limits, s: JarState, r: Request, header: string, now: int, t: JarState)
    requires JarOk(psl, s) && AppliedOne(psl, lim, s, r, header, now, t)
    ensures JarOk(psl, t)
    ensures CreationsApart(s) ==> CreationsApart(t)
  {
    match SetCookie(psl, header, r, now)
    case None =>
    case Some(c) =>
      ParsedIsSound(psl, header, r, now);
      var site := SiteOf(psl, c.domain);
      var b := At(s.sites, site);
      EmptyIsOk(psl, s, site);
      AppliedIsOk(psl, site, b, c, now, r.secure, s.nextCreation, s.nextAccess);
      var change := ApplySetCookie(b, c, now, r.secure, s.nextCreation, s.nextAccess);
      HeldDownIsOk(psl, site, change.bucket, now, 2 * lim.perDomain, lim.perDomain, At(t.sites, site),
                   change.nextCreation, change.nextAccess);
      PutSiteIsOk(psl, s, site, At(t.sites, site), change.nextCreation, change.nextAccess);
  }

  lemma TidiedOneIsOk(psl: SuffixList, lim: Limits, s: JarState, site: string, now: int, t: JarState)
    requires JarOk(psl, s) && TidiedOne(lim, s, site, now, t)
    ensures JarOk(psl, t)
    ensures CreationsApart(s) ==> CreationsApart(t)
    ensures |At(t.sites, site)| <= lim.perDomain
    ensures forall u :: u != site ==> At(t.sites, u) == At(s.sites, u)
  {
    EmptyIsOk(psl, s, site);
    HeldDownIsOk(psl, site, At(s.sites, site), now, lim.perDomain, lim.DomainPurgeTarget(), At(t.sites, site),
                 s.nextCreation, s.nextAccess);
    PutSiteIsOk(psl, s, site, At(t.sites, site), s.nextCreation, s.nextAccess);
  }

  // ----- A whole response -----

  lemma {:induction false} AppliedThroughIsOk(psl: SuffixList, lim: Limits, r: Request, headers: seq<string>,
                                              now: int, trace: seq<JarState>, k: nat)
    requires AppliedThrough(psl, lim, r, headers, now, trace) && k <= |headers|
    requires JarOk(psl, trace[0])
    ensures JarOk(psl, trace[k])
    ensures CreationsApart(trace[0]) ==> CreationsApart(trace[k])
  {
    if k > 0 {
      AppliedThroughIsOk(psl, lim, r, headers, now, trace, k - 1);
      AppliedOneIsOk(psl, lim, trace[k - 1], r, headers[k - 1], now, trace[k]);
    }
  }

  lemma AppliedOneElsewhere(psl: SuffixList, lim: Limits, s: JarState, r: Request, header: string, now: int,
                            t: JarState, site: string)
    requires AppliedOne(psl, lim, s, r, header, now, t)
    requires SetCookie(psl, header, r, now).Some? ==> SiteOf(psl, SetCookie(psl, header, r, now).value.domain) != site
    ensures At(t.sites, site) == At(s.sites, site)
  {
  }

  /** A site no cookie of the response belongs to is left as it was. */
  lemma {:induction false} UntouchedSites(psl: SuffixList, lim: Limits, r: Request, headers: seq<string>, now: int,
                                          trace: seq<JarState>, k: nat, site: string)
    requires AppliedThrough(psl, lim, r, headers, now, trace) && k <= |headers|
    requires site !in Touched(psl, r, headers[..k], now)
    ensures At(trace[k].sites, site) == At(trace[0].sites, site)
  {
    if k > 0 {
      assert headers[..k][..k - 1] == headers[..k - 1];
      UntouchedSites(psl, lim, r, headers, now, trace, k - 1, site);
      AppliedOneElsewhere(psl, lim, trace[k - 1], r, headers[k - 1], now, trace[k], site);
    }
  }

  lemma {:induction false} TidiedThroughIsOk(psl: SuffixList, lim: Limits, touched: seq<string>, now: int,
                                             trace: seq<JarState>, k: nat)
    requires TidiedThrough(lim, touched, now, trace) && k <= |touched|
    requires JarOk(psl, trace[0])
    ensures JarOk(psl, trace[k])
    ensures CreationsApart(trace[0]) ==> CreationsApart(trace[k])
    ensures forall site :: site in touched[..k] ==> |At(trace[k].sites, site)| <= lim.perDomain
    ensures forall site :: site !in touched[..k] ==> At(trace[k].sites, site) == At(trace[0].sites, site)
  {
    if k > 0 {
      TidiedThroughIsOk(psl, lim, touched, now, trace, k - 1);
      assert touched[..k] == touched[..k - 1] + [touched[k - 1]];
      TidiedOneIsOk(psl, lim, trace[k - 1], touched[k - 1], now, trace[k]);
    }
  }

  // ----- The purge -----

  lemma SurvivorsAreOk(psl: SuffixList, s: JarState, victims: set<Candidate>)
    requires JarOk(psl, s)
    ensures JarOk(psl, s.(sites := WithoutVictims(s.sites, victims)))
    ensures CreationsApart(s) ==> CreationsApart(s.(sites := WithoutVictims(s.sites, victims)))
    ensures forall site :: |At(WithoutVictims(s.sites, victims), site)| <= |At(s.sites, site)|
  {
    var t := WithoutVictims(s.sites, victims);
    forall site | site in t
      ensures BucketOk(psl, site, t[site], s.nextCreation, s.nextAccess)
      ensures DistinctCreations(s.sites[site]) ==> DistinctCreations(t[site])
      ensures |t[site]| <= |s.sites[site]|
    {
      KeepIsOk(psl, site, s.sites[site], DoomedIn(victims, site), s.nextCreation, s.nextAccess);
    }
  }

  lemma EnforcedIsOk(psl: SuffixList, lim: Limits, s: JarState, now: int, t: JarState)
    requires JarOk(psl, s) && Enforced(lim, s, now, t)
    ensures JarOk(psl, t)
    ensures CreationsApart(s) ==> CreationsApart(t)
    ensures Total(t.sites) <= lim.total
    ensures forall site :: |At(t.sites, site)| <= |At(s.sites, site)|
  {
    PurgeIsExact(lim, s, now, t);
    if Total(s.sites) > lim.total {
      var victims: set<Candidate> :|
        && IsLowest(EvictedBefore, victims, Candidates(s.sites, now), Total(s.sites) - lim.PurgeTarget())
        && t == s.(sites := WithoutVictims(s.sites, victims));
      SurvivorsAreOk(psl, s, victims);
    }
  }

  /** A site is within its cap after tidying: it was tidied, or nothing touched it. */
  lemma TidySitesAreBounded(psl: SuffixList, lim: Limits, r: Request, headers: seq<string>, now: int,
                            applied: seq<JarState>, tidied: seq<JarState>, site: string)
    requires AppliedThrough(psl, lim, r, headers, now, applied)
    requires TidiedThrough(lim, Touched(psl, r, headers, now), now, tidied)
    requires JarOk(psl, applied[0]) && AtRest(lim, applied[0]) && applied[|headers|] == tidied[0]
    ensures |At(tidied[|tidied| - 1].sites, site)| <= lim.perDomain
  {
    var touched := Touched(psl, r, headers, now);
    AppliedThroughIsOk(psl, lim, r, headers, now, applied, |headers|);
    TidiedThroughIsOk(psl, lim, touched, now, tidied, |touched|);
    assert touched[..|touched|] == touched && headers[..|headers|] == headers;
    if site !in touched {
      UntouchedSites(psl, lim, r, headers, now, applied, |headers|, site);
    }
  }

  /** Storing any response keeps the jar coherent and leaves it within its caps. */
  lemma StoreKeepsTheJar(psl: SuffixList, lim: Limits, s: JarState, req: Option<Request>, headers: seq<string>,
                         now: int, t: JarState)
    requires JarOk(psl, s) && AtRest(lim, s) && Stored(psl, lim, s, req, headers, now, t)
    ensures JarOk(psl, t) && AtRest(lim, t)
    ensures CreationsApart(s) ==> CreationsApart(t)
  {
    if req.Some? {
      var applied, tidied := StoredTraces(psl, lim, s, req.value, headers, now, t);
      AppliedThroughIsOk(psl, lim, req.value, headers, now, applied, |headers|);
      TidiedThroughIsOk(psl, lim, Touched(psl, req.value, headers, now), now, tidied, |tidied| - 1);
      EnforcedIsOk(psl, lim, tidied[|tidied| - 1], now, t);
      forall site | site in t.sites ensures |t.sites[site]| <= lim.perDomain {
        assert |At(t.sites, site)| <= |At(tidied[|tidied| - 1].sites, site)|;
        TidySitesAreBounded(psl, lim, req.value, headers, now, applied, tidied, site);
      }
    }
  }

  lemma StoredTraces(psl: SuffixList, lim: Limits, s: JarState, r: Request, headers: seq<string>, now: int, t: JarState)
    returns (applied: seq<JarState>, tidied: seq<JarState>)
    requires Stored(psl, lim, s, Some(r), headers, now, t)
    ensures AppliedThrough(psl, lim, r, headers, now, applied)
    ensures TidiedThrough(lim, Touched(psl, r, headers, now), now, tidied)
    ensures applied[0] == s && applied[|headers|] == tidied[0]
    ensures Enforced(lim, tidied[|tidied| - 1], now, t)
  {
    applied, tidied :|
      && AppliedThrough(psl, lim, r, headers, now, applied)
      && TidiedThrough(lim, Touched(psl, r, headers, now), now, tidied)
      && applied[0] == s && applied[|headers|] == tidied[0]
      && Enforced(lim, tidied[|tidied| - 1], now, t);
  }

  // ----- Importing -----

  lemma AbsorbOneIsOk(psl: SuffixList, s: JarState, rec: CookieRecord, now: int)
    requires JarOk(psl, s)
    ensures JarOk(psl, AbsorbOne(psl, s, rec, now))
  {
    if Admissible(rec, now) {
      var e := EntryOf(rec);
      var site := SiteOf(psl, e.cookie.domain);
      var t := AbsorbOne(psl, s, rec, now);
      EmptyIsOk(psl, s, site);
      CountersGrow(psl, site, At(s.sites, site), s.nextCreation, s.nextAccess, t.nextCreation, t.nextAccess);
      ReplacedIsOk(psl, site, At(s.sites, site), e, t.nextCreation, t.nextAccess);
      PutSiteIsOk(psl, s, site, Replaced(At(s.sites, site), e), t.nextCreation, t.nextAccess);
    }
  }

  lemma {:induction false} AbsorbRecordsIsOk(psl: SuffixList, s: JarState, records: seq<CookieRecord>, now: int)
    requires JarOk(psl, s)
    ensures JarOk(psl, AbsorbRecords(psl, s, records, now))
    decreases |records|
  {
    if records != [] {
      var front := records[..|records| - 1];
      AbsorbRecordsIsOk(psl, s, front, now);
      AbsorbOneIsOk(psl, AbsorbRecords(psl, s, front, now), records[|records| - 1], now);
    }
  }

  lemma TidiedEverywhereIsOk(psl: SuffixList, lim: Limits, s: JarState, now: int, t: JarState)
    requires JarOk(psl, s) && TidiedEverywhere(lim, s, now, t)
    ensures JarOk(psl, t) && Bounded(t, lim.perDomain)
  {
    forall site | site in t.sites
      ensures BucketOk(psl, site, t.sites[site], t.nextCreation, t.nextAccess) && |t.sites[site]| <= lim.perDomain
    {
      var b := s.sites[site];
      KeepIsOk(psl, site, b, ExpiredPositions(b, now), s.nextCreation, s.nextAccess);
      TrimmedIsOk(psl, site, Unexpired(b, now), lim.perDomain, t.sites[site], s.nextCreation, s.nextAccess);
      TrimmedSize(Unexpired(b, now), lim.perDomain, t.sites[site]);
    }
  }

  /** Importing any snapshot, however malformed, keeps the jar coherent and within its caps. */
  lemma ImportKeepsTheJar(psl: SuffixList, lim: Limits, s: JarState, records: seq<CookieRecord>, now: int, t: JarState)
    requires JarOk(psl, s) && Imported(psl, lim, s, records, now, t)
    ensures JarOk(psl, t) && AtRest(lim, t)
  {
    var tidied: JarState :| && TidiedEverywhere(lim, AbsorbRecords(psl, s, records, now), now, tidied)
                            && Enforced(lim, tidied, now, t);
    AbsorbRecordsIsOk(psl, s, records, now);
    TidiedEverywhereIsOk(psl, lim, AbsorbRecords(psl, s, records, now), now, tidied);
    EnforcedIsOk(psl, lim, tidied, now, t);
    forall site | site in t.sites ensures |t.sites[site]| <= lim.perDomain {
      assert |At(t.sites, site)| <= |At(tidied.sites, site)|;
    }
  }

  // ----- Looking up -----

  lemma LookupKeepsTheJar(psl: SuffixList, lim: Limits, s: JarState, r: Request, ctx: Context, now: int)
    requires JarOk(psl, s) && AtRest(lim, s)
    ensures JarOk(psl, AfterLookup(psl, s, r, ctx, now)) && AtRest(lim, AfterLookup(psl, s, r, ctx, now))
    ensures CreationsApart(s) ==> CreationsApart(AfterLookup(psl, s, r, ctx, now))
  {
    var t := AfterLookup(psl, s, r, ctx, now);
    var site := SiteOf(psl, r.host);
    if t != s {
      var b := Accessed(psl, s.sites[site], r, ctx, now, s.nextAccess);
      assert t.sites == PutSite(s.sites, site, b);
      assert BucketOk(psl, site, b, t.nextCreation, t.nextAccess) by {
        assert BucketOk(psl, site, s.sites[site], s.nextCreation, s.nextAccess);
      }
      PutSiteIsOk(psl, s, site, b, t.nextCreation, t.nextAccess);
      TotalAfterPut(s.sites, site, b);
    }
  }

  // ----- Runs -----

  datatype Op =
    | Store(request: Option<Request>, headers: seq<string>, now: int)
    | Import(records: seq<CookieRecord>, now: int)
    | Lookup(request: Option<Request>, ctx: Context, now: int)

  ghost predicate Steps(psl: SuffixList, lim: Limits, s: JarState, op: Op, t: JarState) {
    match op
    case Store(req, headers, now) => Stored(psl, lim, s, req, headers, now, t)
    case Import(records, now) => Imported(psl, lim, s, records, now, t)
    case Lookup(req, ctx, now) => t == if req.None? then s else AfterLookup(psl, s, req.value, ctx, now)
  }

  /** A run from the empty jar: the jar before and after each operation. */
  ghost predicate Run(psl: SuffixList, lim: Limits, ops: seq<Op>, trace: seq<JarState>) {
    && |trace| == |ops| + 1
    && trace[0] == EMPTY_JAR
    && forall i :: 0 <= i < |ops| ==> Steps(psl, lim, trace[i], ops[i], trace[i + 1])
  }

  lemma StepKeepsTheJar(psl: SuffixList, lim: Limits, s: JarState, op: Op, t: JarState)
    requires JarOk(psl, s) && AtRest(lim, s) && Steps(psl, lim, s, op, t)
    ensures JarOk(psl, t) && AtRest(lim, t)
    ensures CreationsApart(s) && !op.Import? ==> CreationsApart(t)
  {
    match op
    case Store(req, headers, now) => StoreKeepsTheJar(psl, lim, s, req, headers, now, t);
    case Import(records, now) => ImportKeepsTheJar(psl, lim, s, records, now, t);
    case Lookup(req, ctx, now) => if req.Some? { LookupKeepsTheJar(psl, lim, s, req.value, ctx, now); }
  }

  lemma EmptyJarIsOk(psl: SuffixList, lim: Limits)
    ensures JarOk(psl, EMPTY_JAR) && AtRest(lim, EMPTY_JAR) && CreationsApart(EMPTY_JAR)
  {
    assert Places(EMPTY_JAR.sites) == {};
  }

  /** After every operation of every run the jar is coherent and within its caps. */
  lemma {:induction false} EveryRunKeepsTheJar(psl: SuffixList, lim: Limits, ops: seq<Op>, trace: seq<JarState>, k: nat)
    requires Run(psl, lim, ops, trace) && k <= |ops|
    ensures JarOk(psl, trace[k]) && AtRest(lim, trace[k])
    ensures (forall i :: 0 <= i < k ==> !ops[i].Import?) ==> CreationsApart(trace[k])
  {
    if k == 0 {
      EmptyJarIsOk(psl, lim);
    } else {
      EveryRunKeepsTheJar(psl, lim, ops, trace, k - 1);
      StepKeepsTheJar(psl, lim, trace[k - 1], ops[k - 1], trace[k]);
    }
  }

  /** No identity occurs twice anywhere in a coherent jar. */
  lemma IdentitiesAreUnique(psl: SuffixList, s: JarState, p: Place, q: Place)
    requires JarOk(psl, s) && p in Places(s.sites) && q in Places(s.sites)
    ensures IdentityOf(s.sites[p.site][p.position].cookie) == IdentityOf(s.sites[q.site][q.position].cookie) ==> p == q
  {
    assert BucketOk(psl, p.site, s.sites[p.site], s.nextCreation, s.nextAccess);
    assert BucketOk(psl, q.site, s.sites[q.site], s.nextCreation, s.nextAccess);
    assert EntryOk(psl, p.site, s.sites[p.site][p.position], s.nextCreation, s.nextAccess);
    assert EntryOk(psl, q.site, s.sites[q.site][q.position], s.nextCreation, s.nextAccess);
  }

  lemma OneEntryOnePlace(psl: SuffixList, s: JarState, u: string, k: nat, v: string, l: nat)
    requires JarOk(psl, s) && u in s.sites && k < |s.sites[u]| && v in s.sites && l < |s.sites[v]|
    ensures s.sites[u][k] == s.sites[v][l] ==> u == v && k == l
  {
    assert Place(u, k) in Places(s.sites) && Place(v, l) in Places(s.sites);
    IdentitiesAreUnique(psl, s, Place(u, k), Place(v, l));
  }
}
