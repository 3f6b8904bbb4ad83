/** Exporting a jar and importing the snapshot elsewhere changes no `Cookie` header. */
module JarRoundTrip {
  import opened Cookies
  import opened JarModel
  import opened JarBuckets
  import opened JarTotals
  import opened JarRuns

  lemma RecordsAreEntries(e: Entry)
    ensures EntryOf(RecordOf(e)) == e
  {
  }

  lemma {:induction false} RecordsAre(u: seq<Entry>)
    ensures |RecordsOf(u)| == |u|
    ensures forall i :: 0 <= i < |u| ==> RecordsOf(u)[i] == RecordOf(u[i])
    decreases |u|
  {
    if u != [] { RecordsAre(u[..|u| - 1]); }
  }

  lemma UnexpiredEntries(b: seq<Entry>, now: int, e: Entry)
    ensures e in Unexpired(b, now) <==> e in b && !Expired(e.cookie, now)
  {
    KeptEntries(b, ExpiredPositions(b, now), e);
  }

  /** The live part of a coherent bucket: coherent, and every record of it may be imported. */
  lemma LivePartIsSound(psl: SuffixList, s: JarState, site: string, now: int)
    requires JarOk(psl, s)
    ensures var u := Unexpired(At(s.sites, site), now);
            && BucketOk(psl, site, u, s.nextCreation, s.nextAccess) && |u| <= |At(s.sites, site)|
            && forall i :: 0 <= i < |u| ==> !Expired(u[i].cookie, now) && Admissible(RecordOf(u[i]), now)
  {
    var b := At(s.sites, site);
    var u := Unexpired(b, now);
    EmptyIsOk(psl, s, site);
    KeepIsOk(psl, site, b, ExpiredPositions(b, now), s.nextCreation, s.nextAccess);
    forall i | 0 <= i < |u| ensures !Expired(u[i].cookie, now) && Admissible(RecordOf(u[i]), now) {
      UnexpiredEntries(b, now, u[i]);
      assert EntryOk(psl, site, u[i], s.nextCreation, s.nextAccess);
    }
  }

  // ----- What a snapshot holds -----

  /** `e` is a live entry of the jar. */
  ghost predicate LiveIn(s: JarState, now: int, e: Entry) {
    exists site :: site in s.sites && e in s.sites[site] && !Expired(e.cookie, now)
  }

  lemma {:induction false} SnapshotHolds(s: JarState, order: seq<string>, now: int, e: Entry)
    ensures RecordOf(e) in Snapshot(s, order, now) <==>
            exists i :: 0 <= i < |order| && e in At(s.sites, order[i]) && !Expired(e.cookie, now)
    decreases |order|
  {
    if order != [] {
      var front, last := order[..|order| - 1], order[|order| - 1];
      var u := Unexpired(At(s.sites, last), now);
      SnapshotHolds(s, front, now, e);
      RecordsAre(u);
      UnexpiredEntries(At(s.sites, last), now, e);
      RecordsAreEntries(e);
      if RecordOf(e) in RecordsOf(u) {
        var i :| 0 <= i < |u| && RecordsOf(u)[i] == RecordOf(e);
        RecordsAreEntries(u[i]);
      }
      if e in u {
        var i :| 0 <= i < |u| && u[i] == e;
        assert RecordsOf(u)[i] == RecordOf(e);
      }
    }
  }

  predicate NoRepeats<T(==)>(s: seq<T>) {
    forall i, j :: 0 <= i < j < |s| ==> s[i] != s[j]
  }

  lemma NoRepeatsInTwo<T>(a: seq<T>, b: seq<T>)
    requires NoRepeats(a) && NoRepeats(b) && forall x :: x in a ==> x !in b
    ensures NoRepeats(a + b)
  {
    var both := a + b;
    forall i, j | 0 <= i < j < |both| ensures both[i] != both[j] {
      assert i < |a| ==> both[i] in a;
      assert j >= |a| ==> both[j] in b;
    }
  }

  lemma LiveRecordsApart(psl: SuffixList, s: JarState, site: string, now: int)
    requires JarOk(psl, s)
    ensures NoRepeats(RecordsOf(Unexpired(At(s.sites, site), now)))
  {
    var u := Unexpired(At(s.sites, site), now);
    LivePartIsSound(psl, s, site, now);
    RecordsAre(u);
    forall i, j | 0 <= i < j < |u| ensures RecordOf(u[i]) != RecordOf(u[j]) {
      assert IdentityOf(u[i].cookie) != IdentityOf(u[j].cookie);
    }
  }

  lemma SitesApart(psl: SuffixList, s: JarState, site: string, other: string, e: Entry)
    requires JarOk(psl, s) && e in At(s.sites, site) && e in At(s.sites, other)
    ensures site == other
  {
    var i :| 0 <= i < |s.sites[site]| && s.sites[site][i] == e;
    var j :| 0 <= j < |s.sites[other]| && s.sites[other][j] == e;
    OneEntryOnePlace(psl, s, site, i, other, j);
  }

  lemma {:induction false} SnapshotNeverRepeats(psl: SuffixList, s: JarState, order: seq<string>, now: int)
    requires JarOk(psl, s) && NoRepeats(order)
    ensures NoRepeats(Snapshot(s, order, now))
    decreases |order|
  {
    if order != [] {
      var front, last := order[..|order| - 1], order[|order| - 1];
      var more := RecordsOf(Unexpired(At(s.sites, last), now));
      SnapshotNeverRepeats(psl, s, front, now);
      LiveRecordsApart(psl, s, last, now);
      forall r | r in Snapshot(s, front, now) ensures r !in more {
        var e := EntryOf(r);
        assert RecordOf(e) == r;
        SnapshotHolds(s, front, now, e);
        var i :| 0 <= i < |front| && e in At(s.sites, front[i]);
        if r in more {
          RecordsAre(Unexpired(At(s.sites, last), now));
          var k :| 0 <= k < |more| && more[k] == r;
          RecordsAreEntries(Unexpired(At(s.sites, last), now)[k]);
          UnexpiredEntries(At(s.sites, last), now, e);
          SitesApart(psl, s, front[i], last, e);
          assert false;
        }
      }
      NoRepeatsInTwo(Snapshot(s, front, now), more);
    }
  }

  /** A snapshot of a coherent jar lists every live entry exactly once, and nothing else. */
  lemma SnapshotIsExact(psl: SuffixList, s: JarState, now: int, records: seq<CookieRecord>)
    requires JarOk(psl, s) && Exported(s, now, records)
    ensures NoRepeats(records)
    ensures forall e: Entry :: RecordOf(e) in records <==> LiveIn(s, now, e)
  {
    var order :| Lists(order, s.sites.Keys) && records == Snapshot(s, order, now);
    SnapshotNeverRepeats(psl, s, order, now);
    forall e: Entry ensures RecordOf(e) in records <==> LiveIn(s, now, e) {
      SnapshotHolds(s, order, now, e);
      if LiveIn(s, now, e) {
        var site :| site in s.sites && e in s.sites[site];
        var i :| 0 <= i < |order| && order[i] == site;
      }
    }
  }

  // ----- The imported buckets -----

  lemma {:induction false} AbsorbInTwo(psl: SuffixList, s: JarState, a: seq<CookieRecord>, b: seq<CookieRecord>, now: int)
    ensures AbsorbRecords(psl, s, a + b, now) == AbsorbRecords(psl, AbsorbRecords(psl, s, a, now), b, now)
    decreases |b|
  {
    if b == [] {
      assert a + b == a;
    } else {
      assert (a + b)[..|a + b| - 1] == a + b[..|b| - 1];
      AbsorbInTwo(psl, s, a, b[..|b| - 1], now);
    }
  }

  lemma NewIdentity(front: seq<Entry>, last: Entry)
    requires DistinctIds(front + [last])
    ensures Replaced(front, last) == front + [last]
  {
    var u := front + [last];
    forall i | 0 <= i < |front| ensures IdentityOf(front[i].cookie) != IdentityOf(last.cookie) {
      assert u[i] == front[i] && u[|front|] == last;
    }
  }

  lemma PutTwice(sites: map<string, seq<Entry>>, site: string, a: seq<Entry>, b: seq<Entry>)
    requires site !in sites && b != []
    ensures At(PutSite(sites, site, a), site) == a
    ensures PutSite(PutSite(sites, site, a), site, b) == PutSite(sites, site, b)
  {
  }

  lemma AbsorbFresh(psl: SuffixList, m: JarState, site: string, last: Entry, now: int)
    requires SiteOf(psl, last.cookie.domain) == site && Admissible(RecordOf(last), now)
    requires DistinctIds(At(m.sites, site) + [last])
    ensures AbsorbOne(psl, m, RecordOf(last), now).sites == PutSite(m.sites, site, At(m.sites, site) + [last])
  {
    RecordsAreEntries(last);
    NewIdentity(At(m.sites, site), last);
  }

  /** A site's live records, absorbed where nothing of that site is yet, rebuild its bucket in order. */
  lemma {:induction false} AbsorbBucket(psl: SuffixList, m: JarState, site: string, u: seq<Entry>, now: int)
    requires site !in m.sites && DistinctIds(u)
    requires forall i :: 0 <= i < |u| ==> SiteOf(psl, u[i].cookie.domain) == site && Admissible(RecordOf(u[i]), now)
    ensures AbsorbRecords(psl, m, RecordsOf(u), now).sites == PutSite(m.sites, site, u)
    decreases |u|
  {
    if u != [] {
      var front, last := u[..|u| - 1], u[|u| - 1];
      assert u == front + [last];
      var records := RecordsOf(front);
      var n := AbsorbRecords(psl, m, records, now);
      AbsorbBucket(psl, m, site, front, now);
      PutTwice(m.sites, site, front, u);
      AbsorbFresh(psl, n, site, last, now);
      assert (records + [RecordOf(last)])[..|records|] == records;
    }
  }

  /** The buckets of `done` are rebuilt, and there are no others. */
  ghost predicate Rebuilt(m: JarState, s: JarState, now: int, done: seq<string>) {
    && (forall site :: At(m.sites, site) == if site in done then Unexpired(At(s.sites, site), now) else [])
    && forall site :: site in m.sites ==> m.sites[site] != []
  }

  lemma RebuiltOneMore(m: JarState, n: JarState, s: JarState, now: int, done: seq<string>, site: string)
    requires Rebuilt(m, s, now, done) && site !in done
    requires n.sites == PutSite(m.sites, site, Unexpired(At(s.sites, site), now))
    ensures Rebuilt(n, s, now, done + [site])
  {
  }

  lemma {:induction false} SnapshotRebuilds(psl: SuffixList, s: JarState, order: seq<string>, now: int)
    requires JarOk(psl, s) && NoRepeats(order)
    ensures Rebuilt(AbsorbRecords(psl, EMPTY_JAR, Snapshot(s, order, now), now), s, now, order)
    decreases |order|
  {
    if order != [] {
      var front, last := order[..|order| - 1], order[|order| - 1];
      assert order == front + [last];
      var u := Unexpired(At(s.sites, last), now);
      var m := AbsorbRecords(psl, EMPTY_JAR, Snapshot(s, front, now), now);
      SnapshotRebuilds(psl, s, front, now);
      assert last !in front && At(m.sites, last) == [];
      LivePartIsSound(psl, s, last, now);
      AbsorbBucket(psl, m, last, u, now);
      AbsorbInTwo(psl, EMPTY_JAR, Snapshot(s, front, now), RecordsOf(u), now);
      RebuiltOneMore(m, AbsorbRecords(psl, m, RecordsOf(u), now), s, now, front, last);
    }
  }

  lemma NothingExpires(u: seq<Entry>, now: int)
    requires forall i :: 0 <= i < |u| ==> !Expired(u[i].cookie, now)
    ensures Unexpired(u, now) == u
  {
    KeepAll(u, ExpiredPositions(u, now));
  }

  lemma RebuiltFits(psl: SuffixList, lim: Limits, m: JarState, s: JarState, now: int, order: seq<string>)
    requires JarOk(psl, s) && AtRest(lim, s) && Rebuilt(m, s, now, order)
    ensures AtRest(lim, m) && forall site :: site in m.sites ==> Unexpired(m.sites[site], now) == m.sites[site]
  {
    forall site | site in m.sites
      ensures |m.sites[site]| <= |At(s.sites, site)| && Unexpired(m.sites[site], now) == m.sites[site]
    {
      assert At(m.sites, site) == m.sites[site] == Unexpired(At(s.sites, site), now);
      LivePartIsSound(psl, s, site, now);
      NothingExpires(m.sites[site], now);
    }
    TotalIsMonotone(m.sites, s.sites);
  }

  lemma TidySite(lim: Limits, m: JarState, now: int, tidied: JarState, site: string)
    requires TidiedEverywhere(lim, m, now, tidied)
    requires site in m.sites && Unexpired(m.sites[site], now) == m.sites[site] && |m.sites[site]| <= lim.perDomain
    ensures At(tidied.sites, site) == m.sites[site]
  {
  }

  /** Nothing is expired or over a cap, so tidying keeps what import built. */
  lemma NothingToTidyAnywhere(lim: Limits, m: JarState, now: int, tidied: JarState)
    requires AtRest(lim, m) && forall site :: site in m.sites ==> m.sites[site] != []
    requires forall site :: site in m.sites ==> Unexpired(m.sites[site], now) == m.sites[site]
    requires TidiedEverywhere(lim, m, now, tidied)
    ensures tidied == m
  {
    forall site | site in m.sites ensures site in tidied.sites && tidied.sites[site] == m.sites[site] {
      TidySite(lim, m, now, tidied, site);
    }
    assert tidied.sites == m.sites;
  }

  lemma RebuiltEverywhere(m: JarState, s: JarState, now: int, order: seq<string>, site: string)
    requires Rebuilt(m, s, now, order) && Lists(order, s.sites.Keys)
    ensures At(m.sites, site) == Unexpired(At(s.sites, site), now)
  {
    if site !in order {
      assert At(s.sites, site) == [] && Unexpired([], now) == [];
    }
  }

  lemma ImportLeavesRebuilt(psl: SuffixList, lim: Limits, m: JarState, s: JarState, now: int, order: seq<string>,
                            records: seq<CookieRecord>, t: JarState)
    requires JarOk(psl, s) && AtRest(lim, s) && Rebuilt(m, s, now, order)
    requires m == AbsorbRecords(psl, EMPTY_JAR, records, now) && Imported(psl, lim, EMPTY_JAR, records, now, t)
    ensures t == m
  {
    var tidied: JarState :| TidiedEverywhere(lim, m, now, tidied) && Enforced(lim, tidied, now, t);
    RebuiltFits(psl, lim, m, s, now, order);
    NothingToTidyAnywhere(lim, m, now, tidied);
  }

  /** Importing a snapshot into an empty jar rebuilds every bucket, in order, without its expired entries. */
  lemma ImportedIsTheLivePart(psl: SuffixList, lim: Limits, s: JarState, now: int, records: seq<CookieRecord>,
                              t: JarState)
    requires JarOk(psl, s) && AtRest(lim, s) && Exported(s, now, records)
    requires Imported(psl, lim, EMPTY_JAR, records, now, t)
    ensures forall site :: At(t.sites, site) == Unexpired(At(s.sites, site), now)
  {
    var order :| Lists(order, s.sites.Keys) && records == Snapshot(s, order, now);
    var m := AbsorbRecords(psl, EMPTY_JAR, records, now);
    SnapshotRebuilds(psl, s, order, now);
    ImportLeavesRebuilt(psl, lim, m, s, now, order, records, t);
    forall site ensures At(t.sites, site) == Unexpired(At(s.sites, site), now) {
      RebuiltEverywhere(m, s, now, order, site);
    }
  }

  // ----- The same header -----

  lemma MatchesOneMore(psl: SuffixList, b: seq<Entry>, last: Entry, r: Request, ctx: Context, now: int)
    ensures Matches(psl, b + [last], r, ctx, now) ==
            Matches(psl, b, r, ctx, now) + if Eligible(psl, last, r, ctx, now) then [last] else []
  {
    assert (b + [last])[..|b|] == b;
  }

  /** What is expired now is not sent later. */
  lemma {:induction false} ExpiredAreNotSent(psl: SuffixList, b: seq<Entry>, r: Request, ctx: Context, now: int, later: int)
    requires now <= later
    ensures Matches(psl, Unexpired(b, now), r, ctx, later) == Matches(psl, b, r, ctx, later)
    decreases |b|
  {
    if b == [] {
      assert Unexpired(b, now) == [];
    } else {
      var front, last := b[..|b| - 1], b[|b| - 1];
      var u := Unexpired(front, now);
      assert b == front + [last] && u + [] == u;
      ExpiredAreNotSent(psl, front, r, ctx, now, later);
      UnexpiredOneMore(front, last, now);
      MatchesOneMore(psl, front, last, r, ctx, later);
      MatchesOneMore(psl, u, last, r, ctx, later);
      assert Expired(last.cookie, now) ==> !Eligible(psl, last, r, ctx, later);
    }
  }

  /**
   Whatever operations built a jar, imports and equal creation numbers included: exporting it and
   importing the snapshot into an empty jar with the same limits answers every request in every context
   with the identical header, then and at any later time.
   */
  lemma SnapshotRoundTrip(psl: SuffixList, lim: Limits, ops: seq<Op>, trace: seq<JarState>, now: int,
                          records: seq<CookieRecord>, t: JarState, r: Request, ctx: Context, later: int)
    requires Run(psl, lim, ops, trace) && now <= later
    requires Exported(trace[|ops|], now, records) && Imported(psl, lim, EMPTY_JAR, records, now, t)
    ensures CookieHeader(psl, t, r, ctx, later) == CookieHeader(psl, trace[|ops|], r, ctx, later)
  {
    var s := trace[|ops|];
    EveryRunKeepsTheJar(psl, lim, ops, trace, |ops|);
    ImportedIsTheLivePart(psl, lim, s, now, records, t);
    ExpiredAreNotSent(psl, At(s.sites, SiteOf(psl, r.host)), r, ctx, now, later);
  }

  // ----- A second snapshot -----

  lemma LiveTwice(psl: SuffixList, s: JarState, site: string, now: int)
    requires JarOk(psl, s)
    ensures var u := Unexpired(At(s.sites, site), now); Unexpired(u, now) == u
  {
    LivePartIsSound(psl, s, site, now);
    NothingExpires(Unexpired(At(s.sites, site), now), now);
  }

  /** The sites of `order` that still hold something. */
  function Standing(t: JarState, order: seq<string>): seq<string> {
    if order == [] then []
    else
      var front, last := Standing(t, order[..|order| - 1]), order[|order| - 1];
      if last in t.sites then front + [last] else front
  }

  lemma {:induction false} StandingAre(t: JarState, order: seq<string>)
    requires NoRepeats(order)
    ensures NoRepeats(Standing(t, order))
    ensures forall site :: site in Standing(t, order) <==> site in order && site in t.sites
    decreases |order|
  {
    if order != [] {
      var front, last := order[..|order| - 1], order[|order| - 1];
      assert order == front + [last];
      StandingAre(t, front);
      assert last !in front;
    }
  }

  lemma {:induction false} SameSnapshot(psl: SuffixList, s: JarState, t: JarState, order: seq<string>, now: int)
    requires JarOk(psl, s) && forall site :: At(t.sites, site) == Unexpired(At(s.sites, site), now)
    ensures Snapshot(t, Standing(t, order), now) == Snapshot(s, order, now)
    decreases |order|
  {
    if order != [] {
      var front, last := order[..|order| - 1], order[|order| - 1];
      SameSnapshot(psl, s, t, front, now);
      LiveTwice(psl, s, last, now);
      var kept := Standing(t, front);
      assert (kept + [last])[..|kept|] == kept;
      assert RecordsOf([]) == [];
    }
  }

  lemma StandingLists(psl: SuffixList, s: JarState, t: JarState, order: seq<string>, now: int)
    requires JarOk(psl, t) && Lists(order, s.sites.Keys)
    requires forall site :: At(t.sites, site) == Unexpired(At(s.sites, site), now)
    ensures Lists(Standing(t, order), t.sites.Keys)
  {
    StandingAre(t, order);
    forall site | site in t.sites ensures site in s.sites {
      assert At(t.sites, site) != [];
      assert site !in s.sites ==> Unexpired(At(s.sites, site), now) == [];
    }
  }

  /** The imported jar exports as the very snapshot it came from. */
  lemma SnapshotComesBack(psl: SuffixList, lim: Limits, ops: seq<Op>, trace: seq<JarState>, now: int,
                          records: seq<CookieRecord>, t: JarState)
    requires Run(psl, lim, ops, trace)
    requires Exported(trace[|ops|], now, records) && Imported(psl, lim, EMPTY_JAR, records, now, t)
    ensures Exported(t, now, records)
  {
    var s := trace[|ops|];
    EveryRunKeepsTheJar(psl, lim, ops, trace, |ops|);
    ImportedIsTheLivePart(psl, lim, s, now, records, t);
    EmptyJarIsOk(psl, lim);
    ImportKeepsTheJar(psl, lim, EMPTY_JAR, records, now, t);
    var order :| Lists(order, s.sites.Keys) && records == Snapshot(s, order, now);
    StandingLists(psl, s, t, order, now);
    SameSnapshot(psl, s, t, order, now);
  }
}
