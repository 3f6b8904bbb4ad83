/** Counting the whole jar, and what a purge removes from it. */
module JarTotals {
  import opened Text
  import opened Cookies
  import opened JarModel
  import opened JarBuckets
  import opened Lowest
  import opened Sets

  // ----- Totals -----

  function PlacesIn(site: string, n: nat): set<Place> {
    set i | i in Below(n) :: Place(site, i)
  }

  lemma PlacesInSize(site: string, n: nat)
    ensures |PlacesIn(site, n)| == n
  {
    ImageSize(Below(n), i => Place(site, i), PlacesIn(site, n));
  }

  lemma PlacesSplit(sites: map<string, seq<Entry>>, site: string)
    ensures Places(sites) == Places(sites - {site}) + PlacesIn(site, |At(sites, site)|)
    ensures Places(sites - {site}) !! PlacesIn(site, |At(sites, site)|)
  {
  }

  /** One bucket's share of the total. */
  lemma TotalSplits(sites: map<string, seq<Entry>>, site: string)
    ensures Total(sites) == |At(sites, site)| + Total(sites - {site})
  {
    PlacesInSize(site, |At(sites, site)|);
    PlacesSplit(sites, site);
  }

  /** Replacing one bucket moves the total by the difference in length. */
  lemma TotalAfterPut(sites: map<string, seq<Entry>>, site: string, b: seq<Entry>)
    ensures Total(PutSite(sites, site, b)) == Total(sites) - |At(sites, site)| + |b|
  {
    var put := PutSite(sites, site, b);
    TotalSplits(sites, site);
    TotalSplits(put, site);
    assert put - {site} == sites - {site};
  }

  lemma {:induction false} TotalIsMonotone(a: map<string, seq<Entry>>, b: map<string, seq<Entry>>)
    requires forall site :: site in a ==> |a[site]| <= |At(b, site)|
    ensures Total(a) <= Total(b)
    decreases |a|
  {
    if a == map[] {
      assert Places(a) == {};
    } else {
      var site :| site in a;
      TotalSplits(a, site);
      TotalSplits(b, site);
      var a', b' := a - {site}, b - {site};
      assert |a'| < |a| by { assert a'.Keys == a.Keys - {site}; }
      TotalIsMonotone(a', b');
    }
  }

  // ----- The eviction order -----

  /** Ranking by liveness, recency, site and position never ties. */
  lemma EvictionOrderIsTotal()
    ensures StrictTotalOrder(EvictedBefore)
  {
    forall a: Candidate, b: Candidate
      ensures a == b || EvictedBefore(a, b) || EvictedBefore(b, a)
    {
      StrLessTotal(a.site, b.site);
    }
    forall a: Candidate, b: Candidate, c: Candidate | EvictedBefore(a, b) && EvictedBefore(b, c)
      ensures EvictedBefore(a, c)
    {
      StrLessTotal(a.site, b.site);
      StrLessTotal(b.site, c.site);
      StrLessTotal(a.site, c.site);
      if StrLess(a.site, b.site) && StrLess(b.site, c.site) {
        StrLessTransitive(a.site, b.site, c.site);
      }
    }
  }

  lemma CandidateCount(sites: map<string, seq<Entry>>, now: int)
    ensures |Candidates(sites, now)| == Total(sites)
  {
    var all := Places(sites);
    var f := (p: Place) => if p in all then CandidateAt(sites, now, p) else Candidate(false, 0, p.site, p.position);
    ImageSize(all, f, Candidates(sites, now));
  }

  // ----- What a purge leaves -----

  /** Candidates that each name a place of the jar, no two the same one. */
  ghost predicate NamePlaces(sites: map<string, seq<Entry>>, victims: set<Candidate>) {
    && (forall c :: c in victims ==> Place(c.site, c.position) in Places(sites))
    && forall c, d :: c in victims && d in victims && c.site == d.site && c.position == d.position ==> c == d
  }

  function VictimsAt(victims: set<Candidate>, site: string): set<Candidate> {
    set c | c in victims && c.site == site
  }

  function VictimsElsewhere(victims: set<Candidate>, site: string): set<Candidate> {
    set c | c in victims && c.site != site
  }

  lemma VictimsSplit(victims: set<Candidate>, site: string)
    ensures |victims| == |VictimsAt(victims, site)| + |VictimsElsewhere(victims, site)|
  {
    assert victims == VictimsAt(victims, site) + VictimsElsewhere(victims, site);
  }

  lemma DoomedCount(sites: map<string, seq<Entry>>, victims: set<Candidate>, site: string)
    requires NamePlaces(sites, victims)
    ensures |DoomedIn(victims, site)| == |VictimsAt(victims, site)|
    ensures forall i :: i in DoomedIn(victims, site) ==> i < |At(sites, site)|
  {
    var here, doomed := VictimsAt(victims, site), DoomedIn(victims, site);
    var f := (c: Candidate) => c.position;
    forall i | i in doomed ensures exists c :: c in here && f(c) == i {
      var c :| c in victims && c.site == site && c.position == i;
      assert c in here && f(c) == i;
    }
    ImageSize(here, f, doomed);
    forall i | i in doomed ensures i < |At(sites, site)| {
      var c :| c in victims && c.site == site && c.position == i;
      assert Place(c.site, c.position) in Places(sites);
    }
  }

  lemma ElsewhereNamesPlaces(sites: map<string, seq<Entry>>, victims: set<Candidate>, site: string)
    requires NamePlaces(sites, victims)
    ensures NamePlaces(sites - {site}, VictimsElsewhere(victims, site))
  {
    forall c | c in VictimsElsewhere(victims, site) ensures Place(c.site, c.position) in Places(sites - {site}) {
      assert Place(c.site, c.position) in Places(sites);
    }
  }

  lemma OtherSites(sites: map<string, seq<Entry>>, victims: set<Candidate>, site: string)
    ensures WithoutVictims(sites, victims) - {site} == WithoutVictims(sites - {site}, VictimsElsewhere(victims, site))
  {
    forall other | other != site ensures DoomedIn(victims, other) == DoomedIn(VictimsElsewhere(victims, site), other) {
    }
  }

  lemma SurvivorsAt(sites: map<string, seq<Entry>>, victims: set<Candidate>, site: string)
    requires NamePlaces(sites, victims) && site in sites
    ensures |At(WithoutVictims(sites, victims), site)| == |sites[site]| - |VictimsAt(victims, site)|
  {
    DoomedCount(sites, victims, site);
    KeepSize(sites[site], DoomedIn(victims, site));
  }

  lemma NoSitesNoVictims(victims: set<Candidate>)
    requires NamePlaces(map[], victims)
    ensures victims == {} && Total(map[]) == 0 && Total(WithoutVictims(map[], victims)) == 0
  {
    assert Places(map[]) == {};
    assert WithoutVictims(map[], victims) == map[];
  }

  /** A purge removes exactly as many entries as it has victims. */
  lemma {:induction false} PurgeCount(sites: map<string, seq<Entry>>, victims: set<Candidate>)
    requires NamePlaces(sites, victims)
    ensures Total(WithoutVictims(sites, victims)) == Total(sites) - |victims|
    decreases |sites|
  {
    if sites == map[] {
      NoSitesNoVictims(victims);
    } else {
      var site :| site in sites;
      var rest := sites - {site};
      assert rest.Keys == sites.Keys - {site};
      VictimsSplit(victims, site);
      ElsewhereNamesPlaces(sites, victims, site);
      PurgeCount(rest, VictimsElsewhere(victims, site));
      OtherSites(sites, victims, site);
      SurvivorsAt(sites, victims, site);
      TotalSplits(sites, site);
      TotalSplits(WithoutVictims(sites, victims), site);
    }
  }

  lemma VictimsNamePlaces(sites: map<string, seq<Entry>>, now: int, victims: set<Candidate>)
    requires victims <= Candidates(sites, now)
    ensures NamePlaces(sites, victims)
  {
  }

  /** An overflowing jar is purged to a tenth below its cap, exactly. */
  lemma PurgeIsExact(lim: Limits, s: JarState, now: int, t: JarState)
    requires Enforced(lim, s, now, t)
    ensures Total(t.sites) == if Total(s.sites) <= lim.total then Total(s.sites) else lim.total - lim.total / 10
  {
    if Total(s.sites) > lim.total {
      var victims: set<Candidate> :| && IsLowest(EvictedBefore, victims, Candidates(s.sites, now), Total(s.sites) - lim.PurgeTarget())
                     && t == s.(sites := WithoutVictims(s.sites, victims));
      CandidateCount(s.sites, now);
      VictimsNamePlaces(s.sites, now, victims);
      PurgeCount(s.sites, victims);
    }
  }

  /**
   The one-pass purge is sort-and-drop: over any ascending listing of the jar's entries, the victims
   are its front.  Hence every expired entry goes before any live one, and no live victim was used
   after a survivor.
   */
  lemma PurgeIsSortAndDrop(lim: Limits, s: JarState, now: int, t: JarState, ranked: seq<Candidate>)
    returns (victims: set<Candidate>)
    requires Enforced(lim, s, now, t) && Total(s.sites) > lim.total
    requires Ascending(EvictedBefore, ranked) && Elements(ranked) == Candidates(s.sites, now)
    ensures var k := Total(s.sites) - lim.PurgeTarget();
            k <= |ranked| && |victims| == k && victims == Elements(ranked[..k])
    ensures t == s.(sites := WithoutVictims(s.sites, victims))
    ensures forall v, c :: v in victims && c in Candidates(s.sites, now) && c !in victims ==>
              && (v.live ==> c.live)
              && (v.live == c.live ==> v.lastAccess <= c.lastAccess)
  {
    victims :| && IsLowest(EvictedBefore, victims, Candidates(s.sites, now), Total(s.sites) - lim.PurgeTarget())
               && t == s.(sites := WithoutVictims(s.sites, victims));
    EvictionOrderIsTotal();
    CandidateCount(s.sites, now);
    DistinctCount(ranked);
    SortAndDrop(EvictedBefore, ranked, victims, Total(s.sites) - lim.PurgeTarget());
  }

  /** `e` was used after every other entry of the jar, and sits at this one place. */
  ghost predicate Newest(s: JarState, site: string, i: nat) {
    && site in s.sites && i < |s.sites[site]|
    && forall u, k :: u in s.sites && 0 <= k < |s.sites[u]| && (u != site || k != i) ==>
                        s.sites[u][k].lastAccess < s.sites[site][i].lastAccess
  }

  lemma NewestOutranks(s: JarState, now: int, site: string, i: nat, other: Candidate)
    requires Newest(s, site, i) && !Expired(s.sites[site][i].cookie, now)
    requires other in Candidates(s.sites, now)
    ensures var mine := Candidate(true, s.sites[site][i].lastAccess, site, i);
            mine == other || !EvictedBefore(mine, other)
  {
    var p :| p in Places(s.sites) && other == CandidateAt(s.sites, now, p);
  }

  lemma NewestIsSpared(s: JarState, now: int, victims: set<Candidate>, site: string, i: nat)
    requires Newest(s, site, i) && !Expired(s.sites[site][i].cookie, now)
    requires IsLowest(EvictedBefore, victims, Candidates(s.sites, now), |victims|) && |victims| < Total(s.sites)
    ensures i !in DoomedIn(victims, site)
  {
    var all := Candidates(s.sites, now);
    CandidateCount(s.sites, now);
    SubsetSize(all, victims);
    var other :| other in all && other !in victims;
    NewestOutranks(s, now, site, i, other);
    forall c: Candidate | c in victims && c.site == site ensures c.position != i {
      assert c in all && EvictedBefore(c, other);
    }
  }

  /** A live entry used after every other survives any purge that leaves something. */
  lemma PurgeKeepsTheNewest(lim: Limits, s: JarState, now: int, t: JarState, site: string, i: nat)
    requires Enforced(lim, s, now, t) && lim.total > 0
    requires Newest(s, site, i) && !Expired(s.sites[site][i].cookie, now)
    ensures s.sites[site][i] in At(t.sites, site)
  {
    if Total(s.sites) > lim.total {
      var victims: set<Candidate> :|
        && IsLowest(EvictedBefore, victims, Candidates(s.sites, now), Total(s.sites) - lim.PurgeTarget())
        && t == s.(sites := WithoutVictims(s.sites, victims));
      CandidateCount(s.sites, now);
      NewestIsSpared(s, now, victims, site, i);
      KeptEntries(s.sites[site], DoomedIn(victims, site), s.sites[site][i]);
    }
  }
}
