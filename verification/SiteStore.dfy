/** Every bucket of the jar, and the running total its mutations keep in step. */
module JarSites {
  import opened Cookies
  import opened JarModel
  import opened JarBuckets
  import opened JarTotals
  import opened JarBucket
  import opened Lowest

  // ----- The scan a purge makes -----

  /** The first `n` entries of one bucket, as the purge ranks them. */
  function BucketCandidates(site: string, bucket: seq<Entry>, now: int, n: nat): set<Candidate>
    requires n <= |bucket|
  {
    set i | 0 <= i < n :: Candidate(!Expired(bucket[i].cookie, now), bucket[i].lastAccess, site, i)
  }

  function CandidatesIn(contents: map<string, seq<Entry>>, now: int, done: set<string>): set<Candidate> {
    set p | p in Places(contents) && p.site in done :: CandidateAt(contents, now, p)
  }

  lemma NoCandidatesYet(site: string, bucket: seq<Entry>, now: int, seen: set<Candidate>)
    ensures seen + BucketCandidates(site, bucket, now, 0) == seen
  {
  }

  lemma OneMoreCandidate(site: string, bucket: seq<Entry>, now: int, i: nat, seen: set<Candidate>)
    requires i < |bucket| && forall c :: c in seen ==> c.site != site
    ensures var candidate := Candidate(!Expired(bucket[i].cookie, now), bucket[i].lastAccess, site, i);
            && candidate !in seen + BucketCandidates(site, bucket, now, i)
            && seen + BucketCandidates(site, bucket, now, i) + {candidate} == seen + BucketCandidates(site, bucket, now, i + 1)
  {
  }

  lemma OneMoreSite(contents: map<string, seq<Entry>>, now: int, done: set<string>, site: string)
    requires site in contents && site !in done
    ensures CandidatesIn(contents, now, done + {site}) ==
            CandidatesIn(contents, now, done) + BucketCandidates(site, contents[site], now, |contents[site]|)
  {
    var b := contents[site];
    forall c | c in BucketCandidates(site, b, now, |b|) ensures c in CandidatesIn(contents, now, done + {site}) {
      var i :| 0 <= i < |b| && c == Candidate(!Expired(b[i].cookie, now), b[i].lastAccess, site, i);
      assert Place(site, i) in Places(contents) && c == CandidateAt(contents, now, Place(site, i));
    }
  }

  lemma EverySite(contents: map<string, seq<Entry>>, now: int)
    ensures CandidatesIn(contents, now, contents.Keys) == Candidates(contents, now)
  {
  }

  method OfferCandidate(held: set<Candidate>, k: nat, candidate: Candidate, ghost seen: set<Candidate>)
    returns (worst: set<Candidate>)
    requires IsLowest(EvictedBefore, held, seen, k) && candidate !in seen
    ensures IsLowest(EvictedBefore, worst, seen + {candidate}, k)
  {
    EvictionOrderIsTotal();
    worst := Offer(EvictedBefore, held, k, candidate, seen);
  }

  /** Offers one bucket's entries to the bounded heap, in order. */
  method ScanBucket(site: string, bucket: seq<Entry>, now: int, k: nat, held: set<Candidate>,
                    ghost seen: set<Candidate>)
    returns (worst: set<Candidate>)
    requires IsLowest(EvictedBefore, held, seen, k) && forall c :: c in seen ==> c.site != site
    ensures IsLowest(EvictedBefore, worst, seen + BucketCandidates(site, bucket, now, |bucket|), k)
  {
    worst := held;
    NoCandidatesYet(site, bucket, now, seen);
    for i := 0 to |bucket|
      invariant IsLowest(EvictedBefore, worst, seen + BucketCandidates(site, bucket, now, i), k)
    {
      var e := bucket[i];
      var candidate := Candidate(!Expired(e.cookie, now), e.lastAccess, site, i);
      OneMoreCandidate(site, bucket, now, i, seen);
      worst := OfferCandidate(worst, k, candidate, seen + BucketCandidates(site, bucket, now, i));
    }
  }

  // ----- What a purge leaves, one bucket at a time -----

  function SitesOf(victims: set<Candidate>): (r: set<string>)
    ensures forall c :: c in victims ==> c.site in r
    ensures forall site :: site in r ==> exists c :: c in victims && c.site == site
  {
    set c | c in victims :: c.site
  }

  function PartlyPurged(contents: map<string, seq<Entry>>, victims: set<Candidate>, done: set<string>): map<string, seq<Entry>> {
    map site | site in contents && (site in done ==> Keep(contents[site], DoomedIn(victims, site)) != []) ::
      if site in done then Keep(contents[site], DoomedIn(victims, site)) else contents[site]
  }

  lemma PurgeOneMore(contents: map<string, seq<Entry>>, victims: set<Candidate>, done: set<string>, site: string)
    requires site in contents && site !in done
    ensures PutSite(PartlyPurged(contents, victims, done), site, Keep(contents[site], DoomedIn(victims, site))) ==
            PartlyPurged(contents, victims, done + {site})
    ensures site in PartlyPurged(contents, victims, done) && PartlyPurged(contents, victims, done)[site] == contents[site]
  {
  }

  lemma PurgeDone(contents: map<string, seq<Entry>>, victims: set<Candidate>, done: set<string>)
    requires forall c :: c in victims ==> c.site in done
    requires forall site :: site in contents ==> contents[site] != []
    ensures PartlyPurged(contents, victims, done) == WithoutVictims(contents, victims)
  {
    forall site | site in contents && site !in done
      ensures Keep(contents[site], DoomedIn(victims, site)) == contents[site]
    {
      assert DoomedIn(victims, site) == {};
      KeepAll(contents[site], {});
    }
  }

  lemma VictimsAreHere(lim: Limits, s: JarState, now: int, victims: set<Candidate>)
    requires Total(s.sites) > lim.total
    requires IsLowest(EvictedBefore, victims, Candidates(s.sites, now), Total(s.sites) - lim.PurgeTarget())
    ensures forall c :: c in victims ==> c.site in s.sites
    ensures Enforced(lim, s, now, s.(sites := WithoutVictims(s.sites, victims)))
  {
    forall c | c in victims ensures c.site in s.sites {
      assert c in Candidates(s.sites, now);
    }
  }

  lemma NothingPurged(contents: map<string, seq<Entry>>, victims: set<Candidate>)
    ensures PartlyPurged(contents, victims, {}) == contents
  {
  }

  // ----- The map that owns the buckets -----

  function EntriesOf(sites: map<string, BucketData>): map<string, seq<Entry>> {
    map site | site in sites :: sites[site].entries
  }

  ghost predicate AllCoherent(sites: map<string, BucketData>) {
    forall site :: site in sites ==> sites[site].Coherent()
  }

  ghost predicate NoneEmpty(sites: map<string, BucketData>) {
    forall site :: site in sites ==> sites[site].entries != []
  }

  function PutData(sites: map<string, BucketData>, site: string, data: BucketData): map<string, BucketData> {
    if data.entries == [] then sites - {site} else sites[site := data]
  }

  lemma PutDataKeeps(sites: map<string, BucketData>, site: string, data: BucketData)
    requires AllCoherent(sites) && NoneEmpty(sites) && data.Coherent()
    ensures AllCoherent(PutData(sites, site, data)) && NoneEmpty(PutData(sites, site, data))
    ensures EntriesOf(PutData(sites, site, data)) == PutSite(EntriesOf(sites), site, data.entries)
  {
    assert EntriesOf(PutData(sites, site, data)) == PutSite(EntriesOf(sites), site, data.entries);
  }

  /** Everything outside `pending` has been tidied, everything in it is as it was. */
  ghost predicate TidiedBut(was: map<string, BucketData>, sites: map<string, BucketData>, pending: set<string>,
                            now: int, perDomain: nat) {
    && sites.Keys == was.Keys && pending <= was.Keys
    && (forall site :: site in pending ==> sites[site] == was[site])
    && (forall site :: site in sites && site !in pending ==>
          Trimmed(Unexpired(was[site].entries, now), perDomain, sites[site].entries))
  }

  lemma CoherentPut(sites: map<string, BucketData>, site: string, data: BucketData)
    requires AllCoherent(sites) && data.Coherent()
    ensures AllCoherent(sites[site := data])
  {
  }

  lemma TidiedOneMore(was: map<string, BucketData>, sites: map<string, BucketData>, pending: set<string>, now: int,
                      perDomain: nat,
                      site: string, data: BucketData)
    requires TidiedBut(was, sites, pending, now, perDomain) && site in pending
    requires Trimmed(Unexpired(was[site].entries, now), perDomain, data.entries)
    ensures TidiedBut(was, sites[site := data], pending - {site}, now, perDomain)
  {
    var after := sites[site := data];
    forall u | u in after && u !in pending - {site}
      ensures Trimmed(Unexpired(was[u].entries, now), perDomain, after[u].entries)
    {
      assert u == site || after[u] == sites[u];
    }
  }

  /** Drops one bucket's expired entries and applies the cap. */
  method TidyData(data: BucketData, now: int, perDomain: nat) returns (after: BucketData)
    requires data.Coherent()
    ensures after.Coherent() && Trimmed(Unexpired(data.entries, now), perDomain, after.entries)
  {
    var bucket := new Bucket(data);
    bucket.RemoveExpired(now);
    bucket.TrimTo(perDomain);
    after := bucket.Data();
  }

  function OccupiedOnly(sites: map<string, BucketData>): map<string, BucketData> {
    map site | site in sites && sites[site].entries != [] :: sites[site]
  }

  lemma TidyIsEverywhere(lim: Limits, was: map<string, BucketData>, sites: map<string, BucketData>, now: int, nc: nat,
                         na: nat)
    requires TidiedBut(was, sites, {}, now, lim.perDomain) && AllCoherent(sites)
    ensures AllCoherent(OccupiedOnly(sites)) && NoneEmpty(OccupiedOnly(sites))
    ensures TidiedEverywhere(lim, JarState(EntriesOf(was), nc, na), now, JarState(EntriesOf(OccupiedOnly(sites)), nc, na))
  {
    forall site | site in was
      ensures Trimmed(Unexpired(EntriesOf(was)[site], now), lim.perDomain, At(EntriesOf(OccupiedOnly(sites)), site))
    {
      assert At(EntriesOf(OccupiedOnly(sites)), site) == sites[site].entries;
    }
  }

  class SiteStore {
    var sites: map<string, BucketData>
    var total: nat

    ghost function Contents(): map<string, seq<Entry>>
      reads this
    {
      EntriesOf(sites)
    }

    /** Every index is exact, no bucket is empty, and the running total is the number of entries. */
    ghost predicate Valid()
      reads this
    {
      AllCoherent(sites) && NoneEmpty(sites) && total == Total(EntriesOf(sites))
    }

    constructor ()
      ensures Valid() && Contents() == map[]
    {
      sites, total := map[], 0;
      new;
      assert Places(Contents()) == {};
    }

    /** Takes out the bucket for `site`, or an empty one if there is none. */
    method TakeOut(site: string) returns (b: Bucket)
      requires Valid()
      ensures fresh(b) && b.Valid() && b.entries == At(Contents(), site)
    {
      b := new Bucket(if site in sites then sites[site] else BucketData([], map[]));
    }

    /** Puts a changed bucket back, takes the change into the total, and drops the bucket if it is empty. */
    method PutBack(site: string, b: Bucket, before: nat)
      requires Valid() && b.Valid() && before == |At(Contents(), site)|
      modifies this
      ensures Valid() && Contents() == PutSite(old(Contents()), site, b.entries)
    {
      TotalAfterPut(EntriesOf(sites), site, b.entries);
      PutDataKeeps(sites, site, b.Data());
      total := total - before + |b.entries|;
      if b.entries == [] {
        sites := sites - {site};
      } else {
        sites := sites[site := b.Data()];
      }
    }

    /** One pass over the jar, holding no more than the `k` worst candidates. */
    method ChooseVictims(now: int, k: nat) returns (worst: set<Candidate>)
      ensures IsLowest(EvictedBefore, worst, Candidates(Contents(), now), k)
    {
      ghost var contents := Contents();
      var pending := sites.Keys;
      ghost var done: set<string> := {};
      worst := {};
      assert CandidatesIn(contents, now, {}) == {};
      while pending != {}
        invariant pending !! done && pending <= contents.Keys && done <= contents.Keys
        invariant forall site :: site in contents ==> site in pending || site in done
        invariant IsLowest(EvictedBefore, worst, CandidatesIn(contents, now, done), k)
        decreases pending
      {
        var site :| site in pending;
        worst := ScanBucket(site, sites[site].entries, now, k, worst, CandidatesIn(contents, now, done));
        OneMoreSite(contents, now, done, site);
        pending, done := pending - {site}, done + {site};
      }
      assert done == contents.Keys;
      EverySite(contents, now);
    }

    method EvictAt(site: string, positions: set<nat>)
      requires Valid() && site in sites
      modifies this
      ensures Valid() && Contents() == PutSite(old(Contents()), site, Keep(old(Contents())[site], positions))
    {
      var bucket := TakeOut(site);
      var before := |bucket.entries|;
      bucket.RemoveAll(positions);
      PutBack(site, bucket, before);
    }

    method EvictVictims(victims: set<Candidate>)
      requires Valid() && forall c :: c in victims ==> c.site in sites
      modifies this
      ensures Valid() && Contents() == WithoutVictims(old(Contents()), victims)
    {
      ghost var contents := Contents();
      var pending := SitesOf(victims);
      ghost var done: set<string> := {};
      NothingPurged(contents, victims);
      while pending != {}
        invariant Valid()
        invariant pending !! done && pending <= contents.Keys
        invariant forall c :: c in victims ==> c.site in pending || c.site in done
        invariant Contents() == PartlyPurged(contents, victims, done)
        decreases pending
      {
        var site :| site in pending;
        PurgeOneMore(contents, victims, done, site);
        EvictAt(site, DoomedIn(victims, site));
        pending, done := pending - {site}, done + {site};
      }
      PurgeDone(contents, victims, done);
    }

    /** A jar past `lim.total` loses its lowest-ranked entries, down to the purge target. */
    method EnforceTotal(lim: Limits, now: int, ghost nextCreation: nat, ghost nextAccess: nat)
      requires Valid()
      modifies this
      ensures Valid()
      ensures Enforced(lim, JarState(old(Contents()), nextCreation, nextAccess), now, JarState(Contents(), nextCreation, nextAccess))
    {
      if total <= lim.total { return; }
      var victims := ChooseVictims(now, total - lim.PurgeTarget());
      VictimsAreHere(lim, JarState(EntriesOf(sites), nextCreation, nextAccess), now, victims);
      EvictVictims(victims);
    }

    /** Sums the buckets' lengths afresh. */
    method Recount() returns (sum: nat)
      ensures sum == Total(Contents())
    {
      ghost var contents := Contents();
      var pending := sites.Keys;
      sum := 0;
      assert Places(contents - contents.Keys) == {};
      while pending != {}
        invariant pending <= contents.Keys
        invariant sum == Total(contents - pending)
        decreases pending
      {
        var site :| site in pending;
        sum := sum + |sites[site].entries|;
        var rest := pending - {site};
        TotalSplits(contents - rest, site);
        assert (contents - rest) - {site} == contents - pending;
        pending := rest;
      }
      assert contents - {} == contents;
    }

    /** Drops expired entries and applies the cap, bucket by bucket; some may be left empty. */
    method TidyBuckets(now: int, perDomain: nat)
      requires AllCoherent(sites)
      modifies `sites
      ensures TidiedBut(old(sites), sites, {}, now, perDomain) && AllCoherent(sites)
    {
      var pending := sites.Keys;
      while pending != {}
        invariant TidiedBut(old(sites), sites, pending, now, perDomain) && AllCoherent(sites)
        decreases pending
      {
        var site :| site in pending;
        var data := TidyData(sites[site], now, perDomain);
        TidiedOneMore(old(sites), sites, pending, now, perDomain, site, data);
        CoherentPut(sites, site, data);
        sites := sites[site := data];
        pending := pending - {site};
      }
    }

    /** Tidies everything, forgets the buckets that came out empty, and recounts. */
    method TidyEverySite(lim: Limits, now: int, ghost nextCreation: nat, ghost nextAccess: nat)
      requires Valid()
      modifies this
      ensures Valid()
      ensures TidiedEverywhere(lim, JarState(old(Contents()), nextCreation, nextAccess), now,
                               JarState(Contents(), nextCreation, nextAccess))
    {
      TidyBuckets(now, lim.perDomain);
      TidyIsEverywhere(lim, old(sites), sites, now, nextCreation, nextAccess);
      sites := OccupiedOnly(sites);
      total := Recount();
    }
  }
}
