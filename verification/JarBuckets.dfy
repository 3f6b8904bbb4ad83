/** What the bucket operations keep, one bucket at a time. */
module JarBuckets {
  import opened Options
  import opened Cookies
  import opened JarModel
  import opened Sets

  /** An entry that belongs where it is: sound, under its own site, and numbered below the counters. */
  predicate EntryOk(psl: SuffixList, site: string, e: Entry, nextCreation: nat, nextAccess: nat) {
    && Sound(e.cookie)
    && SiteOf(psl, e.cookie.domain) == site
    && e.creationSeq < nextCreation
    && e.lastAccess < nextAccess
  }

  predicate BucketOk(psl: SuffixList, site: string, b: seq<Entry>, nextCreation: nat, nextAccess: nat) {
    && DistinctIds(b)
    && forall i :: 0 <= i < |b| ==> EntryOk(psl, site, b[i], nextCreation, nextAccess)
  }

  predicate DistinctCreations(b: seq<Entry>) {
    forall i, j :: 0 <= i < j < |b| ==> b[i].creationSeq != b[j].creationSeq
  }

  // ----- Keeping -----

  lemma {:induction false} KeptPositionsAre(n: nat, doomed: set<nat>)
    ensures var p := KeptPositions(n, doomed);
            && (forall k :: 0 <= k < |p| ==> p[k] !in doomed)
            && (forall k, l :: 0 <= k < l < |p| ==> p[k] < p[l])
            && (forall i :: 0 <= i < n && i !in doomed ==> i in p)
  {
    if n > 0 { KeptPositionsAre(n - 1, doomed); }
  }

  lemma {:induction false} KeptCount(n: nat, doomed: set<nat>)
    requires forall i :: i in doomed ==> i < n
    ensures |KeptPositions(n, doomed)| == n - |doomed|
  {
    if n == 0 {
      assert doomed == {};
    } else if n - 1 in doomed {
      KeptCount(n - 1, doomed - {n - 1});
      SameBelow(n - 1, doomed, doomed - {n - 1});
    } else {
      KeptCount(n - 1, doomed);
    }
  }

  lemma {:induction false} SameBelow(n: nat, a: set<nat>, b: set<nat>)
    requires forall i :: 0 <= i < n ==> (i in a <==> i in b)
    ensures KeptPositions(n, a) == KeptPositions(n, b)
  {
    if n > 0 { SameBelow(n - 1, a, b); }
  }

  lemma {:induction false} NothingDoomed(n: nat, doomed: set<nat>)
    requires forall i :: 0 <= i < n ==> i !in doomed
    ensures |KeptPositions(n, doomed)| == n
    ensures forall k :: 0 <= k < n ==> KeptPositions(n, doomed)[k] == k
  {
    if n > 0 { NothingDoomed(n - 1, doomed); }
  }

  lemma KeepAll(b: seq<Entry>, doomed: set<nat>)
    requires forall i :: 0 <= i < |b| ==> i !in doomed
    ensures Keep(b, doomed) == b
  {
    NothingDoomed(|b|, doomed);
  }

  lemma KeepSize(b: seq<Entry>, doomed: set<nat>)
    requires forall i :: i in doomed ==> i < |b|
    ensures |Keep(b, doomed)| == |b| - |doomed|
  {
    KeptCount(|b|, doomed);
  }

  /** What is kept is exactly what was not doomed. */
  lemma KeptEntries(b: seq<Entry>, doomed: set<nat>, e: Entry)
    ensures e in Keep(b, doomed) <==> exists i :: 0 <= i < |b| && i !in doomed && b[i] == e
  {
    var p := KeptPositions(|b|, doomed);
    KeptPositionsAre(|b|, doomed);
    if e in Keep(b, doomed) {
      var k :| 0 <= k < |p| && Keep(b, doomed)[k] == e;
      assert b[p[k]] == e;
    }
    if i :| 0 <= i < |b| && i !in doomed && b[i] == e {
      var k :| 0 <= k < |p| && p[k] == i;
      assert Keep(b, doomed)[k] == e;
    }
  }

  lemma KeepIsOk(psl: SuffixList, site: string, b: seq<Entry>, doomed: set<nat>, nc: nat, na: nat)
    requires BucketOk(psl, site, b, nc, na)
    ensures BucketOk(psl, site, Keep(b, doomed), nc, na)
    ensures DistinctCreations(b) ==> DistinctCreations(Keep(b, doomed))
    ensures |Keep(b, doomed)| <= |b|
  {
    KeptPositionsAre(|b|, doomed);
  }

  /** Whether an entry stays depends on that entry alone. */
  lemma UnexpiredOneMore(b: seq<Entry>, last: Entry, now: int)
    ensures Unexpired(b + [last], now) == Unexpired(b, now) + if Expired(last.cookie, now) then [] else [last]
  {
    SameBelow(|b|, ExpiredPositions(b + [last], now), ExpiredPositions(b, now));
  }

  lemma RecordsOneMore(u: seq<Entry>, last: Entry)
    ensures RecordsOf(u + [last]) == RecordsOf(u) + [RecordOf(last)]
  {
    assert (u + [last])[..|u|] == u;
  }

  // ----- Trimming -----

  lemma TrimmedSize(b: seq<Entry>, keep: nat, after: seq<Entry>)
    requires Trimmed(b, keep, after)
    ensures |after| == MinNat(|b|, keep)
  {
    if |b| > keep {
      var doomed :| LeastRecent(b, doomed, |b| - keep) && after == Keep(b, doomed);
      KeepSize(b, doomed);
    }
  }

  lemma TrimmedIsOk(psl: SuffixList, site: string, b: seq<Entry>, keep: nat, after: seq<Entry>, nc: nat, na: nat)
    requires BucketOk(psl, site, b, nc, na) && Trimmed(b, keep, after)
    ensures BucketOk(psl, site, after, nc, na)
    ensures DistinctCreations(b) ==> DistinctCreations(after)
  {
    if |b| > keep {
      var doomed :| LeastRecent(b, doomed, |b| - keep) && after == Keep(b, doomed);
      KeepIsOk(psl, site, b, doomed, nc, na);
    }
  }

  lemma SomeSurvivor(n: nat, doomed: set<nat>) returns (k: nat)
    requires |doomed| < n
    ensures k < n && k !in doomed
  {
    SubsetSize(Below(n), doomed);
    k :| k in Below(n) && k !in doomed;
  }

  /** Nothing that stays after a trim was used before something that went. */
  lemma TrimKeepsTheRecent(b: seq<Entry>, keep: nat, after: seq<Entry>, kept: Entry, gone: Entry)
    requires Trimmed(b, keep, after) && kept in after && gone in b && gone !in after
    ensures gone.lastAccess <= kept.lastAccess
  {
    if |b| > keep {
      var doomed :| LeastRecent(b, doomed, |b| - keep) && after == Keep(b, doomed);
      KeptEntries(b, doomed, kept);
      KeptEntries(b, doomed, gone);
      var k :| 0 <= k < |b| && k !in doomed && b[k] == kept;
      var i :| 0 <= i < |b| && b[i] == gone;
      assert i in doomed;
    }
  }

  lemma TrimKeepsTheNewest(b: seq<Entry>, keep: nat, after: seq<Entry>, e: Entry)
    requires Trimmed(b, keep, after) && e in b && keep > 0
    requires forall x :: x in b && x != e ==> x.lastAccess < e.lastAccess
    ensures e in after
  {
    if |b| > keep {
      var doomed :| LeastRecent(b, doomed, |b| - keep) && after == Keep(b, doomed);
      var i :| 0 <= i < |b| && b[i] == e;
      var k := SomeSurvivor(|b|, doomed);
      assert b[k] == e || i !in doomed;
      KeptEntries(b, doomed, e);
    }
  }

  lemma HeldDownIsOk(psl: SuffixList, site: string, b: seq<Entry>, now: int, cap: nat, keep: nat, after: seq<Entry>,
                     nc: nat, na: nat)
    requires BucketOk(psl, site, b, nc, na) && HeldDown(b, now, cap, keep, after)
    ensures BucketOk(psl, site, after, nc, na)
    ensures DistinctCreations(b) ==> DistinctCreations(after)
    ensures |after| <= |b|
    ensures |after| <= MaxNat(cap, keep)
  {
    if |b| > cap {
      KeepIsOk(psl, site, b, ExpiredPositions(b, now), nc, na);
      TrimmedIsOk(psl, site, Unexpired(b, now), keep, after, nc, na);
      TrimmedSize(Unexpired(b, now), keep, after);
    }
  }

  /** A live entry used after every other survives being held down to at least one entry. */
  lemma HeldDownKeepsTheNewest(b: seq<Entry>, now: int, cap: nat, keep: nat, after: seq<Entry>, e: Entry)
    requires HeldDown(b, now, cap, keep, after) && e in b && keep > 0 && !Expired(e.cookie, now)
    requires forall x :: x in b && x != e ==> x.lastAccess < e.lastAccess
    ensures e in after
    ensures forall x :: x in after && x != e ==> x.lastAccess < e.lastAccess
  {
    if |b| > cap {
      var u := Unexpired(b, now);
      forall x ensures x in u ==> x in b {
        KeptEntries(b, ExpiredPositions(b, now), x);
      }
      var i :| 0 <= i < |b| && b[i] == e;
      KeptEntries(b, ExpiredPositions(b, now), e);
      TrimKeepsTheNewest(u, keep, after, e);
      forall x ensures x in after ==> x in u { TrimmedIsFrom(u, keep, after, x); }
    }
  }

  lemma TrimmedIsFrom(b: seq<Entry>, keep: nat, after: seq<Entry>, x: Entry)
    requires Trimmed(b, keep, after)
    ensures x in after ==> x in b
  {
    if |b| > keep {
      var doomed :| LeastRecent(b, doomed, |b| - keep) && after == Keep(b, doomed);
      KeptEntries(b, doomed, x);
    }
  }

  // ----- Applying one cookie -----

  lemma SwapRemoveIsOk(psl: SuffixList, site: string, b: seq<Entry>, i: nat, nc: nat, na: nat)
    requires BucketOk(psl, site, b, nc, na) && i < |b|
    ensures BucketOk(psl, site, SwapRemove(b, i), nc, na)
    ensures DistinctCreations(b) ==> DistinctCreations(SwapRemove(b, i))
    ensures forall k :: 0 <= k < |SwapRemove(b, i)| ==>
              IdentityOf(SwapRemove(b, i)[k].cookie) != IdentityOf(b[i].cookie)
  {
  }

  lemma AppliedIsOk(psl: SuffixList, site: string, b: seq<Entry>, c: Cookie, now: int, secure: bool, nc: nat, na: nat)
    requires BucketOk(psl, site, b, nc, na) && Sound(c) && SiteOf(psl, c.domain) == site
    ensures var r := ApplySetCookie(b, c, now, secure, nc, na);
            && nc <= r.nextCreation && na <= r.nextAccess
            && BucketOk(psl, site, r.bucket, r.nextCreation, r.nextAccess)
            && (DistinctCreations(b) ==> DistinctCreations(r.bucket))
            && |r.bucket| <= |b| + 1
  {
    var existing := PositionOf(b, IdentityOf(c));
    if existing.Some? {
      SwapRemoveIsOk(psl, site, b, existing.value, nc, na);
    }
  }

  lemma ReplacedIsOk(psl: SuffixList, site: string, b: seq<Entry>, e: Entry, nc: nat, na: nat)
    requires BucketOk(psl, site, b, nc, na) && EntryOk(psl, site, e, nc, na)
    ensures BucketOk(psl, site, Replaced(b, e), nc, na)
    ensures |Replaced(b, e)| <= |b| + 1
  {
    var existing := PositionOf(b, IdentityOf(e.cookie));
    if existing.Some? {
      SwapRemoveIsOk(psl, site, b, existing.value, nc, na);
    }
  }
}
