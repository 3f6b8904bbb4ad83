/**
 One registrable domain's cookies: a vector of entries and an index from identity
 to position that every mutation keeps exact.
 */
module JarBucket {
  import opened Options
  import opened Cookies
  import opened JarModel
  import opened JarBuckets

  /** What one bucket holds, as the jar's map owns it between changes. */
  datatype BucketData = BucketData(entries: seq<Entry>, index: map<Identity, nat>)
  {
    /** The index is the exact inverse of the entry list. */
    ghost predicate Coherent() {
      && (forall i :: 0 <= i < |entries| ==>
            IdentityOf(entries[i].cookie) in index && index[IdentityOf(entries[i].cookie)] == i)
      && (forall id :: id in index ==> index[id] < |entries| && IdentityOf(entries[index[id]].cookie) == id)
    }
  }

  lemma RemovedIsGone(b: seq<Entry>, i: nat)
    requires DistinctIds(b) && i < |b|
    ensures PositionOf(SwapRemove(b, i), IdentityOf(b[i].cookie)).None?
  {
  }

  /** A bucket taken out of the jar's map to be changed in place. */
  class Bucket {
    var entries: seq<Entry>
    var index: map<Identity, nat>

    ghost predicate Valid()
      reads this
    {
      BucketData(entries, index).Coherent()
    }

    constructor (data: BucketData)
      requires data.Coherent()
      ensures Valid() && entries == data.entries && index == data.index
    {
      entries, index := data.entries, data.index;
    }

    function Data(): BucketData
      reads this
    {
      BucketData(entries, index)
    }

    lemma IdentitiesAreDistinct()
      requires Valid()
      ensures DistinctIds(entries)
    {
    }

    /** A hash lookup answers what a scan of the bucket would. */
    method Position(id: Identity) returns (r: Option<nat>)
      requires Valid()
      ensures r == PositionOf(entries, id)
    {
      ghost var scanned := PositionOf(entries, id);
      if id in index {
        r := Some(index[id]);
      } else {
        r := None;
      }
    }

    method Push(e: Entry)
      requires Valid() && PositionOf(entries, IdentityOf(e.cookie)).None?
      modifies this
      ensures Valid() && entries == old(entries) + [e]
    {
      index := index[IdentityOf(e.cookie) := |entries|];
      entries := entries + [e];
    }

    /** The key the index maps has not changed, so the index is left alone. */
    method Replace(position: nat, e: Entry)
      requires Valid() && position < |entries|
      requires IdentityOf(e.cookie) == IdentityOf(entries[position].cookie)
      modifies this
      ensures Valid() && entries == old(entries)[position := e]
    {
      entries := entries[position := e];
    }

    /** The index is repaired for the entry `swap_remove` moved into the gap. */
    method Remove(position: nat)
      requires Valid() && position < |entries|
      modifies this
      ensures Valid() && entries == SwapRemove(old(entries), position)
    {
      var removed := entries[position];
      entries := SwapRemove(entries, position);
      index := index - {IdentityOf(removed.cookie)};
      if position < |entries| {
        index := index[IdentityOf(entries[position].cookie) := position];
      }
    }

    method Reindex()
      requires DistinctIds(entries)
      modifies this
      ensures Valid() && entries == old(entries)
    {
      index := map[];
      for i := 0 to |entries|
        invariant entries == old(entries)
        invariant forall k :: 0 <= k < i ==>
                    IdentityOf(entries[k].cookie) in index && index[IdentityOf(entries[k].cookie)] == k
        invariant forall id :: id in index ==> index[id] < i && IdentityOf(entries[index[id]].cookie) == id
      {
        index := index[IdentityOf(entries[i].cookie) := i];
      }
    }

    /** The entries outside `positions`, gathered in one pass. */
    method Gather(positions: set<nat>) returns (kept: seq<Entry>)
      ensures kept == Keep(entries, positions)
    {
      kept := [];
      for i := 0 to |entries|
        invariant |kept| == |KeptPositions(i, positions)|
        invariant forall k :: 0 <= k < |kept| ==> kept[k] == entries[KeptPositions(i, positions)[k]]
      {
        if i !in positions {
          kept := kept + [entries[i]];
        }
      }
    }

    method RemoveAll(positions: set<nat>)
      requires Valid()
      modifies this
      ensures Valid() && entries == Keep(old(entries), positions)
    {
      if positions == {} {
        KeepAll(entries, positions);
        return;
      }
      var kept := Gather(positions);
      IdentitiesAreDistinct();
      KeptPositionsAre(|entries|, positions);
      entries := kept;
      Reindex();
    }

    /** Rebuilding the index is skipped when nothing was dropped. */
    method RemoveExpired(now: int)
      requires Valid()
      modifies this
      ensures Valid() && entries == Unexpired(old(entries), now)
    {
      var kept := Gather(ExpiredPositions(entries, now));
      KeepSize(entries, ExpiredPositions(entries, now));
      if |kept| != |entries| {
        IdentitiesAreDistinct();
        KeptPositionsAre(|entries|, ExpiredPositions(entries, now));
        entries := kept;
        Reindex();
      } else {
        KeepAll(entries, ExpiredPositions(entries, now));
      }
    }

    method OldestOutside(chosen: set<nat>) returns (k: nat)
      requires |chosen| < |entries|
      ensures k < |entries| && k !in chosen
      ensures forall i :: 0 <= i < |entries| && i !in chosen ==> entries[k].lastAccess <= entries[i].lastAccess
    {
      ghost var survivor := SomeSurvivor(|entries|, chosen);
      k := 0;
      while k in chosen
        invariant k <= survivor && forall i :: 0 <= i < k ==> i in chosen
        decreases survivor - k
      {
        k := k + 1;
      }
      for i := k to |entries|
        invariant k < |entries| && k !in chosen
        invariant forall j :: 0 <= j < i && j !in chosen ==> entries[k].lastAccess <= entries[j].lastAccess
      {
        if i !in chosen && entries[i].lastAccess < entries[k].lastAccess {
          k := i;
        }
      }
    }

    /** A partial selection of the `count` least recently accessed positions; ties go either way. */
    method SelectOldest(count: nat) returns (doomed: set<nat>)
      requires count <= |entries|
      ensures LeastRecent(entries, doomed, count)
    {
      doomed := {};
      while |doomed| < count
        invariant |doomed| <= count && LeastRecent(entries, doomed, |doomed|)
        decreases count - |doomed|
      {
        var k := OldestOutside(doomed);
        doomed := doomed + {k};
      }
    }

    method TrimTo(keep: nat)
      requires Valid()
      modifies this
      ensures Valid() && Trimmed(old(entries), keep, entries)
    {
      if |entries| <= keep { return; }
      var doomed := SelectOldest(|entries| - keep);
      RemoveAll(doomed);
    }

    /** Past `cap`, expired entries go first and the rest is trimmed to `keep`. */
    method HoldDown(now: int, cap: nat, keep: nat)
      requires Valid()
      modifies this
      ensures Valid() && HeldDown(old(entries), now, cap, keep, entries)
    {
      if |entries| > cap {
        RemoveExpired(now);
        TrimTo(keep);
      }
    }

    /** Puts `e` in place of whatever has its identity, at the end of the list. */
    method Supersede(e: Entry)
      requires Valid()
      modifies this
      ensures Valid() && entries == Replaced(old(entries), e)
    {
      var existing := Position(IdentityOf(e.cookie));
      if existing.Some? {
        IdentitiesAreDistinct();
        RemovedIsGone(entries, existing.value);
        Remove(existing.value);
      }
      Push(e);
    }

    /** Stamps every entry the request may see with one access number. */
    method Stamp(psl: SuffixList, r: Request, ctx: Context, now: int, access: nat)
      requires Valid()
      modifies this
      ensures Valid() && entries == Accessed(psl, old(entries), r, ctx, now, access)
    {
      ghost var was := entries;
      for i := 0 to |entries|
        invariant index == old(index) && |entries| == |was|
        invariant forall k :: 0 <= k < i ==> entries[k] == Accessed(psl, was, r, ctx, now, access)[k]
        invariant forall k :: i <= k < |entries| ==> entries[k] == was[k]
      {
        if Eligible(psl, entries[i], r, ctx, now) {
          entries := entries[i := entries[i].(lastAccess := access)];
        }
      }
      forall i | 0 <= i < |entries| ensures IdentityOf(entries[i].cookie) == IdentityOf(was[i].cookie) {
      }
    }
  }
}
