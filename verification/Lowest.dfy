/**
 One-pass selection of the `k` lowest candidates through a heap that never holds
 more than `k` of them.  The heap is a set whose greatest element can be seen.
 */
module Lowest {
  import opened Options

  ghost predicate StrictTotalOrder<T(!new)>(less: (T, T) -> bool) {
    && (forall a :: !less(a, a))
    && (forall a, b :: a == b || less(a, b) || less(b, a))
    && (forall a, b, c :: less(a, b) && less(b, c) ==> less(a, c))
  }

  /** `w` is the `k` lowest members of `all`, or all of them when there are fewer. */
  ghost predicate IsLowest<T(!new)>(less: (T, T) -> bool, w: set<T>, all: set<T>, k: nat) {
    && w <= all
    && |w| == MinNat(k, |all|)
    && forall x, y :: x in w && y in all && y !in w ==> less(x, y)
  }

  predicate IsGreatest<T>(less: (T, T) -> bool, m: T, w: set<T>) {
    m in w && forall x :: x in w && x != m ==> less(x, m)
  }

  lemma {:induction false} GreatestExists<T(!new)>(less: (T, T) -> bool, w: set<T>) returns (m: T)
    requires StrictTotalOrder(less) && w != {}
    ensures IsGreatest(less, m, w)
    decreases |w|
  {
    var x :| x in w;
    if w == {x} {
      m := x;
    } else {
      var rest := w - {x};
      assert w == rest + {x};
      var n := GreatestExists(less, rest);
      m := if less(n, x) then x else n;
    }
  }

  /** The candidate joins while there is room, and otherwise displaces the greatest held if it is lower. */
  method Offer<T(==, !new)>(less: (T, T) -> bool, worst: set<T>, k: nat, candidate: T, ghost seen: set<T>)
    returns (kept: set<T>)
    requires StrictTotalOrder(less)
    requires IsLowest(less, worst, seen, k) && candidate !in seen
    ensures IsLowest(less, kept, seen + {candidate}, k)
  {
    if |worst| < k {
      assert worst == seen by { SubsetOfSameSize(worst, seen); }
      kept := worst + {candidate};
    } else {
      kept := worst;
      if worst != {} {
        ghost var g := GreatestExists(less, worst);
        var held :| held in worst && forall x :: x in worst && x != held ==> less(x, held);
        if less(candidate, held) {
          kept := (worst - {held}) + {candidate};
          assert |worst - {held}| == |worst| - 1;
          forall x, y | x in kept && y in seen + {candidate} && y !in kept
            ensures less(x, y)
          {
            assert y in seen;
            if y != held {
              assert less(held, y);
            }
          }
        } else {
          forall x | x in worst ensures less(x, candidate) {
            assert x == held || less(x, held);
          }
        }
      }
    }
  }

  lemma SubsetOfSameSize<T>(a: set<T>, b: set<T>)
    requires a <= b && |a| >= |b|
    ensures a == b
  {
    assert |b - a| == |b| - |a|;
  }

  /** There is only one such set, whatever order the candidates were seen in. */
  lemma LowestIsUnique<T(!new)>(less: (T, T) -> bool, v: set<T>, w: set<T>, all: set<T>, k: nat)
    requires StrictTotalOrder(less)
    requires IsLowest(less, v, all, k) && IsLowest(less, w, all, k)
    ensures v == w
  {
    if v != w {
      if v <= w {
        SubsetOfSameSize(v, w);
      } else if w <= v {
        SubsetOfSameSize(w, v);
      } else {
        var x :| x in v && x !in w;
        var y :| y in w && y !in v;
        assert false;
      }
    }
  }

  predicate Ascending<T>(less: (T, T) -> bool, s: seq<T>) {
    forall i, j :: 0 <= i < j < |s| ==> less(s[i], s[j])
  }

  function Elements<T>(s: seq<T>): set<T> {
    set x | x in s
  }

  lemma {:induction false} DistinctCount<T>(s: seq<T>)
    requires forall i, j :: 0 <= i < j < |s| ==> s[i] != s[j]
    ensures |Elements(s)| == |s|
  {
    if s != [] {
      var front, last := s[..|s| - 1], s[|s| - 1];
      DistinctCount(front);
      assert Elements(s) == Elements(front) + {last} by {
        forall x | x in s ensures x in front || x == last {
          var i :| 0 <= i < |s| && s[i] == x;
          assert i < |s| - 1 ==> front[i] == x;
        }
      }
      assert last !in Elements(front);
    }
  }

  /** The bounded heap does what sorting everything and dropping the front would do. */
  lemma SortAndDrop<T(!new)>(less: (T, T) -> bool, ranked: seq<T>, w: set<T>, k: nat)
    requires StrictTotalOrder(less) && Ascending(less, ranked) && k <= |ranked|
    requires IsLowest(less, w, Elements(ranked), k)
    ensures w == Elements(ranked[..k])
  {
    var front := ranked[..k];
    DistinctCount(ranked);
    DistinctCount(front);
    assert forall j :: 0 <= j < k ==> ranked[j] == front[j] && ranked[j] in front;
    forall x, y | x in front && y in ranked && y !in front
      ensures less(x, y)
    {
      var i :| 0 <= i < |front| && front[i] == x;
      var j :| 0 <= j < |ranked| && ranked[j] == y;
    }
    assert IsLowest(less, Elements(front), Elements(ranked), k);
    LowestIsUnique(less, w, Elements(front), Elements(ranked), k);
  }
}
