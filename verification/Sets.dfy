/** Counting facts about finite sets. */
module Sets {
  /** An image under a function that keeps the members apart is as large as the set. */
  lemma {:induction false} ImageSize<A(!new), B(!new)>(s: set<A>, f: A -> B, image: set<B>)
    requires forall x, y :: x in s && y in s && f(x) == f(y) ==> x == y
    requires forall x :: x in s ==> f(x) in image
    requires forall y :: y in image ==> exists x :: x in s && f(x) == y
    ensures |image| == |s|
    decreases |s|
  {
    if s != {} {
      var a :| a in s;
      var rest, left := s - {a}, image - {f(a)};
      forall y | y in left ensures exists x :: x in rest && f(x) == y {
        var x :| x in s && f(x) == y;
        assert x in rest;
      }
      ImageSize(rest, f, left);
      assert image == left + {f(a)};
    }
  }

  lemma SubsetSize<A>(a: set<A>, b: set<A>)
    ensures a <= b ==> |a| <= |b|
    ensures a < b ==> |a| < |b|
  {
    if a <= b {
      assert b == a + (b - a);
    }
  }

  function Below(n: nat): (r: set<nat>)
    ensures |r| == n
    ensures forall i: nat :: i in r <==> i < n
  {
    if n == 0 then {} else Below(n - 1) + {n - 1}
  }
}
