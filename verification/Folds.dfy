/** Left folds over sequences. */
module Folds {
  function Fold<A, B>(f: (A, B) -> A, start: A, s: seq<B>): A
    decreases |s|
  {
    if s == [] then start else Fold(f, f(start, s[0]), s[1..])
  }

  lemma {:induction false} FoldInTwo<A, B>(f: (A, B) -> A, start: A, a: seq<B>, b: seq<B>)
    ensures Fold(f, start, a + b) == Fold(f, Fold(f, start, a), b)
    decreases |a|
  {
    if a == [] {
      assert a + b == b;
    } else {
      FoldInTwo(f, f(start, a[0]), a[1..], b);
      assert (a + b)[1..] == a[1..] + b;
    }
  }

  lemma FoldOne<A, B>(f: (A, B) -> A, start: A, x: B)
    ensures Fold(f, start, [x]) == f(start, x)
  {
    assert [x][1..] == [];
  }
}
