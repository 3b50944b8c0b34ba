/** Left folds over an arbitrary state type. */
module Folding {
  import opened Words

  function Fold<S, B>(step: (S, B) -> S, start: S, items: seq<B>): S
    decreases |items|
  {
    if items == [] then start else Fold(step, step(start, items[0]), items[1..])
  }

  lemma {:induction false} FoldConcat<S, B>(step: (S, B) -> S, start: S, a: seq<B>, b: seq<B>)
    ensures Fold(step, start, a + b) == Fold(step, Fold(step, start, a), b)
    decreases |a|
  {
    if a == [] {
      assert a + b == b;
    } else {
      assert (a + b)[1..] == a[1..] + b;
      FoldConcat(step, step(start, a[0]), a[1..], b);
    }
  }

  ghost predicate Additive<S(!new)>(step: (S, bool) -> S, plus: (S, S) -> S) {
    forall r, s, a, b :: plus(step(r, a), step(s, b)) == step(plus(r, s), a != b)
  }

  /** Folding an additive step over two inputs and adding is folding over their sum. */
  lemma {:induction false} FoldAdditive<S(!new)>(
      step: (S, bool) -> S, plus: (S, S) -> S, r: S, s: S, u: seq<bool>, v: seq<bool>)
    requires |u| == |v| && Additive(step, plus)
    ensures plus(Fold(step, r, u), Fold(step, s, v)) == Fold(step, plus(r, s), Xor(u, v))
    decreases |u|
  {
    if u != [] {
      var e := Xor(u, v);
      assert e[1..] == Xor(u[1..], v[1..]);
      assert plus(step(r, u[0]), step(s, v[0])) == step(plus(r, s), e[0]);
      FoldAdditive(step, plus, step(r, u[0]), step(s, v[0]), u[1..], v[1..]);
    }
  }
}
