/** Threading a state through a sequence, and two such runs side by side. */
module Folding {

  datatype Folded<Y, S> = Folded(out: seq<Y>, last: S)

  function Fold<X, Y, S>(step: (X, S) -> (Y, S), xs: seq<X>, s: S): (r: Folded<Y, S>)
    ensures |r.out| == |xs|
    decreases |xs|
  {
    if xs == [] then Folded([], s)
    else
      var init := Fold(step, xs[..|xs| - 1], s);
      var last := step(xs[|xs| - 1], init.last);
      Folded(init.out + [last.0], last.1)
  }

  /** `rel` holds at every position, of the elements and the states they meet. */
  predicate Pairwise<X, Y, S>(step: (X, S) -> (Y, S), rel: (X, X, S, S) -> bool, xs: seq<X>, ys: seq<X>, s: S, t: S)
    decreases |xs|
  {
    |xs| == |ys| &&
    (xs != [] ==>
       var k := |xs| - 1;
       Pairwise(step, rel, xs[..k], ys[..k], s, t) &&
       rel(xs[k], ys[k], Fold(step, xs[..k], s).last, Fold(step, ys[..k], t).last))
  }

  /** If related elements give equal output and keep the states in touch, so do related sequences. */
  lemma {:induction false} FoldAlike<X(!new), Y, S(!new)>(
      step: (X, S) -> (Y, S), touch: (S, S) -> bool, rel: (X, X, S, S) -> bool, xs: seq<X>, ys: seq<X>, s: S, t: S)
    requires forall x, y, p, q :: touch(p, q) && rel(x, y, p, q) ==>
               step(x, p).0 == step(y, q).0 && touch(step(x, p).1, step(y, q).1)
    requires touch(s, t) && Pairwise(step, rel, xs, ys, s, t)
    ensures Fold(step, xs, s).out == Fold(step, ys, t).out && touch(Fold(step, xs, s).last, Fold(step, ys, t).last)
    decreases |xs|
  {
    if xs != [] {
      var k := |xs| - 1;
      FoldAlike(step, touch, rel, xs[..k], ys[..k], s, t);
    }
  }

  /** If equal output tells that the elements are related, as long as both states are fine, so do
      equal outputs of whole sequences. */
  lemma {:induction false} FoldTells<X(!new), Y, S(!new)>(
      step: (X, S) -> (Y, S), touch: (S, S) -> bool, fine: S -> bool, rel: (X, X, S, S) -> bool,
      xs: seq<X>, ys: seq<X>, s: S, t: S)
    requires forall x, p :: fine(step(x, p).1) ==> fine(p)
    requires forall x, y, p, q :: touch(p, q) && step(x, p).0 == step(y, q).0 && fine(step(x, p).1) && fine(step(y, q).1)
               ==> rel(x, y, p, q) && touch(step(x, p).1, step(y, q).1)
    requires touch(s, t) && Fold(step, xs, s).out == Fold(step, ys, t).out
    requires fine(Fold(step, xs, s).last) && fine(Fold(step, ys, t).last)
    ensures Pairwise(step, rel, xs, ys, s, t) && touch(Fold(step, xs, s).last, Fold(step, ys, t).last)
    decreases |xs|
  {
    assert |xs| == |Fold(step, xs, s).out| == |ys|;
    if xs != [] {
      var k := |xs| - 1;
      var a, b := Fold(step, xs[..k], s), Fold(step, ys[..k], t);
      LastOut(a.out, step(xs[k], a.last).0, b.out, step(ys[k], b.last).0);
      FoldTells(step, touch, fine, rel, xs[..k], ys[..k], s, t);
    }
  }

  lemma LastOut<Y>(a: seq<Y>, x: Y, b: seq<Y>, y: Y)
    requires a + [x] == b + [y]
    ensures a == b && x == y
  {
    assert |a + [x]| == |a| + 1 && |b + [y]| == |b| + 1;
    assert (a + [x])[..|a|] == a && (b + [y])[..|b|] == b;
    assert (a + [x])[|a|] == x && (b + [y])[|b|] == y;
  }
}
