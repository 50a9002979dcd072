/** Mapping every element to a list and joining the lists. */
module Mapping {

  function FlatMap<T, U>(f: T -> seq<U>, xs: seq<T>): seq<U> {
    if xs == [] then [] else FlatMap(f, xs[..|xs| - 1]) + f(xs[|xs| - 1])
  }

  ghost predicate Yields<T, U>(f: T -> seq<U>, xs: seq<T>, y: U) {
    exists x :: x in xs && y in f(x)
  }

  lemma {:induction false} FlatMapHas<T(!new), U(!new)>(f: T -> seq<U>, xs: seq<T>, y: U)
    ensures y in FlatMap(f, xs) <==> Yields(f, xs, y)
  {
    if xs != [] {
      var n := |xs| - 1;
      FlatMapHas(f, xs[..n], y);
      assert xs == xs[..n] + [xs[n]];
    }
  }

  lemma {:induction false} FlatMapSnoc<T, U>(f: T -> seq<U>, xs: seq<T>, i: nat)
    requires i < |xs|
    ensures FlatMap(f, xs[..i + 1]) == FlatMap(f, xs[..i]) + f(xs[i])
  {
    assert xs[..i + 1][..i] == xs[..i];
  }

  lemma {:induction false} FlatMapOne<T, U>(f: T -> seq<U>, x: T)
    ensures FlatMap(f, [x]) == f(x)
  {
    assert [x][..0] == [];
    assert FlatMap(f, [x][..0]) == [];
  }

  /** Mapping every element to itself alone changes nothing. */
  lemma {:induction false} FlatMapSame<T>(f: T -> seq<T>, xs: seq<T>)
    requires forall x | x in xs :: f(x) == [x]
    ensures FlatMap(f, xs) == xs
  {
    if xs != [] {
      FlatMapSame(f, xs[..|xs| - 1]);
    }
  }

  /** Lists of one length join to a multiple of it. */
  lemma {:induction false} FlatMapLength<T, U>(f: T -> seq<U>, xs: seq<T>, k: nat)
    requires forall x | x in xs :: |f(x)| == k
    ensures |FlatMap(f, xs)| == |xs| * k
  {
    if xs != [] {
      var n := |xs| - 1;
      FlatMapLength(f, xs[..n], k);
      assert xs[n] in xs;
      OneMoreTime(n, k);
    }
  }

  lemma {:induction false} OneMoreTime(n: nat, k: nat)
    ensures n * k + k == (n + 1) * k
  {
  }
}
