/** Paths, reachability and infinite walks in a directed graph given by its
    successor function.  The vocabulary in which every graph algorithm of the
    checker is specified. */
module Graph {

  ghost predicate Step<N(!new)>(succ: N -> seq<N>, p: seq<N>, i: nat)
    requires i + 1 < |p|
  {
    p[i + 1] in succ(p[i])
  }

  /** A finite walk along edges. */
  ghost predicate IsPath<N(!new)>(succ: N -> seq<N>, p: seq<N>) {
    && |p| > 0
    && forall i {:trigger Step(succ, p, i)} | 0 <= i < |p| - 1 :: Step(succ, p, i)
  }

  ghost predicate PathFromTo<N(!new)>(succ: N -> seq<N>, p: seq<N>, x: N, y: N) {
    IsPath(succ, p) && p[0] == x && p[|p| - 1] == y
  }

  ghost predicate Reach<N(!new)>(succ: N -> seq<N>, x: N, y: N) {
    exists p: seq<N> :: PathFromTo(succ, p, x, y)
  }

  ghost predicate Closed<N(!new)>(succ: N -> seq<N>, s: set<N>) {
    forall x, y | x in s && y in succ(x) :: y in s
  }

  lemma {:induction false} ReachRefl<N(!new)>(succ: N -> seq<N>, x: N)
    ensures Reach(succ, x, x)
  {
    assert PathFromTo(succ, [x], x, x);
  }

  lemma {:induction false} ReachEdge<N(!new)>(succ: N -> seq<N>, x: N, y: N)
    requires y in succ(x)
    ensures Reach(succ, x, y)
  {
    assert PathFromTo(succ, [x, y], x, y);
  }

  lemma {:induction false} PathConcat<N(!new)>(succ: N -> seq<N>, p: seq<N>, q: seq<N>, x: N, y: N, z: N)
    requires PathFromTo(succ, p, x, y) && PathFromTo(succ, q, y, z)
    ensures PathFromTo(succ, p + q[1..], x, z)
  {
    var r := p + q[1..];
    forall i | 0 <= i < |r| - 1
      ensures Step(succ, r, i)
    {
      if i >= |p| - 1 {
        assert Step(succ, q, i - |p| + 1);
      } else {
        assert Step(succ, p, i);
      }
    }
  }

  lemma {:induction false} ReachTrans<N(!new)>(succ: N -> seq<N>, x: N, y: N, z: N)
    requires Reach(succ, x, y) && Reach(succ, y, z)
    ensures Reach(succ, x, z)
  {
    var p :| PathFromTo(succ, p, x, y);
    var q :| PathFromTo(succ, q, y, z);
    PathConcat(succ, p, q, x, y, z);
  }

  lemma {:induction false} TailPath<N(!new)>(succ: N -> seq<N>, p: seq<N>, x: N, y: N)
    requires PathFromTo(succ, p, x, y) && |p| > 1
    ensures PathFromTo(succ, p[1..], p[1], y)
  {
    forall i | 0 <= i < |p| - 2
      ensures Step(succ, p[1..], i)
    {
      assert Step(succ, p, i + 1);
    }
  }

  /** A path leaving a set crosses its border along some edge. */
  lemma {:induction false} Crossing<N(!new)>(succ: N -> seq<N>, p: seq<N>, x: N, y: N, s: set<N>)
    returns (u: N, z: N)
    requires PathFromTo(succ, p, x, y) && x in s && y !in s
    ensures u in s && z !in s && z in succ(u)
    ensures Reach(succ, x, u) && Reach(succ, z, y)
    decreases |p|
  {
    assert Step(succ, p, 0);
    TailPath(succ, p, x, y);
    if p[1] in s {
      u, z := Crossing(succ, p[1..], p[1], y, s);
      ReachEdge(succ, x, p[1]);
      ReachTrans(succ, x, p[1], u);
    } else {
      u, z := x, p[1];
      ReachRefl(succ, x);
    }
  }

  lemma {:induction false} ClosedReach<N(!new)>(succ: N -> seq<N>, s: set<N>, x: N, y: N)
    requires Closed(succ, s) && x in s && Reach(succ, x, y)
    ensures y in s
  {
    var p :| PathFromTo(succ, p, x, y);
    if y !in s {
      var u, z := Crossing(succ, p, x, y, s);
    }
  }

  ghost predicate WalkStep<N(!new)>(succ: N -> seq<N>, w: nat -> N, i: nat) {
    w(i + 1) in succ(w(i))
  }

  /** An infinite walk along edges. */
  ghost predicate IsWalk<N(!new)>(succ: N -> seq<N>, w: nat -> N) {
    forall i: nat {:trigger WalkStep(succ, w, i)} :: WalkStep(succ, w, i)
  }

  /** An infinite walk that stays in a set. */
  ghost predicate Walk<N(!new)>(succ: N -> seq<N>, inside: set<N>, w: nat -> N) {
    IsWalk(succ, w) && forall i: nat :: w(i) in inside
  }
}
