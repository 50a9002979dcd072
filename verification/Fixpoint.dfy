/** Path quantifiers over a finite graph, their fixpoint laws and their
    combinatorics.  Independent of any algorithm. */
module Fixpoint {
  import opened Graph

  /** `p` stays in `within` until its last state, which is in `target`. */
  ghost predicate UntilPath<K(!new)>(succ: K -> seq<K>, within: set<K>, target: set<K>, p: seq<K>) {
    && IsPath(succ, p)
    && p[|p| - 1] in target
    && forall i | 0 <= i < |p| - 1 :: p[i] in within
  }

  /** E[within U target] at `s`. */
  ghost predicate ExistsUntil<K(!new)>(succ: K -> seq<K>, within: set<K>, target: set<K>, s: K) {
    exists p: seq<K> :: UntilPath(succ, within, target, p) && p[0] == s
  }

  /** An infinite walk from `s` stays in `inside` forever: EG at `s`. */
  ghost predicate ExistsAlways<K(!new)>(succ: K -> seq<K>, inside: set<K>, s: K) {
    exists w: nat -> K :: Walk(succ, inside, w) && w(0) == s
  }

  /** A[within U target] at `s`: every infinite walk meets `target` after staying in `within`,
      and every finite walk that has not met `target` has stayed in `within`. */
  ghost predicate AllUntil<K(!new)>(succ: K -> seq<K>, within: set<K>, target: set<K>, s: K) {
    && (forall w: nat -> K | IsWalk(succ, w) && w(0) == s ::
          exists i: nat :: w(i) in target && forall j: nat | j < i :: w(j) in within)
    && (forall p: seq<K> | IsPath(succ, p) && p[0] == s && (forall i | 0 <= i < |p| :: p[i] !in target) ::
          p[|p| - 1] in within)
  }

  /** Every infinite walk from `s` meets `target`: AF at `s`. */
  ghost predicate AllEventually<K(!new)>(succ: K -> seq<K>, target: set<K>, s: K) {
    forall w: nat -> K | IsWalk(succ, w) && w(0) == s :: exists i: nat :: w(i) in target
  }

  // ---------------------------------------------------------------------------
  // Until, by number of steps
  // ---------------------------------------------------------------------------

  /** `target` is reached through `within` in at most `n` steps. */
  ghost predicate UntilIn<K(!new)>(succ: K -> seq<K>, within: set<K>, target: set<K>, n: nat, s: K) {
    s in target || (n > 0 && s in within && exists t :: t in succ(s) && UntilIn(succ, within, target, n - 1, t))
  }

  lemma {:induction false} PathToSteps<K(!new)>(succ: K -> seq<K>, within: set<K>, target: set<K>, p: seq<K>)
    requires UntilPath(succ, within, target, p)
    ensures UntilIn(succ, within, target, |p| - 1, p[0])
    decreases |p|
  {
    if |p| > 1 {
      assert Step(succ, p, 0);
      TailPath(succ, p, p[0], p[|p| - 1]);
      PathToSteps(succ, within, target, p[1..]);
    }
  }

  lemma {:induction false} ConsPath<K(!new)>(succ: K -> seq<K>, s: K, p: seq<K>)
    requires IsPath(succ, p) && p[0] in succ(s)
    ensures IsPath(succ, [s] + p)
  {
    var q := [s] + p;
    forall i | 0 <= i < |q| - 1
      ensures Step(succ, q, i)
    {
      if i > 0 {
        assert Step(succ, p, i - 1);
      }
    }
  }

  lemma {:induction false} StepsToPath<K(!new)>(succ: K -> seq<K>, within: set<K>, target: set<K>, n: nat, s: K)
    returns (p: seq<K>)
    requires UntilIn(succ, within, target, n, s)
    ensures UntilPath(succ, within, target, p) && p[0] == s
  {
    if s in target {
      p := [s];
    } else {
      var t :| t in succ(s) && UntilIn(succ, within, target, n - 1, t);
      p := StepsToPath(succ, within, target, n - 1, t);
      ConsPath(succ, s, p);
      p := [s] + p;
    }
  }

  lemma {:induction false} UntilToSteps<K(!new)>(succ: K -> seq<K>, within: set<K>, target: set<K>, s: K) returns (n: nat)
    requires ExistsUntil(succ, within, target, s)
    ensures UntilIn(succ, within, target, n, s)
  {
    var p: seq<K> :| UntilPath(succ, within, target, p) && p[0] == s;
    PathToSteps(succ, within, target, p);
    n := |p| - 1;
  }

  lemma {:induction false} StepsToUntil<K(!new)>(succ: K -> seq<K>, within: set<K>, target: set<K>, n: nat, s: K)
    requires UntilIn(succ, within, target, n, s)
    ensures ExistsUntil(succ, within, target, s)
  {
    var p := StepsToPath(succ, within, target, n, s);
    assert UntilPath(succ, within, target, p) && p[0] == s;
  }

  lemma {:induction false} UntilHere<K(!new)>(succ: K -> seq<K>, within: set<K>, target: set<K>, s: K)
    requires s in target
    ensures ExistsUntil(succ, within, target, s)
  {
    StepsToUntil(succ, within, target, 0, s);
  }

  lemma {:induction false} UntilStep<K(!new)>(succ: K -> seq<K>, within: set<K>, target: set<K>, s: K, t: K)
    requires s in within && t in succ(s) && ExistsUntil(succ, within, target, t)
    ensures ExistsUntil(succ, within, target, s)
  {
    var n := UntilToSteps(succ, within, target, t);
    StepsToUntil(succ, within, target, n + 1, s);
  }

  lemma {:induction false} UntilUnfold<K(!new)>(succ: K -> seq<K>, within: set<K>, target: set<K>, s: K) returns (t: K)
    requires ExistsUntil(succ, within, target, s) && s !in target
    ensures s in within && t in succ(s) && ExistsUntil(succ, within, target, t)
  {
    var n := UntilToSteps(succ, within, target, s);
    t :| t in succ(s) && UntilIn(succ, within, target, n - 1, t);
    StepsToUntil(succ, within, target, n - 1, t);
  }

  /** E[within U target] is included in every set closed under its unfolding. */
  lemma {:induction false} UntilLeast<K(!new)>(succ: K -> seq<K>, within: set<K>, target: set<K>, z: set<K>, s: K)
    requires target <= z
    requires forall x, y | x in within && y in succ(x) && y in z :: x in z
    requires ExistsUntil(succ, within, target, s)
    ensures s in z
  {
    var n := UntilToSteps(succ, within, target, s);
    UntilInLeast(succ, within, target, z, n, s);
  }

  lemma {:induction false} UntilInLeast<K(!new)>(succ: K -> seq<K>, within: set<K>, target: set<K>, z: set<K>, n: nat, s: K)
    requires target <= z
    requires forall x, y | x in within && y in succ(x) && y in z :: x in z
    requires UntilIn(succ, within, target, n, s)
    ensures s in z
  {
    if s !in target {
      var t :| t in succ(s) && UntilIn(succ, within, target, n - 1, t);
      UntilInLeast(succ, within, target, z, n - 1, t);
    }
  }

  // ---------------------------------------------------------------------------
  // Infinite walks
  // ---------------------------------------------------------------------------

  ghost predicate HasNext<K(!new)>(succ: K -> seq<K>, z: set<K>, s: K) {
    exists t :: t in succ(s) && t in z
  }

  /** Every state of `z` has a successor in `z`. */
  ghost predicate Progressive<K(!new)>(succ: K -> seq<K>, z: set<K>) {
    forall s {:trigger HasNext(succ, z, s)} | s in z :: HasNext(succ, z, s)
  }

  ghost function Next<K(!new)>(succ: K -> seq<K>, z: set<K>, s: K): (t: K)
    requires Progressive(succ, z) && s in z
    ensures t in succ(s) && t in z
  {
    assert HasNext(succ, z, s);
    var t :| t in succ(s) && t in z;
    t
  }

  ghost function Forever<K(!new)>(succ: K -> seq<K>, z: set<K>, s: K, n: nat): (t: K)
    requires Progressive(succ, z) && s in z
    ensures t in z
  {
    if n == 0 then s else Next(succ, z, Forever(succ, z, s, n - 1))
  }

  lemma {:induction false} ProgressiveWalks<K(!new)>(succ: K -> seq<K>, z: set<K>, s: K)
    requires Progressive(succ, z) && s in z
    ensures ExistsAlways(succ, z, s)
  {
    var w := (n: nat) => Forever(succ, z, s, n);
    forall i: nat
      ensures WalkStep(succ, w, i)
    {
      assert w(i + 1) == Next(succ, z, w(i));
    }
    assert Walk(succ, z, w) && w(0) == s;
  }

  lemma {:induction false} AlwaysMonotone<K(!new)>(succ: K -> seq<K>, z: set<K>, z': set<K>, s: K)
    requires z <= z' && ExistsAlways(succ, z, s)
    ensures ExistsAlways(succ, z', s)
  {
    var w: nat -> K :| Walk(succ, z, w) && w(0) == s;
    assert Walk(succ, z', w);
  }

  lemma {:induction false} AlwaysUnfold<K(!new)>(succ: K -> seq<K>, inside: set<K>, s: K) returns (t: K)
    requires ExistsAlways(succ, inside, s)
    ensures s in inside && t in succ(s) && ExistsAlways(succ, inside, t)
  {
    var w: nat -> K :| Walk(succ, inside, w) && w(0) == s;
    assert WalkStep(succ, w, 0);
    t := w(1);
    var v := (i: nat) => w(i + 1);
    forall i: nat
      ensures WalkStep(succ, v, i)
    {
      assert WalkStep(succ, w, i + 1);
    }
    assert Walk(succ, inside, v) && v(0) == t;
  }

  /** EG is the greatest fixpoint of Z = F and EX Z: a fixpoint, and above every post-fixpoint. */
  lemma {:induction false} AlwaysIsGreatestFixpoint<K(!new)>(succ: K -> seq<K>, inside: set<K>, z: set<K>)
    requires z == set s | s in inside && ExistsAlways(succ, inside, s)
    ensures forall s :: s in z <==> s in inside && HasNext(succ, z, s)
    ensures forall y: set<K> | y <= inside && Progressive(succ, y) :: y <= z
  {
    forall s
      ensures s in z <==> s in inside && HasNext(succ, z, s)
    {
      if s in z {
        var t := AlwaysUnfold(succ, inside, s);
        var u := AlwaysUnfold(succ, inside, t);
        assert t in z;
      }
      if s in inside && HasNext(succ, z, s) {
        var t :| t in succ(s) && t in z;
        AlwaysStep(succ, inside, s, t);
      }
    }
    forall y: set<K> | y <= inside && Progressive(succ, y)
      ensures y <= z
    {
      forall s | s in y
        ensures s in z
      {
        ProgressiveWalks(succ, y, s);
        AlwaysMonotone(succ, y, inside, s);
      }
    }
  }

  lemma {:induction false} AlwaysStep<K(!new)>(succ: K -> seq<K>, inside: set<K>, s: K, t: K)
    requires s in inside && t in succ(s) && ExistsAlways(succ, inside, t)
    ensures ExistsAlways(succ, inside, s)
  {
    var w: nat -> K :| Walk(succ, inside, w) && w(0) == t;
    var v := (i: nat) => if i == 0 then s else w(i - 1);
    forall i: nat
      ensures WalkStep(succ, v, i)
    {
      if i > 0 {
        assert WalkStep(succ, w, i - 1);
      }
    }
    assert Walk(succ, inside, v) && v(0) == s;
  }

  ghost function Visited<K(!new)>(w: nat -> K, n: nat): set<K> {
    if n == 0 then {} else Visited(w, n - 1) + {w(n - 1)}
  }

  lemma {:induction false} VisitedHas<K(!new)>(w: nat -> K, n: nat, x: K)
    ensures x in Visited(w, n) <==> exists i: nat :: i < n && w(i) == x
  {
    if n > 0 {
      VisitedHas(w, n - 1, x);
    }
  }

  ghost predicate Distinct<K(!new)>(w: nat -> K, n: nat) {
    forall i: nat, j: nat | i < j < n :: w(i) != w(j)
  }

  lemma {:induction false} VisitedCard<K(!new)>(w: nat -> K, n: nat, f: set<K>)
    requires forall i: nat :: w(i) in f
    requires Distinct(w, n)
    ensures Visited(w, n) <= f && |Visited(w, n)| == n
  {
    if n > 0 {
      VisitedCard(w, n - 1, f);
      VisitedHas(w, n - 1, w(n - 1));
    }
  }

  lemma {:induction false} SubsetCard<K>(a: set<K>, b: set<K>)
    requires a <= b
    ensures |a| <= |b|
  {
    if a != {} {
      var x :| x in a;
      SubsetCard(a - {x}, b - {x});
    }
  }

  /** An infinite walk in a finite set repeats a state. */
  lemma {:induction false} Pigeonhole<K(!new)>(w: nat -> K, f: set<K>) returns (i: nat, j: nat)
    requires forall k: nat :: w(k) in f
    ensures i < j && w(i) == w(j)
  {
    var n := |f| + 1;
    if Distinct(w, n) {
      VisitedCard(w, n, f);
      SubsetCard(Visited(w, n), f);
      assert false;
    }
    i, j :| i < j < n && w(i) == w(j);
  }

  lemma {:induction false} WalkReach<K(!new)>(succ: K -> seq<K>, w: nat -> K, i: nat, j: nat)
    requires IsWalk(succ, w) && i <= j
    ensures Reach(succ, w(i), w(j))
    decreases j - i
  {
    ReachRefl(succ, w(i));
    if i < j {
      assert WalkStep(succ, w, i);
      ReachEdge(succ, w(i), w(i + 1));
      WalkReach(succ, w, i + 1, j);
      ReachTrans(succ, w(i), w(i + 1), w(j));
    }
  }

  // ---------------------------------------------------------------------------
  // Dualities
  // ---------------------------------------------------------------------------

  lemma {:induction false} WalkStays<K(!new)>(succ: K -> seq<K>, universe: set<K>, w: nat -> K, i: nat)
    requires Closed(succ, universe) && IsWalk(succ, w) && w(0) in universe
    ensures w(i) in universe
  {
    if i > 0 {
      WalkStays(succ, universe, w, i - 1);
      assert WalkStep(succ, w, i - 1);
    }
  }

  /** AF f = not EG not f. */
  lemma {:induction false} EventuallyDual<K(!new)>(succ: K -> seq<K>, universe: set<K>, target: set<K>, s: K)
    requires Closed(succ, universe) && s in universe
    ensures AllEventually(succ, target, s) <==> !ExistsAlways(succ, universe - target, s)
  {
    if ExistsAlways(succ, universe - target, s) {
      var w: nat -> K :| Walk(succ, universe - target, w) && w(0) == s;
      assert forall i: nat :: w(i) in universe - target;
    }
    if !AllEventually(succ, target, s) {
      var w: nat -> K :| IsWalk(succ, w) && w(0) == s && forall i: nat :: w(i) !in target;
      forall i: nat
        ensures w(i) in universe - target
      {
        WalkStays(succ, universe, w, i);
      }
      assert Walk(succ, universe - target, w);
    }
  }

  /** The first `i + 1` states of a walk, as a path. */
  ghost function Prefix<K(!new)>(w: nat -> K, i: nat): (p: seq<K>)
    ensures |p| == i + 1
  {
    seq(i + 1, (k: nat) => w(k))
  }

  lemma {:induction false} PrefixIsPath<K(!new)>(succ: K -> seq<K>, w: nat -> K, i: nat)
    requires IsWalk(succ, w)
    ensures IsPath(succ, Prefix(w, i))
    ensures forall k: nat | k <= i :: Prefix(w, i)[k] == w(k)
  {
    forall k: nat | k < i
      ensures Step(succ, Prefix(w, i), k)
    {
      assert WalkStep(succ, w, k);
    }
  }

  lemma {:induction false} PathStays<K(!new)>(succ: K -> seq<K>, universe: set<K>, p: seq<K>, i: nat)
    requires Closed(succ, universe) && IsPath(succ, p) && p[0] in universe && i < |p|
    ensures p[i] in universe
  {
    if i > 0 {
      PathStays(succ, universe, p, i - 1);
      assert Step(succ, p, i - 1);
    }
  }

  lemma {:induction false} FirstIn<K(!new)>(w: nat -> K, target: set<K>, n: nat) returns (i: nat)
    requires w(n) in target
    ensures i <= n && w(i) in target && forall j: nat | j < i :: w(j) !in target
    decreases n
  {
    if m: nat :| m < n && w(m) in target {
      i := FirstIn(w, target, m);
    } else {
      i := n;
    }
  }

  /** The negation of A[p U q]: E[not q U (not p and not q)] or EG not q. */
  ghost predicate SomeRelease<K(!new)>(succ: K -> seq<K>, universe: set<K>, p: set<K>, q: set<K>, s: K) {
    || ExistsUntil(succ, universe - q, (universe - p) * (universe - q), s)
    || ExistsAlways(succ, universe - q, s)
  }

  lemma {:induction false} ReleaseRefutesUntil<K(!new)>(succ: K -> seq<K>, universe: set<K>, p: set<K>, q: set<K>, s: K)
    requires SomeRelease(succ, universe, p, q, s)
    ensures !AllUntil(succ, p, q, s)
  {
    if r: seq<K> :| UntilPath(succ, universe - q, (universe - p) * (universe - q), r) && r[0] == s {
      assert forall i | 0 <= i < |r| :: r[i] !in q;
      assert r[|r| - 1] !in p;
    } else {
      var w: nat -> K :| Walk(succ, universe - q, w) && w(0) == s;
      assert forall i: nat :: w(i) in universe - q;
    }
  }

  lemma {:induction false} BadPathReleases<K(!new)>(succ: K -> seq<K>, universe: set<K>, p: set<K>, q: set<K>, r: seq<K>)
    requires Closed(succ, universe) && IsPath(succ, r) && r[0] in universe
    requires (forall i | 0 <= i < |r| :: r[i] !in q) && r[|r| - 1] !in p
    ensures ExistsUntil(succ, universe - q, (universe - p) * (universe - q), r[0])
  {
    forall i | 0 <= i < |r|
      ensures r[i] in universe
    {
      PathStays(succ, universe, r, i);
    }
    assert UntilPath(succ, universe - q, (universe - p) * (universe - q), r);
  }

  lemma {:induction false} NeverMeets<K(!new)>(succ: K -> seq<K>, universe: set<K>, q: set<K>, w: nat -> K)
    requires Closed(succ, universe) && IsWalk(succ, w) && w(0) in universe
    requires forall i: nat :: w(i) !in q
    ensures ExistsAlways(succ, universe - q, w(0))
  {
    forall i: nat
      ensures w(i) in universe - q
    {
      WalkStays(succ, universe, w, i);
    }
    assert Walk(succ, universe - q, w);
  }

  lemma {:induction false} NoReleaseMeets<K(!new)>(succ: K -> seq<K>, universe: set<K>, p: set<K>, q: set<K>, w: nat -> K)
    requires Closed(succ, universe) && IsWalk(succ, w) && w(0) in universe
    requires !SomeRelease(succ, universe, p, q, w(0))
    ensures exists i: nat :: w(i) in q && forall j: nat | j < i :: w(j) in p
  {
    if forall i: nat :: w(i) !in q {
      NeverMeets(succ, universe, q, w);
      assert false;
    }
    var n: nat :| w(n) in q;
    var i := FirstIn(w, q, n);
    forall j: nat | j < i
      ensures w(j) in p
    {
      if w(j) !in p {
        PrefixIsPath(succ, w, j);
        BadPathReleases(succ, universe, p, q, Prefix(w, j));
      }
    }
  }

  /** A[p U q] = not (E[not q U (not p and not q)] or EG not q). */
  lemma {:induction false} UntilDual<K(!new)>(succ: K -> seq<K>, universe: set<K>, p: set<K>, q: set<K>, s: K)
    requires Closed(succ, universe) && s in universe
    ensures AllUntil(succ, p, q, s) <==> !SomeRelease(succ, universe, p, q, s)
  {
    if SomeRelease(succ, universe, p, q, s) {
      ReleaseRefutesUntil(succ, universe, p, q, s);
    } else {
      forall w: nat -> K | IsWalk(succ, w) && w(0) == s
        ensures exists i: nat :: w(i) in q && forall j: nat | j < i :: w(j) in p
      {
        NoReleaseMeets(succ, universe, p, q, w);
      }
      forall r: seq<K> | IsPath(succ, r) && r[0] == s && (forall i | 0 <= i < |r| :: r[i] !in q)
        ensures r[|r| - 1] in p
      {
        if r[|r| - 1] !in p {
          BadPathReleases(succ, universe, p, q, r);
        }
      }
    }
  }

  /** One unfolding of A[p U q] at `s`, with AX vacuous at a dead end. */
  ghost predicate AllUntilBody<K(!new)>(succ: K -> seq<K>, p: set<K>, q: set<K>, z: set<K>, s: K) {
    s in q || (s in p && forall t | t in succ(s) :: t in z)
  }

  lemma {:induction false} ReleaseUnfold<K(!new)>(succ: K -> seq<K>, universe: set<K>, p: set<K>, q: set<K>, s: K)
    requires Closed(succ, universe) && s in universe
    ensures SomeRelease(succ, universe, p, q, s) <==>
            s !in q && (s !in p || exists t :: t in succ(s) && SomeRelease(succ, universe, p, q, t))
  {
    var notQ, bad := universe - q, (universe - p) * (universe - q);
    if SomeRelease(succ, universe, p, q, s) {
      if ExistsUntil(succ, notQ, bad, s) {
        if s !in bad {
          var t := UntilUnfold(succ, notQ, bad, s);
        }
      } else {
        var t := AlwaysUnfold(succ, notQ, s);
      }
    }
    if s !in q {
      if s !in p {
        UntilHere(succ, notQ, bad, s);
      } else if t :| t in succ(s) && SomeRelease(succ, universe, p, q, t) {
        if ExistsUntil(succ, notQ, bad, t) {
          UntilStep(succ, notQ, bad, s, t);
        } else {
          AlwaysStep(succ, notQ, s, t);
        }
      }
    }
  }

  /** A[p U q] is the least fixpoint of Z = q or (p and AX Z). */
  lemma {:induction false} AllUntilIsLeastFixpoint<K(!new)>(succ: K -> seq<K>, universe: set<K>, p: set<K>, q: set<K>, z: set<K>)
    requires Closed(succ, universe) && z == set s | s in universe && AllUntil(succ, p, q, s)
    ensures forall s {:trigger AllUntilBody(succ, p, q, z, s)} | s in universe :: s in z <==> AllUntilBody(succ, p, q, z, s)
    ensures forall y: set<K> | (forall s | s in universe && AllUntilBody(succ, p, q, y, s) :: s in y) :: z <= y
  {
    forall s | s in universe
      ensures s in z <==> AllUntilBody(succ, p, q, z, s)
    {
      UntilDual(succ, universe, p, q, s);
      ReleaseUnfold(succ, universe, p, q, s);
      forall t | t in succ(s)
        ensures t in z <==> !SomeRelease(succ, universe, p, q, t)
      {
        UntilDual(succ, universe, p, q, t);
      }
    }
    forall y: set<K> | (forall s | s in universe && AllUntilBody(succ, p, q, y, s) :: s in y)
      ensures z <= y
    {
      AllUntilBelow(succ, universe, p, q, z, y);
    }
  }

  lemma {:induction false} AllUntilBelow<K(!new)>(succ: K -> seq<K>, universe: set<K>, p: set<K>, q: set<K>, z: set<K>, y: set<K>)
    requires Closed(succ, universe) && z == set s | s in universe && AllUntil(succ, p, q, s)
    requires forall s {:trigger AllUntilBody(succ, p, q, z, s)} | s in z :: AllUntilBody(succ, p, q, z, s)
    requires forall s {:trigger AllUntilBody(succ, p, q, y, s)} | s in universe && AllUntilBody(succ, p, q, y, s) :: s in y
    ensures z <= y
  {
    var rest := z - y;
    forall s | s in rest
      ensures HasNext(succ, rest, s)
    {
      assert AllUntilBody(succ, p, q, z, s) && !AllUntilBody(succ, p, q, y, s);
      var t :| t in succ(s) && t !in y;
      assert t in rest;
    }
    forall x | x in rest
      ensures x in universe - q
    {
      assert !AllUntilBody(succ, p, q, y, x);
    }
    forall s | s in z
      ensures s in y
    {
      if s in rest {
        ProgressiveWalks(succ, rest, s);
        AlwaysMonotone(succ, rest, universe - q, s);
        ReleaseRefutesUntil(succ, universe, p, q, s);
      }
    }
  }

  /** AF q is A[true U q]. */
  lemma {:induction false} EventuallyIsUntil<K(!new)>(succ: K -> seq<K>, universe: set<K>, q: set<K>, s: K)
    requires Closed(succ, universe) && s in universe
    ensures AllEventually(succ, q, s) <==> AllUntil(succ, universe, q, s)
  {
    EventuallyDual(succ, universe, q, s);
    UntilDual(succ, universe, universe, q, s);
  }

  /** EF q is E[true U q]. */
  lemma {:induction false} ReachIsUntil<K(!new)>(succ: K -> seq<K>, universe: set<K>, q: set<K>, s: K)
    requires Closed(succ, universe) && s in universe
    ensures ExistsUntil(succ, universe, q, s) <==> exists t :: t in q && Reach(succ, s, t)
  {
    if ExistsUntil(succ, universe, q, s) {
      var r: seq<K> :| UntilPath(succ, universe, q, r) && r[0] == s;
      assert PathFromTo(succ, r, s, r[|r| - 1]);
    }
    if t :| t in q && Reach(succ, s, t) {
      var r: seq<K> :| PathFromTo(succ, r, s, t);
      forall i | 0 <= i < |r|
        ensures r[i] in universe
      {
        PathStays(succ, universe, r, i);
      }
      assert UntilPath(succ, universe, q, r);
    }
  }

  /** E[p U q] is the least fixpoint of Z = q or (p and EX Z). */
  lemma {:induction false} ExistsUntilIsLeastFixpoint<K(!new)>(succ: K -> seq<K>, universe: set<K>, p: set<K>, q: set<K>, z: set<K>)
    requires Closed(succ, universe) && q <= universe
    requires z == set s | s in universe && ExistsUntil(succ, p, q, s)
    ensures forall s | s in universe :: s in z <==> s in q || (s in p && HasNext(succ, z, s))
    ensures forall y: set<K> | q <= y && (forall a, b | a in p && b in succ(a) && b in y :: a in y) :: z <= y
  {
    forall s | s in universe
      ensures s in z <==> s in q || (s in p && HasNext(succ, z, s))
    {
      if s in z && s !in q {
        var t := UntilUnfold(succ, p, q, s);
        assert t in z;
      }
      if s in q {
        UntilHere(succ, p, q, s);
      } else if s in p && HasNext(succ, z, s) {
        var t :| t in succ(s) && t in z;
        UntilStep(succ, p, q, s, t);
      }
    }
    forall y: set<K> | q <= y && (forall a, b | a in p && b in succ(a) && b in y :: a in y)
      ensures z <= y
    {
      forall s | s in z
        ensures s in y
      {
        UntilLeast(succ, p, q, y, s);
      }
    }
  }
}
