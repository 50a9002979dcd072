/** Fair EG by the Emerson-Lei loop (crates/checker/src/ctl.rs, `eg_fair`). */
module FairCtl {
  import opened Graph
  import opened Fixpoint
  import opened Scc
  import opened Ctl

  /** `w` meets the fairness set `c` again and again. */
  ghost predicate Recurs<K(!new)>(w: nat -> K, c: set<K>) {
    forall i: nat {:trigger MeetsFrom(w, c, i)} :: MeetsFrom(w, c, i)
  }

  ghost predicate MeetsFrom<K(!new)>(w: nat -> K, c: set<K>, i: nat) {
    exists j: nat :: i <= j && w(j) in c
  }

  ghost predicate FairWalk<K(!new)>(succ: K -> seq<K>, f: set<K>, fair: seq<set<K>>, w: nat -> K) {
    Walk(succ, f, w) && forall k | 0 <= k < |fair| :: Recurs(w, fair[k])
  }

  /** Some infinite walk from `s` stays in `f` and meets every fairness set infinitely often. */
  ghost predicate FairAlways<K(!new)>(succ: K -> seq<K>, f: set<K>, fair: seq<set<K>>, s: K) {
    exists w: nat -> K :: FairWalk(succ, f, fair, w) && w(0) == s
  }

  /** Every state of `q` can reach every fairness set without leaving `q`. */
  ghost predicate Stable<K(!new)>(succ: K -> seq<K>, fair: seq<set<K>>, q: set<K>) {
    forall s, k {:trigger ExistsUntil(succ, q, q * fair[k], s)} | s in q && 0 <= k < |fair| ::
      ExistsUntil(succ, q, q * fair[k], s)
  }

  ghost predicate InStable<K(!new)>(succ: K -> seq<K>, f: set<K>, fair: seq<set<K>>, s: K) {
    exists z: set<K> :: z <= f && Stable(succ, fair, z) && s in z
  }

  /** The union of all stable subsets of `f`. */
  ghost function Core<K(!new)>(succ: K -> seq<K>, f: set<K>, fair: seq<set<K>>): set<K> {
    set s | s in f && InStable(succ, f, fair, s)
  }

  lemma {:induction false} UntilMonotone<K(!new)>(succ: K -> seq<K>, z: set<K>, c: set<K>, z': set<K>, c': set<K>, s: K)
    requires z <= z' && c <= c' && ExistsUntil(succ, z, c, s)
    ensures ExistsUntil(succ, z', c', s)
  {
    var p: seq<K> :| UntilPath(succ, z, c, p) && p[0] == s;
    assert UntilPath(succ, z', c', p);
  }

  /** The core is itself stable, hence the greatest stable subset of `f`. */
  lemma {:induction false} CoreIsGreatestStable<K(!new)>(succ: K -> seq<K>, f: set<K>, fair: seq<set<K>>)
    ensures Core(succ, f, fair) <= f && Stable(succ, fair, Core(succ, f, fair))
    ensures forall z: set<K> | z <= f && Stable(succ, fair, z) :: z <= Core(succ, f, fair)
  {
    var q := Core(succ, f, fair);
    forall z: set<K> | z <= f && Stable(succ, fair, z)
      ensures z <= q
    {
      assert forall s | s in z :: InStable(succ, f, fair, s);
    }
    forall s, k | s in q && 0 <= k < |fair|
      ensures ExistsUntil(succ, q, q * fair[k], s)
    {
      assert InStable(succ, f, fair, s);
      var z: set<K> :| z <= f && Stable(succ, fair, z) && s in z;
      assert ExistsUntil(succ, z, z * fair[k], s);
      UntilMonotone(succ, z, z * fair[k], q, q * fair[k], s);
    }
  }

  /** The states with an infinite walk inside the core. */
  ghost function EgFairSet<K(!new)>(succ: K -> seq<K>, f: set<K>, fair: seq<set<K>>): set<K> {
    set s | s in f && ExistsAlways(succ, Core(succ, f, fair), s)
  }

  /** One pass of the loop: keep the states of `q` that reach every fairness set inside `q`. */
  method Pass<K(==,!new)>(q: set<K>, fair: seq<set<K>>, index: GraphIndex<K>, ghost universe: set<K>)
    returns (kept: set<K>)
    requires index.Valid(universe)
    ensures kept <= q
    ensures forall s, k {:trigger ExistsUntil(index.Successors(), q, q * fair[k], s)} | s in kept && 0 <= k < |fair| ::
              ExistsUntil(index.Successors(), q, q * fair[k], s)
    ensures forall z: set<K> | z <= q && Stable(index.Successors(), fair, z) :: z <= kept
  {
    kept := q;
    for i := 0 to |fair|
      invariant kept <= q
      invariant forall s, k {:trigger ExistsUntil(index.Successors(), q, q * fair[k], s)} | s in kept && 0 <= k < i ::
                  ExistsUntil(index.Successors(), q, q * fair[k], s)
      invariant forall z: set<K> | z <= q && Stable(index.Successors(), fair, z) :: z <= kept
    {
      var reaching := BackwardWithin(q * fair[i], index, q, universe);
      forall z: set<K> | z <= q && Stable(index.Successors(), fair, z)
        ensures z <= reaching
      {
        forall s | s in z
          ensures s in reaching
        {
          assert ExistsUntil(index.Successors(), z, z * fair[i], s);
          UntilMonotone(index.Successors(), z, z * fair[i], q, q * fair[i], s);
        }
      }
      kept := kept * reaching;
    }
  }

  method EgFair<K(==,!new)>(satF: set<K>, fair: seq<set<K>>, index: GraphIndex<K>, ghost universe: set<K>)
    returns (result: set<K>)
    requires index.Valid(universe)
    ensures result == EgFairSet(index.Successors(), satF, fair)
  {
    ghost var succ := index.Successors();
    CoreIsGreatestStable(succ, satF, fair);
    if satF == {} || fair == [] {
      assert Stable(succ, fair, satF);
      assert Core(succ, satF, fair) == satF;
      result := EgLabel(satF, index, universe);
      return;
    }
    var q := satF;
    var going := true;
    while going
      invariant Core(succ, satF, fair) <= q <= satF
      invariant !going ==> Stable(succ, fair, q)
      decreases going, q
    {
      var kept := Pass(q, fair, index, universe);
      going := kept != q;
      q := kept;
    }
    result := EgLabel(q, index, universe);
  }

  // ---------------------------------------------------------------------------
  // A fair walk lives in the core
  // ---------------------------------------------------------------------------

  ghost function Trail<K(!new)>(w: nat -> K, f: set<K>): set<K> {
    set s | s in f && exists i: nat :: w(i) == s
  }

  lemma {:induction false} SegmentUntil<K(!new)>(succ: K -> seq<K>, z: set<K>, c: set<K>, w: nat -> K, i: nat, j: nat)
    requires IsWalk(succ, w) && (forall n: nat :: w(n) in z) && i <= j && w(j) in c
    ensures ExistsUntil(succ, z, c, w(i))
    decreases j - i
  {
    if i == j {
      UntilHere(succ, z, c, w(i));
    } else {
      SegmentUntil(succ, z, c, w, i + 1, j);
      assert WalkStep(succ, w, i);
      UntilStep(succ, z, c, w(i), w(i + 1));
    }
  }

  lemma {:induction false} TrailIsStable<K(!new)>(succ: K -> seq<K>, f: set<K>, fair: seq<set<K>>, w: nat -> K)
    requires FairWalk(succ, f, fair, w)
    ensures Trail(w, f) <= f && Stable(succ, fair, Trail(w, f)) && Walk(succ, Trail(w, f), w)
  {
    var z := Trail(w, f);
    forall s, k | s in z && 0 <= k < |fair|
      ensures ExistsUntil(succ, z, z * fair[k], s)
    {
      var i: nat :| w(i) == s;
      assert MeetsFrom(w, fair[k], i);
      var j: nat :| i <= j && w(j) in fair[k];
      SegmentUntil(succ, z, z * fair[k], w, i, j);
    }
  }

  /** No state with a fair walk is lost. */
  lemma {:induction false} FairWalksAreKept<K(!new)>(succ: K -> seq<K>, f: set<K>, fair: seq<set<K>>, s: K)
    requires FairAlways(succ, f, fair, s)
    ensures ExistsAlways(succ, Core(succ, f, fair), s)
  {
    var w: nat -> K :| FairWalk(succ, f, fair, w) && w(0) == s;
    TrailIsStable(succ, f, fair, w);
    CoreIsGreatestStable(succ, f, fair);
    AlwaysMonotone(succ, Trail(w, f), Core(succ, f, fair), s);
  }

  // ---------------------------------------------------------------------------
  // A stable set without dead ends carries fair walks
  // ---------------------------------------------------------------------------

  lemma {:induction false} LeastSteps<K(!new)>(succ: K -> seq<K>, z: set<K>, c: set<K>, n: nat, s: K) returns (m: nat)
    requires UntilIn(succ, z, c, n, s)
    ensures UntilIn(succ, z, c, m, s) && forall j: nat | j < m :: !UntilIn(succ, z, c, j, s)
    decreases n
  {
    if j: nat :| j < n && UntilIn(succ, z, c, j, s) {
      m := LeastSteps(succ, z, c, j, s);
    } else {
      m := n;
    }
  }

  ghost predicate IsDistance<K(!new)>(succ: K -> seq<K>, z: set<K>, c: set<K>, s: K, m: nat) {
    UntilIn(succ, z, c, m, s) && forall j: nat | j < m :: !UntilIn(succ, z, c, j, s)
  }

  /** Distance to `c` inside `z`. */
  ghost function Distance<K(!new)>(succ: K -> seq<K>, z: set<K>, c: set<K>, s: K): (m: nat)
    requires ExistsUntil(succ, z, c, s)
    ensures IsDistance(succ, z, c, s, m)
  {
    assert exists m: nat :: IsDistance(succ, z, c, s, m) by {
      var n := UntilToSteps(succ, z, c, s);
      var m := LeastSteps(succ, z, c, n, s);
      assert IsDistance(succ, z, c, s, m);
    }
    var m: nat :| IsDistance(succ, z, c, s, m);
    m
  }

  /** A state together with the fairness set being headed for. */
  datatype Heading<K> = Heading(state: K, goal: nat)

  ghost predicate Good<K(!new)>(succ: K -> seq<K>, fair: seq<set<K>>, z: set<K>, h: Heading<K>) {
    h.state in z && h.goal < |fair| && ExistsUntil(succ, z, z * fair[h.goal], h.state)
  }

  ghost function Remaining<K(!new)>(succ: K -> seq<K>, fair: seq<set<K>>, z: set<K>, h: Heading<K>): nat
    requires Good(succ, fair, z, h)
  {
    Distance(succ, z, z * fair[h.goal], h.state)
  }

  ghost function After(goal: nat, count: nat): nat {
    if goal + 1 == count then 0 else goal + 1
  }

  /** `h'` is a next heading on a fair itinerary: any successor once the goal is met, a closer one before. */
  ghost predicate Advances<K(!new)>(succ: K -> seq<K>, fair: seq<set<K>>, z: set<K>, h: Heading<K>, h': Heading<K>)
    requires Good(succ, fair, z, h)
  {
    && Good(succ, fair, z, h') && h'.state in succ(h.state)
    && if h.state in fair[h.goal] then h'.goal == After(h.goal, |fair|)
       else h'.goal == h.goal && Remaining(succ, fair, z, h') < Remaining(succ, fair, z, h)
  }

  lemma {:induction false} CanAdvance<K(!new)>(succ: K -> seq<K>, fair: seq<set<K>>, z: set<K>, h: Heading<K>) returns (h': Heading<K>)
    requires Stable(succ, fair, z) && Progressive(succ, z) && Good(succ, fair, z, h)
    ensures Advances(succ, fair, z, h, h')
  {
    var c := z * fair[h.goal];
    if h.state in fair[h.goal] {
      var t := Next(succ, z, h.state);
      var goal := After(h.goal, |fair|);
      assert ExistsUntil(succ, z, z * fair[goal], t);
      h' := Heading(t, goal);
    } else {
      var n := Remaining(succ, fair, z, h);
      assert UntilIn(succ, z, c, n, h.state);
      var t :| t in succ(h.state) && UntilIn(succ, z, c, n - 1, t);
      StepsToUntil(succ, z, c, n - 1, t);
      h' := Heading(t, h.goal);
      assert Remaining(succ, fair, z, h') <= n - 1;
    }
  }

  ghost function Advance<K(!new)>(succ: K -> seq<K>, fair: seq<set<K>>, z: set<K>, h: Heading<K>): (h': Heading<K>)
    requires Stable(succ, fair, z) && Progressive(succ, z) && Good(succ, fair, z, h)
    ensures Advances(succ, fair, z, h, h')
  {
    assert exists h' :: Advances(succ, fair, z, h, h') by {
      var h' := CanAdvance(succ, fair, z, h);
    }
    var h' :| Advances(succ, fair, z, h, h');
    h'
  }

  ghost function Itinerary<K(!new)>(succ: K -> seq<K>, fair: seq<set<K>>, z: set<K>, h: Heading<K>, n: nat): (r: Heading<K>)
    requires Stable(succ, fair, z) && Progressive(succ, z) && Good(succ, fair, z, h)
    ensures Good(succ, fair, z, r)
  {
    if n == 0 then h else Advance(succ, fair, z, Itinerary(succ, fair, z, h, n - 1))
  }

  /** From step `i` on, the current goal is met. */
  lemma {:induction false} GoalIsMet<K(!new)>(succ: K -> seq<K>, fair: seq<set<K>>, z: set<K>, h: Heading<K>, i: nat) returns (j: nat)
    requires Stable(succ, fair, z) && Progressive(succ, z) && Good(succ, fair, z, h)
    ensures i <= j && Itinerary(succ, fair, z, h, j).goal == Itinerary(succ, fair, z, h, i).goal
    ensures Itinerary(succ, fair, z, h, j).state in fair[Itinerary(succ, fair, z, h, i).goal]
    decreases Remaining(succ, fair, z, Itinerary(succ, fair, z, h, i))
  {
    var now := Itinerary(succ, fair, z, h, i);
    if now.state in fair[now.goal] {
      j := i;
    } else {
      assert Advances(succ, fair, z, now, Itinerary(succ, fair, z, h, i + 1));
      j := GoalIsMet(succ, fair, z, h, i + 1);
    }
  }

  /** From step `i` on, goal `k` comes up: at most `d` goals lie between. */
  lemma {:induction false} GoalComesUp<K(!new)>(succ: K -> seq<K>, fair: seq<set<K>>, z: set<K>, h: Heading<K>, i: nat, k: nat, d: nat)
    returns (j: nat)
    requires Stable(succ, fair, z) && Progressive(succ, z) && Good(succ, fair, z, h) && k < |fair|
    requires var g := Itinerary(succ, fair, z, h, i).goal; g + d == k || g + d == k + |fair|
    ensures i <= j && Itinerary(succ, fair, z, h, j).goal == k
    decreases d
  {
    var g := Itinerary(succ, fair, z, h, i).goal;
    if g == k {
      j := i;
    } else {
      var m := GoalIsMet(succ, fair, z, h, i);
      assert Advances(succ, fair, z, Itinerary(succ, fair, z, h, m), Itinerary(succ, fair, z, h, m + 1));
      assert Itinerary(succ, fair, z, h, m + 1).goal == After(g, |fair|);
      j := GoalComesUp(succ, fair, z, h, m + 1, k, d - 1);
    }
  }

  lemma {:induction false} StableWalksFairly<K(!new)>(succ: K -> seq<K>, fair: seq<set<K>>, z: set<K>, s: K)
    requires Stable(succ, fair, z) && Progressive(succ, z) && s in z
    ensures FairAlways(succ, z, fair, s)
  {
    if fair == [] {
      ProgressiveWalks(succ, z, s);
      var w: nat -> K :| Walk(succ, z, w) && w(0) == s;
      assert FairWalk(succ, z, fair, w);
    } else {
      assert ExistsUntil(succ, z, z * fair[0], s);
      var h := Heading(s, 0);
      var w := (n: nat) => Itinerary(succ, fair, z, h, n).state;
      forall i: nat
        ensures WalkStep(succ, w, i)
      {
        assert Advances(succ, fair, z, Itinerary(succ, fair, z, h, i), Itinerary(succ, fair, z, h, i + 1));
      }
      forall k, i: nat | 0 <= k < |fair|
        ensures MeetsFrom(w, fair[k], i)
      {
        var g := Itinerary(succ, fair, z, h, i).goal;
        var j := GoalComesUp(succ, fair, z, h, i, k, if g <= k then k - g else k + |fair| - g);
        var m := GoalIsMet(succ, fair, z, h, j);
        assert w(m) in fair[k];
      }
      assert FairWalk(succ, z, fair, w);
    }
  }

  // ---------------------------------------------------------------------------
  // When the answer is exactly fair EG
  // ---------------------------------------------------------------------------

  lemma {:induction false} FairSuffix<K(!new)>(succ: K -> seq<K>, f: set<K>, fair: seq<set<K>>, w: nat -> K, i: nat)
    requires FairWalk(succ, f, fair, w)
    ensures FairAlways(succ, f, fair, w(i))
  {
    var v := (n: nat) => w(i + n);
    forall n: nat
      ensures WalkStep(succ, v, n)
    {
      assert WalkStep(succ, w, i + n);
    }
    forall k, n: nat | 0 <= k < |fair|
      ensures MeetsFrom(v, fair[k], n)
    {
      assert MeetsFrom(w, fair[k], i + n);
      var j: nat :| i + n <= j && w(j) in fair[k];
      assert v(j - i) in fair[k];
    }
    assert FairWalk(succ, f, fair, v) && v(0) == w(i);
  }

  lemma {:induction false} EgFairSetProgresses<K(!new)>(succ: K -> seq<K>, f: set<K>, fair: seq<set<K>>)
    ensures Progressive(succ, EgFairSet(succ, f, fair))
  {
    var r := EgFairSet(succ, f, fair);
    forall s | s in r
      ensures HasNext(succ, r, s)
    {
      var t := AlwaysUnfold(succ, Core(succ, f, fair), s);
      var u := AlwaysUnfold(succ, Core(succ, f, fair), t);
    }
  }

  /** The answer is exactly fair EG if and only if one more pass over it would drop nothing:
      every state of the answer reaches every fairness set inside the answer.  `FairExact` turns this into
      a condition on the graph. */
  lemma {:induction false} EgFairIsExactIff<K(!new)>(succ: K -> seq<K>, f: set<K>, fair: seq<set<K>>)
    ensures (forall s :: s in EgFairSet(succ, f, fair) <==> FairAlways(succ, f, fair, s)) <==>
            Stable(succ, fair, EgFairSet(succ, f, fair))
  {
    var r := EgFairSet(succ, f, fair);
    EgFairSetProgresses(succ, f, fair);
    forall s | FairAlways(succ, f, fair, s)
      ensures s in r
    {
      FairWalksAreKept(succ, f, fair, s);
    }
    if Stable(succ, fair, r) {
      forall s | s in r
        ensures FairAlways(succ, f, fair, s)
      {
        StableWalksFairly(succ, fair, r, s);
        var w: nat -> K :| FairWalk(succ, r, fair, w) && w(0) == s;
        assert FairWalk(succ, f, fair, w);
      }
    }
    if forall s :: s in r <==> FairAlways(succ, f, fair, s) {
      forall s, k | s in r && 0 <= k < |fair|
        ensures ExistsUntil(succ, r, r * fair[k], s)
      {
        var w: nat -> K :| FairWalk(succ, f, fair, w) && w(0) == s;
        forall i: nat
          ensures w(i) in r
        {
          FairSuffix(succ, f, fair, w, i);
        }
        assert MeetsFrom(w, fair[k], 0);
        var j: nat :| 0 <= j && w(j) in fair[k];
        SegmentUntil(succ, r, r * fair[k], w, 0, j);
      }
    }
  }

  /** Without dead ends in the core the answer is the core, and exactly fair EG. */
  lemma {:induction false} EgFairWithoutDeadEnds<K(!new)>(succ: K -> seq<K>, f: set<K>, fair: seq<set<K>>)
    requires Progressive(succ, Core(succ, f, fair))
    ensures EgFairSet(succ, f, fair) == Core(succ, f, fair)
    ensures forall s :: s in EgFairSet(succ, f, fair) <==> FairAlways(succ, f, fair, s)
  {
    CoreIsGreatestStable(succ, f, fair);
    forall s | s in Core(succ, f, fair) {
      ProgressiveWalks(succ, Core(succ, f, fair), s);
    }
    assert EgFairSet(succ, f, fair) == Core(succ, f, fair);
    EgFairIsExactIff(succ, f, fair);
  }

  /** 0 loops on itself and may leave for the dead end 1, the only fair state. */
  function DeadEndGraph(): nat -> seq<nat> {
    (s: nat) => if s == 0 then [0, 1] else []
  }

  /** The answer can hold a state without any fair walk. */
  lemma {:induction false} EgFairOverApproximates()
    ensures 0 in EgFairSet(DeadEndGraph(), {0, 1}, [{1}])
    ensures !FairAlways(DeadEndGraph(), {0, 1}, [{1}], 0)
  {
    var succ, f, fair := DeadEndGraph(), {0, 1}, [{1}];
    UntilHere(succ, f, f * {1}, 1);
    UntilStep(succ, f, f * {1}, 0, 1);
    assert Stable(succ, fair, f);
    CoreIsGreatestStable(succ, f, fair);
    var w := (i: nat) => 0;
    forall i: nat
      ensures WalkStep(succ, w, i)
    {
    }
    assert Walk(succ, Core(succ, f, fair), w) && w(0) == 0;
    if v: nat -> nat :| FairWalk(succ, f, fair, v) && v(0) == 0 {
      assert MeetsFrom(v, fair[0], 0);
      var j: nat :| 0 <= j && v(j) in fair[0];
      DeadEndStops(v, j);
    }
  }

  lemma {:induction false} DeadEndStops(v: nat -> nat, j: nat)
    requires IsWalk(DeadEndGraph(), v)
    ensures v(j) == 0
  {
    assert WalkStep(DeadEndGraph(), v, j);
  }
}
