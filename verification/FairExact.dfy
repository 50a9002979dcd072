/** When fair EG is exact: a condition on the graph, the states allowed and the fairness sets alone
    (crates/checker/src/ctl.rs, the comment on `eg_fair`). */
module FairExact {
  import opened Graph
  import opened Fixpoint
  import opened FairCtl

  // ---------------------------------------------------------------------------
  // Fair cycles
  // ---------------------------------------------------------------------------

  /** `y` is reached from `x` without leaving `f`. */
  ghost predicate Leads<K(!new)>(succ: K -> seq<K>, f: set<K>, x: K, y: K) {
    y in f && ExistsUntil(succ, f, {y}, x)
  }

  /** `c` lies on a cycle inside `f`. */
  ghost predicate OnCycle<K(!new)>(succ: K -> seq<K>, f: set<K>, c: K) {
    c in f && exists t :: t in succ(c) && Leads(succ, f, t, c)
  }

  /** The states that `c` reaches and that reach `c`, inside `f`. */
  ghost function Component<K(!new)>(succ: K -> seq<K>, f: set<K>, c: K): set<K> {
    set x | x in f && Leads(succ, f, x, c) && Leads(succ, f, c, x)
  }

  /** `c` lies on a cycle inside `f`, and its component inside `f` meets every fairness set. */
  ghost predicate FairCycle<K(!new)>(succ: K -> seq<K>, f: set<K>, fair: seq<set<K>>, c: K) {
    OnCycle(succ, f, c) && forall k | 0 <= k < |fair| :: Component(succ, f, c) * fair[k] != {}
  }

  ghost function FairCycles<K(!new)>(succ: K -> seq<K>, f: set<K>, fair: seq<set<K>>): set<K> {
    set c | c in f && FairCycle(succ, f, fair, c)
  }

  /** The states of `f` that lie in every fairness set. */
  ghost function AllFair<K(!new)>(f: set<K>, fair: seq<set<K>>): set<K> {
    set c | c in f && forall k | 0 <= k < |fair| :: c in fair[k]
  }

  // ---------------------------------------------------------------------------
  // Reaching inside a set
  // ---------------------------------------------------------------------------

  lemma {:induction false} LeadsHere<K(!new)>(succ: K -> seq<K>, f: set<K>, x: K)
    requires x in f
    ensures Leads(succ, f, x, x)
  {
    UntilHere(succ, f, {x}, x);
  }

  lemma {:induction false} LeadsStep<K(!new)>(succ: K -> seq<K>, f: set<K>, x: K, t: K)
    requires x in f && t in succ(x) && t in f
    ensures Leads(succ, f, x, t)
  {
    UntilHere(succ, f, {t}, t);
    UntilStep(succ, f, {t}, x, t);
  }

  /** Reaching a state that reaches the target. */
  lemma {:induction false} UntilTrans<K(!new)>(succ: K -> seq<K>, f: set<K>, target: set<K>, x: K, y: K)
    requires ExistsUntil(succ, f, {y}, x) && ExistsUntil(succ, f, target, y)
    ensures ExistsUntil(succ, f, target, x)
  {
    var n := UntilToSteps(succ, f, {y}, x);
    UntilTransIn(succ, f, target, n, x, y);
  }

  lemma {:induction false} UntilTransIn<K(!new)>(succ: K -> seq<K>, f: set<K>, target: set<K>, n: nat, x: K, y: K)
    requires UntilIn(succ, f, {y}, n, x) && ExistsUntil(succ, f, target, y)
    ensures ExistsUntil(succ, f, target, x)
  {
    if x != y {
      var t :| t in succ(x) && UntilIn(succ, f, {y}, n - 1, t);
      UntilTransIn(succ, f, target, n - 1, t, y);
      UntilStep(succ, f, target, x, t);
    }
  }

  /** Some state of the target is where the path ends. */
  lemma {:induction false} UntilLeads<K(!new)>(succ: K -> seq<K>, f: set<K>, target: set<K>, x: K) returns (y: K)
    requires target <= f && ExistsUntil(succ, f, target, x)
    ensures y in target && Leads(succ, f, x, y)
  {
    var p: seq<K> :| UntilPath(succ, f, target, p) && p[0] == x;
    y := p[|p| - 1];
    assert UntilPath(succ, f, {y}, p);
  }

  lemma {:induction false} LeadsUntil<K(!new)>(succ: K -> seq<K>, f: set<K>, target: set<K>, x: K, y: K)
    requires Leads(succ, f, x, y) && y in target
    ensures ExistsUntil(succ, f, target, x)
  {
    UntilMonotone(succ, f, {y}, f, target, x);
  }

  /** A path to `target` stays inside any set that holds `target` and is closed backwards in `f`. */
  lemma {:induction false} UntilInside<K(!new)>(succ: K -> seq<K>, f: set<K>, z: set<K>, target: set<K>, x: K)
    requires target <= z && ExistsUntil(succ, f, target, x)
    requires forall u, t | u in f && t in succ(u) && t in z :: u in z
    ensures ExistsUntil(succ, z, target, x)
  {
    var n := UntilToSteps(succ, f, target, x);
    UntilInsideIn(succ, f, z, target, n, x);
  }

  lemma {:induction false} UntilInsideIn<K(!new)>(succ: K -> seq<K>, f: set<K>, z: set<K>, target: set<K>, n: nat, x: K)
    requires target <= z && UntilIn(succ, f, target, n, x)
    requires forall u, t | u in f && t in succ(u) && t in z :: u in z
    ensures x in z && ExistsUntil(succ, z, target, x)
  {
    if x in target {
      UntilHere(succ, z, target, x);
    } else {
      var t :| t in succ(x) && UntilIn(succ, f, target, n - 1, t);
      UntilInsideIn(succ, f, z, target, n - 1, t);
      UntilStep(succ, z, target, x, t);
    }
  }

  // ---------------------------------------------------------------------------
  // A component on a cycle carries walks, a fair one carries fair walks
  // ---------------------------------------------------------------------------

  /** A path between two states of a component stays inside it. */
  lemma {:induction false} ComponentPath<K(!new)>(succ: K -> seq<K>, f: set<K>, c: K, y: K, n: nat, x: K)
    requires x in Component(succ, f, c) && y in Component(succ, f, c) && UntilIn(succ, f, {y}, n, x)
    ensures ExistsUntil(succ, Component(succ, f, c), {y}, x)
  {
    var z := Component(succ, f, c);
    if x == y {
      UntilHere(succ, z, {y}, x);
    } else {
      var t :| t in succ(x) && UntilIn(succ, f, {y}, n - 1, t);
      StepsToUntil(succ, f, {y}, n - 1, t);
      ComponentNext(succ, f, c, x, t, y);
      ComponentPath(succ, f, c, y, n - 1, t);
      UntilStep(succ, z, {y}, x, t);
    }
  }

  lemma {:induction false} ComponentNext<K(!new)>(succ: K -> seq<K>, f: set<K>, c: K, x: K, t: K, y: K)
    requires x in Component(succ, f, c) && y in Component(succ, f, c) && t in succ(x) && ExistsUntil(succ, f, {y}, t)
    ensures t in Component(succ, f, c)
  {
    UntilTrans(succ, f, {c}, t, y);
    if t != c {
      var u := UntilUnfold(succ, f, {c}, t);
    }
    LeadsStep(succ, f, x, t);
    UntilTrans(succ, f, {t}, c, x);
  }

  lemma {:induction false} CycleProgresses<K(!new)>(succ: K -> seq<K>, f: set<K>, c: K)
    requires OnCycle(succ, f, c)
    ensures c in Component(succ, f, c) && Progressive(succ, Component(succ, f, c))
  {
    var z := Component(succ, f, c);
    LeadsHere(succ, f, c);
    forall x | x in z
      ensures HasNext(succ, z, x)
    {
      var t;
      if x == c {
        t :| t in succ(c) && Leads(succ, f, t, c);
      } else {
        t := UntilUnfold(succ, f, {c}, x);
      }
      ComponentNext(succ, f, c, x, t, c);
    }
  }

  /** Some walk from a state on a cycle never leaves the component. */
  lemma {:induction false} CycleWalks<K(!new)>(succ: K -> seq<K>, f: set<K>, c: K, z: set<K>)
    requires OnCycle(succ, f, c) && Component(succ, f, c) <= z
    ensures ExistsAlways(succ, z, c)
  {
    CycleProgresses(succ, f, c);
    ProgressiveWalks(succ, Component(succ, f, c), c);
    AlwaysMonotone(succ, Component(succ, f, c), z, c);
  }

  lemma {:induction false} FairComponentIsStable<K(!new)>(succ: K -> seq<K>, f: set<K>, fair: seq<set<K>>, c: K)
    requires FairCycle(succ, f, fair, c)
    ensures Stable(succ, fair, Component(succ, f, c))
  {
    var z := Component(succ, f, c);
    forall x, k | x in z && 0 <= k < |fair|
      ensures ExistsUntil(succ, z, z * fair[k], x)
    {
      assert Component(succ, f, c) * fair[k] != {};
      var y :| y in z * fair[k];
      UntilTrans(succ, f, {y}, x, c);
      var n := UntilToSteps(succ, f, {y}, x);
      ComponentPath(succ, f, c, y, n, x);
      UntilMonotone(succ, z, {y}, z, z * fair[k], x);
    }
  }

  lemma {:induction false} FairCycleWalks<K(!new)>(succ: K -> seq<K>, f: set<K>, fair: seq<set<K>>, c: K)
    requires FairCycle(succ, f, fair, c)
    ensures FairAlways(succ, f, fair, c)
  {
    var z := Component(succ, f, c);
    CycleProgresses(succ, f, c);
    FairComponentIsStable(succ, f, fair, c);
    StableWalksFairly(succ, fair, z, c);
    var w: nat -> K :| FairWalk(succ, z, fair, w) && w(0) == c;
    assert FairWalk(succ, f, fair, w);
  }

  // ---------------------------------------------------------------------------
  // Fair walks are the walks into fair cycles
  // ---------------------------------------------------------------------------

  /** A walk that ends up inside a finite set meets one of its states again and again. */
  lemma {:induction false} SomeRecurs<K(!new)>(w: nat -> K, a: set<K>, i: nat) returns (c: K)
    requires forall n: nat | i <= n :: w(n) in a
    ensures c in a && Recurs(w, {c})
    decreases a
  {
    c := w(i);
    if !Recurs(w, {c}) {
      var j: nat :| !MeetsFrom(w, {c}, j);
      var d := c;
      c := SomeRecurs(w, a - {d}, if i < j then j else i);
    }
  }

  lemma {:induction false} WalkLeads<K(!new)>(succ: K -> seq<K>, f: set<K>, w: nat -> K, i: nat, j: nat)
    requires Walk(succ, f, w) && i <= j
    ensures Leads(succ, f, w(i), w(j))
  {
    SegmentUntil(succ, f, {w(j)}, w, i, j);
  }

  /** Where a walk comes back to, it runs round a cycle. */
  lemma {:induction false} RecurringOnCycle<K(!new)>(succ: K -> seq<K>, f: set<K>, w: nat -> K, c: K) returns (i: nat)
    requires Walk(succ, f, w) && Recurs(w, {c})
    ensures w(i) == c && OnCycle(succ, f, c) && Leads(succ, f, w(0), c)
  {
    assert MeetsFrom(w, {c}, 0);
    i :| w(i) in {c};
    assert MeetsFrom(w, {c}, i + 1);
    var j: nat :| i + 1 <= j && w(j) in {c};
    WalkLeads(succ, f, w, 0, i);
    WalkLeads(succ, f, w, i + 1, j);
    assert WalkStep(succ, w, i);
  }

  lemma {:induction false} FairWalkRecurs<K(!new)>(succ: K -> seq<K>, f: set<K>, fair: seq<set<K>>, w: nat -> K) returns (c: K)
    requires FairWalk(succ, f, fair, w)
    ensures FairCycle(succ, f, fair, c) && Leads(succ, f, w(0), c)
  {
    c := SomeRecurs(w, f, 0);
    var i := RecurringOnCycle(succ, f, w, c);
    forall k | 0 <= k < |fair|
      ensures Component(succ, f, c) * fair[k] != {}
    {
      assert MeetsFrom(w, fair[k], i);
      var m: nat :| i <= m && w(m) in fair[k];
      assert MeetsFrom(w, {c}, m);
      var j: nat :| m <= j && w(j) in {c};
      WalkLeads(succ, f, w, i, m);
      WalkLeads(succ, f, w, m, j);
      assert w(m) in Component(succ, f, c) * fair[k];
    }
  }

  lemma {:induction false} FairBackwards<K(!new)>(succ: K -> seq<K>, f: set<K>, fair: seq<set<K>>, s: K, t: K)
    requires s in f && t in succ(s) && FairAlways(succ, f, fair, t)
    ensures FairAlways(succ, f, fair, s)
  {
    var w: nat -> K :| FairWalk(succ, f, fair, w) && w(0) == t;
    var v := (n: nat) => if n == 0 then s else w(n - 1);
    forall n: nat
      ensures WalkStep(succ, v, n)
    {
      if n > 0 {
        assert WalkStep(succ, w, n - 1);
      }
    }
    forall k, n: nat | 0 <= k < |fair|
      ensures MeetsFrom(v, fair[k], n)
    {
      assert MeetsFrom(w, fair[k], n);
      var j: nat :| n <= j && w(j) in fair[k];
      assert v(j + 1) in fair[k];
    }
    assert FairWalk(succ, f, fair, v) && v(0) == s;
  }

  /** Fair EG in graph terms: a fair infinite path starts exactly where a fair cycle is reached inside `f`. */
  lemma {:induction false} FairAlwaysIsReachingFairCycle<K(!new)>(succ: K -> seq<K>, f: set<K>, fair: seq<set<K>>, s: K)
    ensures FairAlways(succ, f, fair, s) <==> ExistsUntil(succ, f, FairCycles(succ, f, fair), s)
  {
    if FairAlways(succ, f, fair, s) {
      var w: nat -> K :| FairWalk(succ, f, fair, w) && w(0) == s;
      var c := FairWalkRecurs(succ, f, fair, w);
      LeadsUntil(succ, f, FairCycles(succ, f, fair), s, c);
    }
    if ExistsUntil(succ, f, FairCycles(succ, f, fair), s) {
      var n := UntilToSteps(succ, f, FairCycles(succ, f, fair), s);
      ReachingWalksFairly(succ, f, fair, n, s);
    }
  }

  lemma {:induction false} ReachingWalksFairly<K(!new)>(succ: K -> seq<K>, f: set<K>, fair: seq<set<K>>, n: nat, s: K)
    requires UntilIn(succ, f, FairCycles(succ, f, fair), n, s)
    ensures FairAlways(succ, f, fair, s)
  {
    if s in FairCycles(succ, f, fair) {
      FairCycleWalks(succ, f, fair, s);
    } else {
      var t :| t in succ(s) && UntilIn(succ, f, FairCycles(succ, f, fair), n - 1, t);
      ReachingWalksFairly(succ, f, fair, n - 1, t);
      FairBackwards(succ, f, fair, s, t);
    }
  }

  // ---------------------------------------------------------------------------
  // The core in graph terms
  // ---------------------------------------------------------------------------

  /** Where the loop's fixpoint can come to rest: on a fair cycle, or in all fairness sets at once. */
  ghost function Anchors<K(!new)>(succ: K -> seq<K>, f: set<K>, fair: seq<set<K>>): set<K> {
    FairCycles(succ, f, fair) + AllFair(f, fair)
  }

  ghost function Reaching<K(!new)>(succ: K -> seq<K>, f: set<K>, target: set<K>): set<K> {
    set s | s in f && ExistsUntil(succ, f, target, s)
  }

  lemma {:induction false} ReachingIsClosed<K(!new)>(succ: K -> seq<K>, f: set<K>, target: set<K>)
    requires target <= f
    ensures target <= Reaching(succ, f, target)
    ensures forall u, t | u in f && t in succ(u) && t in Reaching(succ, f, target) :: u in Reaching(succ, f, target)
  {
    forall s | s in target {
      UntilHere(succ, f, target, s);
    }
    forall u, t | u in f && t in succ(u) && t in Reaching(succ, f, target)
      ensures u in Reaching(succ, f, target)
    {
      UntilStep(succ, f, target, u, t);
    }
  }

  /** Everything that reaches an anchor is kept by the loop. */
  lemma {:induction false} AnchoredIsStable<K(!new)>(succ: K -> seq<K>, f: set<K>, fair: seq<set<K>>)
    ensures Stable(succ, fair, Reaching(succ, f, Anchors(succ, f, fair)))
  {
    var a := Anchors(succ, f, fair);
    var z := Reaching(succ, f, a);
    ReachingIsClosed(succ, f, a);
    forall s, k | s in z && 0 <= k < |fair|
      ensures ExistsUntil(succ, z, z * fair[k], s)
    {
      var c := UntilLeads(succ, f, a, s);
      var y := AnchorMeets(succ, f, fair, c, k);
      UntilTrans(succ, f, {y}, s, c);
      UntilInto(succ, f, z, fair[k], y, s);
    }
  }

  lemma {:induction false} UntilInto<K(!new)>(succ: K -> seq<K>, f: set<K>, z: set<K>, goal: set<K>, y: K, s: K)
    requires y in z && y in goal && ExistsUntil(succ, f, {y}, s)
    requires forall u, t | u in f && t in succ(u) && t in z :: u in z
    ensures ExistsUntil(succ, z, z * goal, s)
  {
    UntilInside(succ, f, z, {y}, s);
    UntilMonotone(succ, z, {y}, z, z * goal, s);
  }

  lemma {:induction false} AnchorMeets<K(!new)>(succ: K -> seq<K>, f: set<K>, fair: seq<set<K>>, c: K, k: nat) returns (y: K)
    requires c in Anchors(succ, f, fair) && k < |fair|
    ensures y in fair[k] && y in Reaching(succ, f, Anchors(succ, f, fair)) && Leads(succ, f, c, y)
  {
    var a := Anchors(succ, f, fair);
    if c in AllFair(f, fair) {
      y := c;
      LeadsHere(succ, f, c);
    } else {
      assert FairCycle(succ, f, fair, c);
      assert Component(succ, f, c) * fair[k] != {};
      y :| y in Component(succ, f, c) * fair[k];
    }
    UntilMonotone(succ, f, {c}, f, a, y);
  }

  ghost function From<K(!new)>(succ: K -> seq<K>, q: set<K>, s: K): set<K> {
    set x | x in q && Leads(succ, q, s, x)
  }

  /** From every state of a finite set some state is reached that everything it reaches can reach back. */
  lemma {:induction false} Bottom<K(!new)>(succ: K -> seq<K>, q: set<K>, s: K) returns (c: K)
    requires s in q
    ensures c in q && Leads(succ, q, s, c) && forall x | x in From(succ, q, c) :: Leads(succ, q, x, c)
    decreases From(succ, q, s)
  {
    LeadsHere(succ, q, s);
    if x :| x in From(succ, q, s) && !Leads(succ, q, x, s) {
      forall y | y in From(succ, q, x)
        ensures y in From(succ, q, s)
      {
        UntilTrans(succ, q, {y}, s, x);
      }
      assert s in From(succ, q, s) && s !in From(succ, q, x);
      c := Bottom(succ, q, x);
      UntilTrans(succ, q, {c}, s, x);
    } else {
      c := s;
    }
  }

  lemma {:induction false} BottomIsAnchor<K(!new)>(succ: K -> seq<K>, f: set<K>, fair: seq<set<K>>, q: set<K>, c: K)
    requires q <= f && Stable(succ, fair, q) && c in q && forall x | x in From(succ, q, c) :: Leads(succ, q, x, c)
    ensures c in Anchors(succ, f, fair)
  {
    if c !in AllFair(f, fair) {
      var k :| 0 <= k < |fair| && c !in fair[k];
      assert ExistsUntil(succ, q, q * fair[k], c);
      var t := UntilUnfold(succ, q, q * fair[k], c);
      var u := UntilLeads(succ, q, q * fair[k], t);
      LeadsWithin(succ, q, t, u);
      LeadsStep(succ, q, c, t);
      LeadsUp(succ, q, f, t, c);
      assert OnCycle(succ, f, c);
      forall j | 0 <= j < |fair|
        ensures Component(succ, f, c) * fair[j] != {}
      {
        assert ExistsUntil(succ, q, q * fair[j], c);
        var y := UntilLeads(succ, q, q * fair[j], c);
        LeadsUp(succ, q, f, c, y);
        LeadsUp(succ, q, f, y, c);
        assert y in Component(succ, f, c) * fair[j];
      }
    }
  }

  lemma {:induction false} LeadsWithin<K(!new)>(succ: K -> seq<K>, q: set<K>, t: K, u: K)
    requires Leads(succ, q, t, u)
    ensures t in q
  {
    if t != u {
      var v := UntilUnfold(succ, q, {u}, t);
    }
  }

  lemma {:induction false} LeadsUp<K(!new)>(succ: K -> seq<K>, q: set<K>, f: set<K>, x: K, y: K)
    requires q <= f && Leads(succ, q, x, y)
    ensures Leads(succ, f, x, y)
  {
    UntilMonotone(succ, q, {y}, f, {y}, x);
  }

  /** The loop's fixpoint in graph terms: what reaches, inside `f`, a fair cycle or a state of all fairness sets. */
  lemma {:induction false} CoreIsReachingAnchors<K(!new)>(succ: K -> seq<K>, f: set<K>, fair: seq<set<K>>)
    ensures Core(succ, f, fair) == Reaching(succ, f, Anchors(succ, f, fair))
  {
    var q := Core(succ, f, fair);
    CoreIsGreatestStable(succ, f, fair);
    AnchoredIsStable(succ, f, fair);
    forall s | s in q
      ensures s in Reaching(succ, f, Anchors(succ, f, fair))
    {
      var c := Bottom(succ, q, s);
      BottomIsAnchor(succ, f, fair, q, c);
      LeadsUp(succ, q, f, s, c);
      LeadsUntil(succ, f, Anchors(succ, f, fair), s, c);
    }
  }

  // ---------------------------------------------------------------------------
  // The exact condition
  // ---------------------------------------------------------------------------

  /** No cycle can leave for the common fair states without also being able to reach a fair cycle. */
  ghost predicate FairEscapes<K(!new)>(succ: K -> seq<K>, f: set<K>, fair: seq<set<K>>) {
    forall c | c in f && OnCycle(succ, f, c) && ExistsUntil(succ, f, AllFair(f, fair), c) ::
      ExistsUntil(succ, f, FairCycles(succ, f, fair), c)
  }

  /** A cycle from which a state of the core is reached lies in the core, so the answer keeps it. */
  lemma {:induction false} CycleIsKept<K(!new)>(succ: K -> seq<K>, f: set<K>, fair: seq<set<K>>, c: K)
    requires OnCycle(succ, f, c) && ExistsUntil(succ, f, AllFair(f, fair), c)
    ensures c in EgFairSet(succ, f, fair)
  {
    var a := Anchors(succ, f, fair);
    CoreIsReachingAnchors(succ, f, fair);
    UntilMonotone(succ, f, AllFair(f, fair), f, a, c);
    forall x | x in Component(succ, f, c)
      ensures x in Core(succ, f, fair)
    {
      UntilTrans(succ, f, a, x, c);
    }
    CycleWalks(succ, f, c, Core(succ, f, fair));
  }

  /** Under the condition every state kept has a fair walk. */
  lemma {:induction false} KeptIsFair<K(!new)>(succ: K -> seq<K>, f: set<K>, fair: seq<set<K>>, s: K)
    requires FairEscapes(succ, f, fair) && s in EgFairSet(succ, f, fair)
    ensures FairAlways(succ, f, fair, s)
  {
    var q, good := Core(succ, f, fair), FairCycles(succ, f, fair);
    CoreIsReachingAnchors(succ, f, fair);
    var w: nat -> K :| Walk(succ, q, w) && w(0) == s;
    assert Walk(succ, f, w);
    var c := SomeRecurs(w, q, 0);
    var i := RecurringOnCycle(succ, f, w, c);
    var a := UntilLeads(succ, f, Anchors(succ, f, fair), c);
    if a in AllFair(f, fair) {
      LeadsUntil(succ, f, AllFair(f, fair), c, a);
    } else {
      LeadsUntil(succ, f, good, c, a);
    }
    UntilTrans(succ, f, good, s, c);
    FairAlwaysIsReachingFairCycle(succ, f, fair, s);
  }

  /** The comment's "if and only if" holds exactly when every cycle inside `f` that reaches, inside `f`,
      a state of all fairness sets also reaches a fair cycle there. */
  lemma {:induction false} EgFairIsExactWhen<K(!new)>(succ: K -> seq<K>, f: set<K>, fair: seq<set<K>>)
    ensures (forall s :: s in EgFairSet(succ, f, fair) <==> FairAlways(succ, f, fair, s)) <==> FairEscapes(succ, f, fair)
  {
    forall s | FairAlways(succ, f, fair, s)
      ensures s in EgFairSet(succ, f, fair)
    {
      FairWalksAreKept(succ, f, fair, s);
    }
    if FairEscapes(succ, f, fair) {
      forall s | s in EgFairSet(succ, f, fair)
        ensures FairAlways(succ, f, fair, s)
      {
        KeptIsFair(succ, f, fair, s);
      }
    } else {
      var c :| c in f && OnCycle(succ, f, c) && ExistsUntil(succ, f, AllFair(f, fair), c) &&
               !ExistsUntil(succ, f, FairCycles(succ, f, fair), c);
      CycleIsKept(succ, f, fair, c);
      FairAlwaysIsReachingFairCycle(succ, f, fair, c);
    }
  }
}
