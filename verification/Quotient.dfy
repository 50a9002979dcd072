/** CTL on a possibly infinite system, and its preservation when states are
    replaced by keys that behave alike. */
module Quotient {
  import opened Graph
  import opened Fixpoint
  import opened Ctl
  import opened Wrappers

  // ---------------------------------------------------------------------------
  // Operators on predicates
  // ---------------------------------------------------------------------------

  ghost predicate SomeNext<S(!new)>(succ: S -> seq<S>, p: S -> bool, s: S) {
    exists t :: t in succ(s) && p(t)
  }

  ghost predicate EveryNext<S(!new)>(succ: S -> seq<S>, p: S -> bool, s: S) {
    forall t | t in succ(s) :: p(t)
  }

  ghost predicate SomeReach<S(!new)>(succ: S -> seq<S>, p: S -> bool, s: S) {
    exists t :: Reach(succ, s, t) && p(t)
  }

  ghost predicate EveryReach<S(!new)>(succ: S -> seq<S>, p: S -> bool, s: S) {
    forall t | Reach(succ, s, t) :: p(t)
  }

  ghost predicate WalkFrom<S(!new)>(succ: S -> seq<S>, w: nat -> S, s: S) {
    IsWalk(succ, w) && w(0) == s
  }

  ghost predicate SomeWalkAlways<S(!new)>(succ: S -> seq<S>, p: S -> bool, s: S) {
    exists w: nat -> S :: WalkFrom(succ, w, s) && forall i: nat :: p(w(i))
  }

  ghost predicate EveryWalkMeets<S(!new)>(succ: S -> seq<S>, p: S -> bool, s: S) {
    forall w: nat -> S | WalkFrom(succ, w, s) :: exists i: nat :: p(w(i))
  }

  ghost predicate PathFrom<S(!new)>(succ: S -> seq<S>, r: seq<S>, s: S) {
    IsPath(succ, r) && r[0] == s
  }

  /** `r` stays in `p` until its last state, which is in `q`. */
  ghost predicate UntilOn<S(!new)>(p: S -> bool, q: S -> bool, r: seq<S>) {
    |r| > 0 && q(r[|r| - 1]) && forall i | 0 <= i < |r| - 1 :: p(r[i])
  }

  ghost predicate SomePathUntil<S(!new)>(succ: S -> seq<S>, p: S -> bool, q: S -> bool, s: S) {
    exists r: seq<S> :: PathFrom(succ, r, s) && UntilOn(p, q, r)
  }

  ghost predicate MeetsAfter<S(!new)>(p: S -> bool, q: S -> bool, w: nat -> S) {
    exists i: nat :: q(w(i)) && forall j: nat | j < i :: p(w(j))
  }

  ghost predicate AvoidsOrStays<S(!new)>(p: S -> bool, q: S -> bool, r: seq<S>)
    requires |r| > 0
  {
    (forall i | 0 <= i < |r| :: !q(r[i])) ==> p(r[|r| - 1])
  }

  ghost predicate EveryUntil<S(!new)>(succ: S -> seq<S>, p: S -> bool, q: S -> bool, s: S) {
    && (forall w: nat -> S | WalkFrom(succ, w, s) :: MeetsAfter(p, q, w))
    && (forall r: seq<S> | PathFrom(succ, r, s) :: AvoidsOrStays(p, q, r))
  }

  /** CTL satisfaction at a state, by quantification over its finite paths and infinite walks. */
  ghost predicate Holds<P, S(!new)>(succ: S -> seq<S>, eval: (P, S) -> Result<bool>, f: Formula<P>, s: S)
    decreases f
  {
    match f
    case Atom(p) => eval(p, s) == Ok(true)
    case Fnot(a) => !Holds(succ, eval, a, s)
    case Fand(args) => forall a | a in args :: Holds(succ, eval, a, s)
    case For(args) => exists a | a in args :: Holds(succ, eval, a, s)
    case EX(a) => SomeNext(succ, t => Holds(succ, eval, a, t), s)
    case AX(a) => EveryNext(succ, t => Holds(succ, eval, a, t), s)
    case EF(a) => SomeReach(succ, t => Holds(succ, eval, a, t), s)
    case AF(a) => EveryWalkMeets(succ, t => Holds(succ, eval, a, t), s)
    case EG(a) => SomeWalkAlways(succ, t => Holds(succ, eval, a, t), s)
    case AG(a) => EveryReach(succ, t => Holds(succ, eval, a, t), s)
    case EU(a, b) => SomePathUntil(succ, t => Holds(succ, eval, a, t), t => Holds(succ, eval, b, t), s)
    case AU(a, b) => EveryUntil(succ, t => Holds(succ, eval, a, t), t => Holds(succ, eval, b, t), s)
  }

  // ---------------------------------------------------------------------------
  // Lifting and projecting runs
  // ---------------------------------------------------------------------------

  /** `h` maps the states of `dom` onto keys: steps project and every step of a key lifts. */
  ghost predicate Covers<S(!new), K(!new)>(succ: S -> seq<S>, quot: K -> seq<K>, h: S -> K, dom: S -> bool) {
    && (forall s, t | dom(s) && t in succ(s) :: dom(t) && h(t) in quot(h(s)))
    && (forall s, k {:trigger Lifts(succ, h, s, k)} | dom(s) && k in quot(h(s)) :: Lifts(succ, h, s, k))
  }

  ghost predicate Lifts<S(!new), K(!new)>(succ: S -> seq<S>, h: S -> K, s: S, k: K) {
    exists t :: t in succ(s) && h(t) == k
  }

  function Image<S, K>(h: S -> K, r: seq<S>): seq<K> {
    seq(|r|, i requires 0 <= i < |r| => h(r[i]))
  }

  lemma {:induction false} PathInDom<S(!new), K(!new)>(succ: S -> seq<S>, quot: K -> seq<K>, h: S -> K, dom: S -> bool, r: seq<S>, i: nat)
    requires Covers(succ, quot, h, dom) && IsPath(succ, r) && dom(r[0]) && i < |r|
    ensures dom(r[i])
  {
    if i > 0 {
      PathInDom(succ, quot, h, dom, r, i - 1);
      assert Step(succ, r, i - 1);
    }
  }

  lemma {:induction false} ProjectPath<S(!new), K(!new)>(succ: S -> seq<S>, quot: K -> seq<K>, h: S -> K, dom: S -> bool, r: seq<S>)
    requires Covers(succ, quot, h, dom) && IsPath(succ, r) && dom(r[0])
    ensures IsPath(quot, Image(h, r)) && forall i | 0 <= i < |r| :: dom(r[i])
  {
    forall i | 0 <= i < |r|
      ensures dom(r[i])
    {
      PathInDom(succ, quot, h, dom, r, i);
    }
    forall i | 0 <= i < |r| - 1
      ensures Step(quot, Image(h, r), i)
    {
      assert Step(succ, r, i);
    }
  }

  lemma {:induction false} LiftPath<S(!new), K(!new)>(succ: S -> seq<S>, quot: K -> seq<K>, h: S -> K, dom: S -> bool, q: seq<K>, s: S)
    returns (r: seq<S>)
    requires Covers(succ, quot, h, dom) && IsPath(quot, q) && dom(s) && h(s) == q[0]
    ensures PathFrom(succ, r, s) && |r| == |q| && forall i | 0 <= i < |r| :: dom(r[i]) && h(r[i]) == q[i]
    decreases |q|
  {
    if |q| == 1 {
      r := [s];
    } else {
      assert Step(quot, q, 0);
      assert Lifts(succ, h, s, q[1]);
      var t :| t in succ(s) && h(t) == q[1];
      TailPath(quot, q, q[0], q[|q| - 1]);
      var rest := LiftPath(succ, quot, h, dom, q[1..], t);
      ConsPath(succ, s, rest);
      r := [s] + rest;
    }
  }

  lemma {:induction false} WalkInDom<S(!new), K(!new)>(succ: S -> seq<S>, quot: K -> seq<K>, h: S -> K, dom: S -> bool, w: nat -> S, i: nat)
    requires Covers(succ, quot, h, dom) && IsWalk(succ, w) && dom(w(0))
    ensures dom(w(i))
  {
    if i > 0 {
      WalkInDom(succ, quot, h, dom, w, i - 1);
      assert WalkStep(succ, w, i - 1);
    }
  }

  ghost function Projected<S, K>(h: S -> K, w: nat -> S): nat -> K {
    (i: nat) => h(w(i))
  }

  lemma {:induction false} ProjectWalk<S(!new), K(!new)>(succ: S -> seq<S>, quot: K -> seq<K>, h: S -> K, dom: S -> bool, w: nat -> S)
    requires Covers(succ, quot, h, dom) && IsWalk(succ, w) && dom(w(0))
    ensures WalkFrom(quot, Projected(h, w), h(w(0))) && forall i: nat :: dom(w(i))
  {
    forall i: nat
      ensures dom(w(i)) && WalkStep(quot, Projected(h, w), i)
    {
      WalkInDom(succ, quot, h, dom, w, i);
      assert WalkStep(succ, w, i);
    }
  }

  /** A run of states following the walk `v` of keys. */
  ghost function Follow<S(!new), K(!new)>(succ: S -> seq<S>, quot: K -> seq<K>, h: S -> K, dom: S -> bool, v: nat -> K, s: S, n: nat): (t: S)
    requires Covers(succ, quot, h, dom) && IsWalk(quot, v) && dom(s) && h(s) == v(0)
    ensures dom(t) && h(t) == v(n)
  {
    if n == 0 then s else
    var u := Follow(succ, quot, h, dom, v, s, n - 1);
    assert WalkStep(quot, v, n - 1);
    assert Lifts(succ, h, u, v(n));
    var t :| t in succ(u) && h(t) == v(n);
    t
  }

  lemma {:induction false} LiftWalk<S(!new), K(!new)>(succ: S -> seq<S>, quot: K -> seq<K>, h: S -> K, dom: S -> bool, v: nat -> K, s: S)
    returns (w: nat -> S)
    requires Covers(succ, quot, h, dom) && WalkFrom(quot, v, h(s)) && dom(s)
    ensures WalkFrom(succ, w, s) && forall i: nat :: dom(w(i)) && h(w(i)) == v(i)
  {
    w := (n: nat) => Follow(succ, quot, h, dom, v, s, n);
    forall i: nat
      ensures WalkStep(succ, w, i)
    {
      assert WalkStep(quot, v, i);
      assert Lifts(succ, h, w(i), v(i + 1));
    }
  }

  // ---------------------------------------------------------------------------
  // Preservation, operator by operator
  // ---------------------------------------------------------------------------

  /** `p` on states is `q` on their keys. */
  ghost predicate Agree<S(!new), K(!new)>(h: S -> K, dom: S -> bool, p: S -> bool, q: K -> bool) {
    forall s | dom(s) :: p(s) <==> q(h(s))
  }

  lemma {:induction false} NextPreserved<S(!new), K(!new)>(succ: S -> seq<S>, quot: K -> seq<K>, h: S -> K, dom: S -> bool, p: S -> bool, q: K -> bool, s: S)
    requires Covers(succ, quot, h, dom) && Agree(h, dom, p, q) && dom(s)
    ensures SomeNext(succ, p, s) <==> SomeNext(quot, q, h(s))
    ensures EveryNext(succ, p, s) <==> EveryNext(quot, q, h(s))
  {
    forall k | k in quot(h(s))
      ensures Lifts(succ, h, s, k)
    {
    }
  }

  lemma {:induction false} ReachLifts<S(!new), K(!new)>(succ: S -> seq<S>, quot: K -> seq<K>, h: S -> K, dom: S -> bool, s: S, k: K)
    returns (t: S)
    requires Covers(succ, quot, h, dom) && dom(s) && Reach(quot, h(s), k)
    ensures Reach(succ, s, t) && dom(t) && h(t) == k
  {
    var q :| PathFromTo(quot, q, h(s), k);
    var r := LiftPath(succ, quot, h, dom, q, s);
    t := r[|r| - 1];
    assert PathFromTo(succ, r, s, t);
  }

  lemma {:induction false} ReachProjects<S(!new), K(!new)>(succ: S -> seq<S>, quot: K -> seq<K>, h: S -> K, dom: S -> bool, s: S, t: S)
    requires Covers(succ, quot, h, dom) && dom(s) && Reach(succ, s, t)
    ensures dom(t) && Reach(quot, h(s), h(t))
  {
    var r :| PathFromTo(succ, r, s, t);
    ProjectPath(succ, quot, h, dom, r);
    assert PathFromTo(quot, Image(h, r), h(s), h(t));
  }

  lemma {:induction false} ReachPreserved<S(!new), K(!new)>(succ: S -> seq<S>, quot: K -> seq<K>, h: S -> K, dom: S -> bool, p: S -> bool, q: K -> bool, s: S)
    requires Covers(succ, quot, h, dom) && Agree(h, dom, p, q) && dom(s)
    ensures SomeReach(succ, p, s) <==> SomeReach(quot, q, h(s))
    ensures EveryReach(succ, p, s) <==> EveryReach(quot, q, h(s))
  {
    forall t | Reach(succ, s, t)
      ensures Reach(quot, h(s), h(t)) && (p(t) <==> q(h(t)))
    {
      ReachProjects(succ, quot, h, dom, s, t);
    }
    forall k | Reach(quot, h(s), k)
      ensures exists t :: Reach(succ, s, t) && (p(t) <==> q(k))
    {
      var t := ReachLifts(succ, quot, h, dom, s, k);
    }
  }

  lemma {:induction false} WalksPreserved<S(!new), K(!new)>(succ: S -> seq<S>, quot: K -> seq<K>, h: S -> K, dom: S -> bool, p: S -> bool, q: K -> bool, s: S)
    requires Covers(succ, quot, h, dom) && Agree(h, dom, p, q) && dom(s)
    ensures SomeWalkAlways(succ, p, s) <==> SomeWalkAlways(quot, q, h(s))
  {
    if w: nat -> S :| WalkFrom(succ, w, s) && forall i: nat :: p(w(i)) {
      ProjectWalk(succ, quot, h, dom, w);
      assert forall i: nat :: q(Projected(h, w)(i));
    }
    if v: nat -> K :| WalkFrom(quot, v, h(s)) && forall i: nat :: q(v(i)) {
      var w := LiftWalk(succ, quot, h, dom, v, s);
      assert forall i: nat :: p(w(i));
    }
  }

  lemma {:induction false} MeetsPreserved<S(!new), K(!new)>(succ: S -> seq<S>, quot: K -> seq<K>, h: S -> K, dom: S -> bool, p: S -> bool, q: K -> bool, s: S)
    requires Covers(succ, quot, h, dom) && Agree(h, dom, p, q) && dom(s)
    ensures EveryWalkMeets(succ, p, s) <==> EveryWalkMeets(quot, q, h(s))
  {
    WalksPreserved(succ, quot, h, dom, t => !p(t), k => !q(k), s);
    MeetsIsDual(succ, p, s);
    MeetsIsDual(quot, q, h(s));
  }

  lemma {:induction false} MeetsIsDual<S(!new)>(succ: S -> seq<S>, p: S -> bool, s: S)
    ensures EveryWalkMeets(succ, p, s) <==> !SomeWalkAlways(succ, t => !p(t), s)
  {
    var np := (t: S) => !p(t);
    if !EveryWalkMeets(succ, p, s) {
      var w: nat -> S :| WalkFrom(succ, w, s) && !exists i: nat :: p(w(i));
      assert forall i: nat :: np(w(i));
    }
    if w: nat -> S :| WalkFrom(succ, w, s) && forall i: nat :: np(w(i)) {
      assert forall i: nat :: !p(w(i));
    }
  }

  lemma {:induction false} UntilPreserved<S(!new), K(!new)>(succ: S -> seq<S>, quot: K -> seq<K>, h: S -> K, dom: S -> bool,
                                         p: S -> bool, p': K -> bool, q: S -> bool, q': K -> bool, s: S)
    requires Covers(succ, quot, h, dom) && Agree(h, dom, p, p') && Agree(h, dom, q, q') && dom(s)
    ensures SomePathUntil(succ, p, q, s) <==> SomePathUntil(quot, p', q', h(s))
  {
    if r: seq<S> :| PathFrom(succ, r, s) && UntilOn(p, q, r) {
      ProjectPath(succ, quot, h, dom, r);
      assert PathFrom(quot, Image(h, r), h(s)) && UntilOn(p', q', Image(h, r));
    }
    if k: seq<K> :| PathFrom(quot, k, h(s)) && UntilOn(p', q', k) {
      var r := LiftPath(succ, quot, h, dom, k, s);
      assert UntilOn(p, q, r);
    }
  }

  lemma {:induction false} EveryUntilPreserved<S(!new), K(!new)>(succ: S -> seq<S>, quot: K -> seq<K>, h: S -> K, dom: S -> bool,
                                              p: S -> bool, p': K -> bool, q: S -> bool, q': K -> bool, s: S)
    requires Covers(succ, quot, h, dom) && Agree(h, dom, p, p') && Agree(h, dom, q, q') && dom(s)
    ensures EveryUntil(succ, p, q, s) <==> EveryUntil(quot, p', q', h(s))
  {
    if EveryUntil(quot, p', q', h(s)) {
      forall w: nat -> S | WalkFrom(succ, w, s)
        ensures MeetsAfter(p, q, w)
      {
        ProjectWalk(succ, quot, h, dom, w);
        var i: nat :| q'(Projected(h, w)(i)) && forall j: nat | j < i :: p'(Projected(h, w)(j));
        assert forall j: nat | j < i :: p'(Projected(h, w)(j)) ==> p(w(j));
      }
      forall r: seq<S> | PathFrom(succ, r, s)
        ensures AvoidsOrStays(p, q, r)
      {
        ProjectPath(succ, quot, h, dom, r);
        assert AvoidsOrStays(p', q', Image(h, r));
      }
    }
    if EveryUntil(succ, p, q, s) {
      forall v: nat -> K | WalkFrom(quot, v, h(s))
        ensures MeetsAfter(p', q', v)
      {
        var w := LiftWalk(succ, quot, h, dom, v, s);
        var i: nat :| q(w(i)) && forall j: nat | j < i :: p(w(j));
        assert forall j: nat | j < i :: p(w(j)) ==> p'(v(j));
      }
      forall k: seq<K> | PathFrom(quot, k, h(s))
        ensures AvoidsOrStays(p', q', k)
      {
        var r := LiftPath(succ, quot, h, dom, k, s);
        assert AvoidsOrStays(p, q, r);
      }
    }
  }

  /** Atoms have the same value on a state and on its key. */
  ghost predicate SameAtoms<P(!new), S(!new), K(!new)>(eval: (P, S) -> Result<bool>, eval': (P, K) -> Result<bool>, h: S -> K, dom: S -> bool) {
    forall p, s | dom(s) :: eval(p, s) == eval'(p, h(s))
  }

  /** The formula holds at a state of `dom` exactly when it holds at its key. */
  ghost predicate Preserved<P(!new), S(!new), K(!new)>(
      succ: S -> seq<S>, eval: (P, S) -> Result<bool>, quot: K -> seq<K>, eval': (P, K) -> Result<bool>,
      h: S -> K, dom: S -> bool, f: Formula<P>)
  {
    Agree(h, dom, s => Holds(succ, eval, f, s), k => Holds(quot, eval', f, k))
  }

  /** Every CTL formula holds at a state exactly when it holds at its key. */
  lemma {:induction false} QuotientPreserves<P(!new), S(!new), K(!new)>(
      succ: S -> seq<S>, eval: (P, S) -> Result<bool>, quot: K -> seq<K>, eval': (P, K) -> Result<bool>,
      h: S -> K, dom: S -> bool, f: Formula<P>)
    requires Covers(succ, quot, h, dom) && SameAtoms(eval, eval', h, dom)
    ensures Preserved(succ, eval, quot, eval', h, dom, f)
    decreases f
  {
    forall a | a in Args(f)
      ensures Preserved(succ, eval, quot, eval', h, dom, a)
    {
      QuotientPreserves(succ, eval, quot, eval', h, dom, a);
    }
    forall s | dom(s)
      ensures Holds(succ, eval, f, s) <==> Holds(quot, eval', f, h(s))
    {
      PreservedAt(succ, eval, quot, eval', h, dom, f, s);
    }
  }

  lemma {:induction false} PreservedAt<P(!new), S(!new), K(!new)>(
      succ: S -> seq<S>, eval: (P, S) -> Result<bool>, quot: K -> seq<K>, eval': (P, K) -> Result<bool>,
      h: S -> K, dom: S -> bool, f: Formula<P>, s: S)
    requires Covers(succ, quot, h, dom) && SameAtoms(eval, eval', h, dom) && dom(s)
    requires forall a | a in Args(f) :: Preserved(succ, eval, quot, eval', h, dom, a)
    ensures Holds(succ, eval, f, s) <==> Holds(quot, eval', f, h(s))
  {
    match f {
      case EX(a) =>
        assert a in Args(f);
        NextPreserved(succ, quot, h, dom, t => Holds(succ, eval, a, t), k => Holds(quot, eval', a, k), s);
      case AX(a) =>
        assert a in Args(f);
        NextPreserved(succ, quot, h, dom, t => Holds(succ, eval, a, t), k => Holds(quot, eval', a, k), s);
      case EF(a) =>
        assert a in Args(f);
        ReachPreserved(succ, quot, h, dom, t => Holds(succ, eval, a, t), k => Holds(quot, eval', a, k), s);
      case AG(a) =>
        assert a in Args(f);
        ReachPreserved(succ, quot, h, dom, t => Holds(succ, eval, a, t), k => Holds(quot, eval', a, k), s);
      case EG(a) =>
        assert a in Args(f);
        WalksPreserved(succ, quot, h, dom, t => Holds(succ, eval, a, t), k => Holds(quot, eval', a, k), s);
      case AF(a) =>
        assert a in Args(f);
        MeetsPreserved(succ, quot, h, dom, t => Holds(succ, eval, a, t), k => Holds(quot, eval', a, k), s);
      case EU(a, b) =>
        assert a in Args(f) && b in Args(f);
        UntilPreserved(succ, quot, h, dom, t => Holds(succ, eval, a, t), k => Holds(quot, eval', a, k),
                       t => Holds(succ, eval, b, t), k => Holds(quot, eval', b, k), s);
      case AU(a, b) =>
        assert a in Args(f) && b in Args(f);
        EveryUntilPreserved(succ, quot, h, dom, t => Holds(succ, eval, a, t), k => Holds(quot, eval', a, k),
                            t => Holds(succ, eval, b, t), k => Holds(quot, eval', b, k), s);
      case Fnot(a) => assert a in Args(f);
      case Fand(args) => assert forall a | a in args :: Preserved(succ, eval, quot, eval', h, dom, a);
      case For(args) => assert forall a | a in args :: Preserved(succ, eval, quot, eval', h, dom, a);
      case Atom(_) =>
    }
  }

  // ---------------------------------------------------------------------------
  // The labelling meaning is CTL satisfaction
  // ---------------------------------------------------------------------------

  /** `sat` is the set of states of `states` satisfying `p`. */
  ghost predicate Denotes<S(!new)>(states: set<S>, sat: set<S>, p: S -> bool) {
    forall s :: s in sat <==> s in states && p(s)
  }

  lemma {:induction false} DenotesReach<S(!new)>(succ: S -> seq<S>, states: set<S>, sat: set<S>, p: S -> bool, s: S)
    requires Closed(succ, states) && Denotes(states, sat, p) && s in states
    ensures SomeReach(succ, p, s) <==> exists t :: t in sat && Reach(succ, s, t)
    ensures EveryReach(succ, p, s) <==> forall t | Reach(succ, s, t) :: t in sat
  {
    forall t | Reach(succ, s, t)
      ensures t in states
    {
      ClosedReach(succ, states, s, t);
    }
  }

  lemma {:induction false} DenotesAlways<S(!new)>(succ: S -> seq<S>, states: set<S>, sat: set<S>, p: S -> bool, s: S)
    requires Closed(succ, states) && Denotes(states, sat, p) && s in states
    ensures SomeWalkAlways(succ, p, s) <==> ExistsAlways(succ, sat, s)
  {
    if w: nat -> S :| WalkFrom(succ, w, s) && forall i: nat :: p(w(i)) {
      forall i: nat
        ensures w(i) in sat
      {
        WalkStays(succ, states, w, i);
      }
      assert Walk(succ, sat, w);
    }
    if w: nat -> S :| Walk(succ, sat, w) && w(0) == s {
      assert forall i: nat :: w(i) in sat;
      assert forall i: nat :: p(w(i));
      assert WalkFrom(succ, w, s);
    }
  }

  lemma {:induction false} DenotesEventually<S(!new)>(succ: S -> seq<S>, states: set<S>, sat: set<S>, p: S -> bool, s: S)
    requires Closed(succ, states) && Denotes(states, sat, p) && s in states
    ensures EveryWalkMeets(succ, p, s) <==> AllEventually(succ, sat, s)
  {
    forall w: nat -> S | IsWalk(succ, w) && w(0) == s
      ensures (exists i: nat :: w(i) in sat) <==> exists i: nat :: p(w(i))
    {
      forall i: nat
        ensures w(i) in sat <==> p(w(i))
      {
        WalkStays(succ, states, w, i);
      }
    }
    if EveryWalkMeets(succ, p, s) {
      forall w: nat -> S | IsWalk(succ, w) && w(0) == s
        ensures exists i: nat :: w(i) in sat
      {
        assert WalkFrom(succ, w, s);
      }
    }
  }

  lemma {:induction false} DenotesPath<S(!new)>(succ: S -> seq<S>, states: set<S>, sat: set<S>, p: S -> bool, r: seq<S>)
    requires Closed(succ, states) && Denotes(states, sat, p) && IsPath(succ, r) && r[0] in states
    ensures forall i | 0 <= i < |r| :: r[i] in sat <==> p(r[i])
  {
    forall i | 0 <= i < |r|
      ensures r[i] in sat <==> p(r[i])
    {
      PathStays(succ, states, r, i);
    }
  }

  lemma {:induction false} DenotesUntil<S(!new)>(succ: S -> seq<S>, states: set<S>, satP: set<S>, satQ: set<S>, p: S -> bool, q: S -> bool, s: S)
    requires Closed(succ, states) && Denotes(states, satP, p) && Denotes(states, satQ, q) && s in states
    ensures SomePathUntil(succ, p, q, s) <==> ExistsUntil(succ, satP, satQ, s)
  {
    forall r: seq<S> | IsPath(succ, r) && r[0] == s
      ensures UntilOn(p, q, r) <==> UntilPath(succ, satP, satQ, r)
    {
      DenotesPath(succ, states, satP, p, r);
      DenotesPath(succ, states, satQ, q, r);
    }
    if r: seq<S> :| PathFrom(succ, r, s) && UntilOn(p, q, r) {
      assert UntilPath(succ, satP, satQ, r);
    }
    if r: seq<S> :| UntilPath(succ, satP, satQ, r) && r[0] == s {
      assert PathFrom(succ, r, s);
    }
  }

  lemma {:induction false} DenotesEveryUntil<S(!new)>(succ: S -> seq<S>, states: set<S>, satP: set<S>, satQ: set<S>, p: S -> bool, q: S -> bool, s: S)
    requires Closed(succ, states) && Denotes(states, satP, p) && Denotes(states, satQ, q) && s in states
    ensures EveryUntil(succ, p, q, s) <==> AllUntil(succ, satP, satQ, s)
  {
    forall w: nat -> S | IsWalk(succ, w) && w(0) == s
      ensures MeetsAfter(p, q, w) <==> exists i: nat :: w(i) in satQ && forall j: nat | j < i :: w(j) in satP
    {
      forall i: nat
        ensures (w(i) in satQ <==> q(w(i))) && (w(i) in satP <==> p(w(i)))
      {
        WalkStays(succ, states, w, i);
      }
      if MeetsAfter(p, q, w) {
        var i: nat :| q(w(i)) && forall j: nat | j < i :: p(w(j));
        assert w(i) in satQ && forall j: nat | j < i :: w(j) in satP;
      }
      if i: nat :| w(i) in satQ && forall j: nat | j < i :: w(j) in satP {
        assert q(w(i)) && forall j: nat | j < i :: p(w(j));
      }
    }
    forall r: seq<S> | IsPath(succ, r) && r[0] == s
      ensures AvoidsOrStays(p, q, r) <==> ((forall i | 0 <= i < |r| :: r[i] !in satQ) ==> r[|r| - 1] in satP)
    {
      DenotesPath(succ, states, satP, p, r);
      DenotesPath(succ, states, satQ, q, r);
    }
    if EveryUntil(succ, p, q, s) {
      forall w: nat -> S | IsWalk(succ, w) && w(0) == s
        ensures exists i: nat :: w(i) in satQ && forall j: nat | j < i :: w(j) in satP
      {
        assert WalkFrom(succ, w, s);
      }
      forall r: seq<S> | IsPath(succ, r) && r[0] == s && (forall i | 0 <= i < |r| :: r[i] !in satQ)
        ensures r[|r| - 1] in satP
      {
        assert PathFrom(succ, r, s);
      }
    }
    if AllUntil(succ, satP, satQ, s) {
      forall w: nat -> S | WalkFrom(succ, w, s)
        ensures MeetsAfter(p, q, w)
      {
      }
      forall r: seq<S> | PathFrom(succ, r, s)
        ensures AvoidsOrStays(p, q, r)
      {
      }
    }
  }

  /** The labels of a closed finite graph are exactly the states where the formula holds. */
  lemma {:induction false} SemIsHolds<P(!new), K(!new)>(m: Structure<P, K>, f: Formula<P>)
    requires Closed(m.succ, m.states)
    ensures Denotes(m.states, Sem(m, f), s => Holds(m.succ, m.eval, f, s))
    decreases f
  {
    forall a | a in Args(f)
      ensures Denotes(m.states, Sem(m, a), s => Holds(m.succ, m.eval, a, s))
    {
      SemIsHolds(m, a);
    }
    forall s | s in m.states
      ensures s in Sem(m, f) <==> Holds(m.succ, m.eval, f, s)
    {
      SemIsHoldsAt(m, f, s);
    }
  }

  lemma {:induction false} SemIsHoldsAt<P(!new), K(!new)>(m: Structure<P, K>, f: Formula<P>, s: K)
    requires Closed(m.succ, m.states) && s in m.states
    requires forall a | a in Args(f) :: Denotes(m.states, Sem(m, a), t => Holds(m.succ, m.eval, a, t))
    ensures s in Sem(m, f) <==> Holds(m.succ, m.eval, f, s)
  {
    match f {
      case Atom(_) =>
      case Fnot(a) => assert a in Args(f);
      case Fand(args) => assert forall a | a in args :: Denotes(m.states, Sem(m, a), t => Holds(m.succ, m.eval, a, t));
      case For(args) => assert forall a | a in args :: Denotes(m.states, Sem(m, a), t => Holds(m.succ, m.eval, a, t));
      case EX(a) => assert a in Args(f);
      case AX(a) => assert a in Args(f);
      case EF(a) => assert a in Args(f); DenotesReach(m.succ, m.states, Sem(m, a), t => Holds(m.succ, m.eval, a, t), s);
      case AG(a) => assert a in Args(f); DenotesReach(m.succ, m.states, Sem(m, a), t => Holds(m.succ, m.eval, a, t), s);
      case EG(a) => assert a in Args(f); DenotesAlways(m.succ, m.states, Sem(m, a), t => Holds(m.succ, m.eval, a, t), s);
      case AF(a) => assert a in Args(f); DenotesEventually(m.succ, m.states, Sem(m, a), t => Holds(m.succ, m.eval, a, t), s);
      case EU(a, b) =>
        assert a in Args(f) && b in Args(f);
        DenotesUntil(m.succ, m.states, Sem(m, a), Sem(m, b), t => Holds(m.succ, m.eval, a, t), t => Holds(m.succ, m.eval, b, t), s);
      case AU(a, b) =>
        assert a in Args(f) && b in Args(f);
        DenotesEveryUntil(m.succ, m.states, Sem(m, a), Sem(m, b), t => Holds(m.succ, m.eval, a, t), t => Holds(m.succ, m.eval, b, t), s);
    }
  }
}
