/** The global CTL labelling engine (crates/checker/src/ctl.rs). */
module Ctl {
  import opened Graph
  import opened Fixpoint
  import opened Scc
  import opened Wrappers

  // ---------------------------------------------------------------------------
  // Graph index
  // ---------------------------------------------------------------------------

  datatype GraphIndex<K(!new)> = GraphIndex(forward: map<K, seq<K>>, backward: map<K, seq<K>>) {

    function Successors(): K -> seq<K> {
      (s: K) => if s in forward then forward[s] else []
    }

    function Predecessors(s: K): seq<K> {
      if s in backward then backward[s] else []
    }

    /** The two adjacency maps describe one graph on `universe`. */
    ghost predicate Valid(universe: set<K>) {
      && forward.Keys == backward.Keys == universe
      && (forall a, b :: b in Successors()(a) ==> a in universe && b in universe)
      && (forall a, b :: b in Successors()(a) <==> a in Predecessors(b))
    }
  }

  method BuildIndex<K(==,!new)>(universe: set<K>, edges: seq<(K, K)>) returns (index: GraphIndex<K>)
    ensures index.Valid(universe)
    ensures forall a, b :: b in index.Successors()(a) <==> (a, b) in edges && a in universe && b in universe
  {
    var forward: map<K, seq<K>> := map s | s in universe :: [];
    var backward: map<K, seq<K>> := map s | s in universe :: [];
    for i := 0 to |edges|
      invariant forward.Keys == backward.Keys == universe
      invariant forall a, b | a in universe :: b in forward[a] <==> (a, b) in edges[..i] && b in universe
      invariant forall a, b | b in universe :: a in backward[b] <==> (a, b) in edges[..i] && a in universe
    {
      var (pre, post) := edges[i];
      assert edges[..i + 1] == edges[..i] + [edges[i]];
      if pre in universe && post in universe {
        forward := forward[pre := forward[pre] + [post]];
        backward := backward[post := backward[post] + [pre]];
      }
    }
    assert edges[..|edges|] == edges;
    index := GraphIndex(forward, backward);
  }

  /** Some listing of a set. */
  method Elements<K(==)>(s: set<K>) returns (list: seq<K>)
    ensures Members(list) == s
  {
    list := [];
    var rest := s;
    while rest != {}
      invariant rest <= s && Members(list) == s - rest
      decreases rest
    {
      var x :| x in rest;
      rest := rest - {x};
      assert Members(list + [x]) == Members(list) + {x};
      list := list + [x];
    }
  }

  // ---------------------------------------------------------------------------
  // Backward worklist
  // ---------------------------------------------------------------------------

  /** States known to be in the result whose predecessors in `within` are all known too. */
  ghost predicate Expanded<K(!new)>(index: GraphIndex<K>, within: set<K>, result: set<K>, s: K) {
    forall x | x in index.Predecessors(s) && x in within :: x in result
  }

  /** Add the predecessors of `s` that lie in `within` to the result and the worklist. */
  method ExpandInto<K(==,!new)>(s: K, index: GraphIndex<K>, within: set<K>, known: set<K>, pending: seq<K>)
    returns (result: set<K>, worklist: seq<K>)
    ensures known <= result && Expanded(index, within, result, s)
    ensures forall x | x in result - known :: x in within && x in index.Predecessors(s) && x in worklist
    ensures forall x | x in worklist :: x in pending || x in result
    ensures forall x | x in pending :: x in worklist
    ensures result == known ==> worklist == pending
  {
    result, worklist := known, pending;
    var preds := index.Predecessors(s);
    for i := 0 to |preds|
      invariant known <= result
      invariant forall k | 0 <= k < i && preds[k] in within :: preds[k] in result
      invariant forall x | x in result - known :: x in within && x in preds && x in worklist
      invariant forall x | x in worklist :: x in pending || x in result
      invariant forall x | x in pending :: x in worklist
      invariant result == known ==> worklist == pending
    {
      var x := preds[i];
      if x in within && x !in result {
        result := result + {x};
        worklist := worklist + [x];
      }
    }
  }

  /** Loop invariant of the backward search. */
  ghost predicate Frontier<K(!new)>(index: GraphIndex<K>, within: set<K>, seeds: set<K>, result: set<K>, worklist: seq<K>) {
    && seeds <= result
    && (forall s | s in worklist :: s in result)
    && (forall s {:trigger ExistsUntil(index.Successors(), within, seeds, s)} | s in result ::
          ExistsUntil(index.Successors(), within, seeds, s))
    && (forall s {:trigger Expanded(index, within, result, s)} | s in result && s !in worklist ::
          Expanded(index, within, result, s))
  }

  lemma {:induction false} FrontierStep<K(!new)>(index: GraphIndex<K>, universe: set<K>, within: set<K>, seeds: set<K>,
                              known: set<K>, pending: seq<K>, s: K, result: set<K>, worklist: seq<K>)
    requires index.Valid(universe) && Frontier(index, within, seeds, known, pending + [s])
    requires known <= result && Expanded(index, within, result, s)
    requires forall x | x in result - known :: x in within && x in index.Predecessors(s) && x in worklist
    requires forall x | x in worklist :: x in pending || x in result
    requires forall x | x in pending :: x in worklist
    ensures Frontier(index, within, seeds, result, worklist)
    ensures result <= known + within * universe
  {
    assert s in pending + [s];
    assert forall x | x in pending :: x in pending + [s];
    forall x | x in result
      ensures ExistsUntil(index.Successors(), within, seeds, x)
    {
      if x !in known {
        assert ExistsUntil(index.Successors(), within, seeds, s);
        UntilStep(index.Successors(), within, seeds, x, s);
      }
    }
    forall x | x in result && x !in worklist
      ensures Expanded(index, within, result, x)
    {
      if x != s {
        assert Expanded(index, within, known, x);
      }
    }
  }

  /** All states from which `seeds` is reached along states of `within`. */
  method BackwardWithin<K(==,!new)>(seeds: set<K>, index: GraphIndex<K>, within: set<K>, ghost universe: set<K>)
    returns (result: set<K>)
    requires index.Valid(universe)
    ensures forall s :: s in result <==> ExistsUntil(index.Successors(), within, seeds, s)
    ensures result <= seeds + within * universe
  {
    result := seeds;
    ghost var bound := seeds + within * universe;
    var worklist := Elements(result);
    forall s | s in seeds {
      UntilHere(index.Successors(), within, seeds, s);
    }
    while worklist != []
      invariant result <= bound && Frontier(index, within, seeds, result, worklist)
      decreases bound - result, |worklist|
    {
      result, worklist := ExpandLast(seeds, index, within, universe, result, worklist);
    }
    DrainedIsClosed(index, universe, within, seeds, result);
  }

  /** Take the last state off the worklist and expand it. */
  method ExpandLast<K(==,!new)>(ghost seeds: set<K>, index: GraphIndex<K>, within: set<K>, ghost universe: set<K>,
                                known: set<K>, pending: seq<K>)
    returns (result: set<K>, worklist: seq<K>)
    requires index.Valid(universe) && pending != []
    requires known <= seeds + within * universe && Frontier(index, within, seeds, known, pending)
    ensures result <= seeds + within * universe && Frontier(index, within, seeds, result, worklist)
    ensures if result == known then |worklist| < |pending|
            else seeds + within * universe - result < seeds + within * universe - known
  {
    var s, rest := pending[|pending| - 1], pending[..|pending| - 1];
    assert pending == rest + [s];
    result, worklist := ExpandInto(s, index, within, known, rest);
    FrontierStep(index, universe, within, seeds, known, rest, s, result, worklist);
    if result != known {
      Shrinks(seeds + within * universe, known, result);
    }
  }

  lemma {:induction false} Shrinks<K>(bound: set<K>, known: set<K>, result: set<K>)
    requires known < result <= bound
    ensures bound - result < bound - known
  {
    var x :| x in result && x !in known;
    assert x in bound - known && x !in bound - result;
  }

  lemma {:induction false} DrainedIsClosed<K(!new)>(index: GraphIndex<K>, universe: set<K>, within: set<K>, seeds: set<K>, result: set<K>)
    requires index.Valid(universe) && Frontier(index, within, seeds, result, [])
    ensures forall s :: s in result <==> ExistsUntil(index.Successors(), within, seeds, s)
  {
    forall x, y | x in within && y in index.Successors()(x) && y in result
      ensures x in result
    {
      assert Expanded(index, within, result, y);
    }
    forall s | ExistsUntil(index.Successors(), within, seeds, s)
      ensures s in result
    {
      UntilLeast(index.Successors(), within, seeds, result, s);
    }
  }

  // ---------------------------------------------------------------------------
  // EG through strongly connected components
  // ---------------------------------------------------------------------------

  function Filter<K(==,!new)>(s: seq<K>, keep: set<K>): (r: seq<K>)
    ensures forall x :: x in r <==> x in s && x in keep
  {
    if s == [] then [] else
    (if s[0] in keep then [s[0]] else []) + Filter(s[1..], keep)
  }

  /** The successor function restricted to `inside`. */
  function Restricted<K(==,!new)>(succ: K -> seq<K>, inside: set<K>): K -> seq<K> {
    (s: K) => Filter(succ(s), inside)
  }

  lemma {:induction false} RestrictedReach<K(!new)>(succ: K -> seq<K>, inside: set<K>, w: nat -> K, i: nat, j: nat)
    requires Walk(succ, inside, w) && i <= j
    ensures Reach(Restricted(succ, inside), w(i), w(j))
  {
    forall k: nat
      ensures WalkStep(Restricted(succ, inside), w, k)
    {
      assert WalkStep(succ, w, k);
    }
    WalkReach(Restricted(succ, inside), w, i, j);
  }

  ghost predicate NonTrivial<K(!new)>(c: seq<K>, hasSelfLoop: K -> bool) {
    |c| > 1 || (|c| == 1 && hasSelfLoop(c[0]))
  }

  lemma {:induction false} NonTrivialHas<K(!new)>(sccs: seq<seq<K>>, hasSelfLoop: K -> bool, x: K)
    requires forall c | c in sccs :: |c| > 0
    ensures x in Emitted(NonTrivialSccs(sccs, hasSelfLoop)) <==>
            exists c :: c in sccs && x in c && NonTrivial(c, hasSelfLoop)
  {
    var kept := NonTrivialSccs(sccs, hasSelfLoop);
    EmittedHas(kept, x);
    NonTrivialKeeps(sccs, hasSelfLoop);
    if x in Emitted(kept) {
      var i :| 0 <= i < |kept| && x in kept[i];
      assert kept[i] in kept;
    }
    if c :| c in sccs && x in c && NonTrivial(c, hasSelfLoop) {
      assert c in kept;
    }
  }

  lemma {:induction false} NonTrivialKeeps<K(!new)>(sccs: seq<seq<K>>, hasSelfLoop: K -> bool)
    requires forall c | c in sccs :: |c| > 0
    ensures forall c :: c in NonTrivialSccs(sccs, hasSelfLoop) <==> c in sccs && NonTrivial(c, hasSelfLoop)
  {
    if sccs != [] {
      NonTrivialKeeps(sccs[1..], hasSelfLoop);
    }
  }

  /** The states lying on a cycle inside `inside`: what the non-trivial components hold. */
  ghost predicate Cyclic<K(!new)>(succ: K -> seq<K>, inside: set<K>, cyclic: set<K>) {
    && cyclic <= inside
    && Progressive(succ, cyclic)
    && forall w: nat -> K | Walk(succ, inside, w) :: exists i: nat :: w(i) in cyclic
  }

  /** A state of a component with more than one member has a successor in it. */
  lemma {:induction false} ComponentProgress<K(!new)>(succ: K -> seq<K>, inside: set<K>, c: seq<K>, s: K) returns (t: K)
    requires IsComponent(Restricted(succ, inside), c) && s in c && |c| > 1
    ensures t in succ(s) && t in inside && t in c
  {
    var rs := Restricted(succ, inside);
    var other := if c[0] == s then c[1] else c[0];
    assert other in c && other != s;
    var p :| PathFromTo(rs, p, s, other);
    assert Step(rs, p, 0);
    t := p[1];
    TailPath(rs, p, s, other);
    assert PathFromTo(rs, p[1..], t, other);
    assert Reach(rs, t, other);
    ReachEdge(rs, s, t);
    ReachTrans(rs, t, other, s);
  }

  /** A walk inside `inside` runs into a non-trivial component. */
  lemma {:induction false} WalkMeetsCycle<K(!new)>(succ: K -> seq<K>, inside: set<K>, sccs: seq<seq<K>>, hasSelfLoop: K -> bool,
                                w: nat -> K) returns (i: nat)
    requires Components(Restricted(succ, inside), sccs) && inside <= Emitted(sccs)
    requires forall s :: hasSelfLoop(s) <==> s in succ(s)
    requires Walk(succ, inside, w)
    ensures w(i) in Emitted(NonTrivialSccs(sccs, hasSelfLoop))
  {
    var rs := Restricted(succ, inside);
    var j;
    i, j := Pigeonhole(w, inside);
    EmittedHas(sccs, w(i));
    var k :| 0 <= k < |sccs| && w(i) in sccs[k];
    assert IsComponent(rs, sccs[k]);
    RestrictedReach(succ, inside, w, i, i + 1);
    RestrictedReach(succ, inside, w, i + 1, j);
    assert w(i + 1) in sccs[k];
    assert WalkStep(succ, w, i);
    NonTrivialHas(sccs, hasSelfLoop, w(i));
    assert NonTrivial(sccs[k], hasSelfLoop);
    assert sccs[k] in sccs;
  }

  lemma {:induction false} NonTrivialIsCyclic<K(!new)>(succ: K -> seq<K>, inside: set<K>, sccs: seq<seq<K>>, hasSelfLoop: K -> bool)
    requires Components(Restricted(succ, inside), sccs) && inside == Emitted(sccs)
    requires forall s :: hasSelfLoop(s) <==> s in succ(s)
    ensures Cyclic(succ, inside, Emitted(NonTrivialSccs(sccs, hasSelfLoop)))
  {
    var cyclic := Emitted(NonTrivialSccs(sccs, hasSelfLoop));
    forall s | s in cyclic
      ensures s in inside && HasNext(succ, cyclic, s)
    {
      NonTrivialHas(sccs, hasSelfLoop, s);
      var c :| c in sccs && s in c && NonTrivial(c, hasSelfLoop);
      var k :| 0 <= k < |sccs| && sccs[k] == c;
      EmittedHas(sccs, s);
      if |c| > 1 {
        var t := ComponentProgress(succ, inside, c, s);
        NonTrivialHas(sccs, hasSelfLoop, t);
        assert t in cyclic;
      } else {
        assert s == c[0];
        assert s in succ(s);
      }
    }
    forall w: nat -> K | Walk(succ, inside, w)
      ensures exists i: nat :: w(i) in cyclic
    {
      var i := WalkMeetsCycle(succ, inside, sccs, hasSelfLoop, w);
    }
  }

  /** Backward closure of the cyclic states is exactly EG. */
  lemma {:induction false} CyclicClosureIsAlways<K(!new)>(succ: K -> seq<K>, inside: set<K>, cyclic: set<K>, result: set<K>)
    requires Cyclic(succ, inside, cyclic)
    requires forall s {:trigger ExistsUntil(succ, inside, cyclic, s)} :: s in result <==> ExistsUntil(succ, inside, cyclic, s)
    ensures forall s :: s in result <==> ExistsAlways(succ, inside, s)
  {
    forall s | s in result
      ensures s in inside && HasNext(succ, result, s)
    {
      assert ExistsUntil(succ, inside, cyclic, s);
      if s in cyclic {
        assert HasNext(succ, cyclic, s);
        var t :| t in succ(s) && t in cyclic;
        UntilHere(succ, inside, cyclic, t);
        assert t in result;
      } else {
        var t := UntilUnfold(succ, inside, cyclic, s);
        assert t in result;
      }
    }
    forall s
      ensures s in result <==> ExistsAlways(succ, inside, s)
    {
      if s in result {
        ProgressiveWalks(succ, result, s);
        AlwaysMonotone(succ, result, inside, s);
      }
      if w: nat -> K :| Walk(succ, inside, w) && w(0) == s {
        var i: nat :| w(i) in cyclic;
        PrefixIsPath(succ, w, i);
        assert UntilPath(succ, inside, cyclic, Prefix(w, i));
        assert ExistsUntil(succ, inside, cyclic, s);
      }
    }
  }

  /** The states of an infinite walk inside `satF`. */
  method EgLabel<K(==,!new)>(satF: set<K>, index: GraphIndex<K>, ghost universe: set<K>) returns (result: set<K>)
    requires index.Valid(universe)
    ensures forall s :: s in result <==> ExistsAlways(index.Successors(), satF, s)
    ensures result <= satF
  {
    if satF == {} {
      return {};
    }
    var succ := index.Successors();
    var roots := Elements(satF);
    var sccs := TarjanSccs(roots, Restricted(succ, satF), satF);
    forall x
      ensures x in Emitted(sccs) <==> x in satF
    {
      if x in satF {
        ReachRefl(Restricted(succ, satF), x);
        assert RootReaches(Restricted(succ, satF), roots, x);
      }
      if r :| r in roots && Reach(Restricted(succ, satF), r, x) {
        ClosedReach(Restricted(succ, satF), satF, r, x);
      }
    }
    var hasSelfLoop := (s: K) => s in succ(s);
    var nonTrivial := NonTrivialSccs(sccs, hasSelfLoop);
    NonTrivialIsCyclic(succ, satF, sccs, hasSelfLoop);
    if nonTrivial == [] {
      return {};
    }
    var sccStates := Flatten(nonTrivial);
    result := BackwardWithin(sccStates, index, satF, universe);
    CyclicClosureIsAlways(succ, satF, sccStates, result);
  }

  method Flatten<K(==)>(sccs: seq<seq<K>>) returns (all: set<K>)
    ensures all == Emitted(sccs)
  {
    all := {};
    for i := 0 to |sccs|
      invariant all == Emitted(sccs[..i])
    {
      assert sccs[..i + 1][..i] == sccs[..i];
      all := all + set x | x in sccs[i];
    }
    assert sccs[..|sccs|] == sccs;
  }

  // ---------------------------------------------------------------------------
  // Formulas
  // ---------------------------------------------------------------------------

  datatype Formula<!P> =
    | Atom(atom: P)
    | Fnot(arg: Formula<P>)
    | Fand(args: seq<Formula<P>>)
    | For(args: seq<Formula<P>>)
    | EX(arg: Formula<P>)
    | AX(arg: Formula<P>)
    | EF(arg: Formula<P>)
    | AF(arg: Formula<P>)
    | EG(arg: Formula<P>)
    | AG(arg: Formula<P>)
    | EU(left: Formula<P>, right: Formula<P>)
    | AU(left: Formula<P>, right: Formula<P>)

  /** A finite transition graph with an evaluator of atoms. */
  datatype Structure<!P, !K(!new)> =
    Structure(states: set<K>, succ: K -> seq<K>, eval: (P, K) -> Result<bool>)

  /** The states satisfying a formula, by quantification over finite paths and infinite walks. */
  ghost function Sem<P, K(!new)>(m: Structure<P, K>, f: Formula<P>): (r: set<K>)
    ensures r <= m.states
  {
    match f
    case Atom(p) => set s | s in m.states && m.eval(p, s) == Ok(true)
    case Fnot(a) => m.states - Sem(m, a)
    case Fand(args) => set s | s in m.states && forall a | a in args :: s in Sem(m, a)
    case For(args) => set s | s in m.states && exists a | a in args :: s in Sem(m, a)
    case EX(a) => set s | s in m.states && HasNext(m.succ, Sem(m, a), s)
    case AX(a) => set s | s in m.states && forall t | t in m.succ(s) :: t in Sem(m, a)
    case EF(a) => set s | s in m.states && exists t :: t in Sem(m, a) && Reach(m.succ, s, t)
    case AF(a) => set s | s in m.states && AllEventually(m.succ, Sem(m, a), s)
    case EG(a) => set s | s in m.states && ExistsAlways(m.succ, Sem(m, a), s)
    case AG(a) => set s | s in m.states && forall t | Reach(m.succ, s, t) :: t in Sem(m, a)
    case EU(a, b) => set s | s in m.states && ExistsUntil(m.succ, Sem(m, a), Sem(m, b), s)
    case AU(a, b) => set s | s in m.states && AllUntil(m.succ, Sem(m, a), Sem(m, b), s)
  }

  /** The immediate subformulas. */
  ghost function Args<P>(f: Formula<P>): (args: seq<Formula<P>>)
    ensures forall a | a in args :: a < f
  {
    match f
    case Atom(_) => []
    case Fand(args) => args
    case For(args) => args
    case EU(a, b) => [a, b]
    case AU(a, b) => [a, b]
    case Fnot(a) => [a]
    case EX(a) => [a]
    case AX(a) => [a]
    case EF(a) => [a]
    case AF(a) => [a]
    case EG(a) => [a]
    case AG(a) => [a]
  }

  /** Some atom of the formula cannot be evaluated on some state. */
  ghost predicate AtomFails<P, K(!new)>(m: Structure<P, K>, f: Formula<P>)
    decreases f
  {
    if f.Atom? then exists s :: s in m.states && m.eval(f.atom, s).Err?
    else exists a | a in Args(f) :: AtomFails(m, a)
  }

  /** `answer` is right for `f`: its satisfying states, or an error when an atom has no value. */
  ghost predicate Labels<P, K(!new)>(m: Structure<P, K>, f: Formula<P>, answer: Result<set<K>>) {
    match answer
    case Ok(sat) => !AtomFails(m, f) && sat == Sem(m, f)
    case Err(_) => AtomFails(m, f)
  }

  ghost function StructureOf<P, K(!new)>(universe: set<K>, index: GraphIndex<K>, eval: (P, K) -> Result<bool>):
    Structure<P, K>
  {
    Structure(universe, index.Successors(), eval)
  }

  method LabelAtom<P, K(==,!new)>(p: P, universe: set<K>, ghost index: GraphIndex<K>, eval: (P, K) -> Result<bool>)
    returns (answer: Result<set<K>>)
    ensures Labels(StructureOf(universe, index, eval), Atom(p), answer)
  {
    var sat := {};
    var rest := universe;
    while rest != {}
      invariant rest <= universe
      invariant forall s | s in universe - rest :: eval(p, s).Ok?
      invariant sat == set s | s in universe - rest && eval(p, s) == Ok(true)
      decreases rest
    {
      var s :| s in rest;
      rest := rest - {s};
      match eval(p, s) {
        case Err(message) => return Err(message);
        case Ok(holds) =>
          if holds {
            sat := sat + {s};
          }
      }
    }
    answer := Ok(sat);
  }

  /** States of the universe some of whose successors (`every`: all of whose successors) are in `sat`. */
  method LabelNext<K(==,!new)>(sat: set<K>, universe: set<K>, index: GraphIndex<K>, every: bool)
    returns (result: set<K>)
    ensures result == if every then set s | s in universe && forall t | t in index.Successors()(s) :: t in sat
                      else set s | s in universe && HasNext(index.Successors(), sat, s)
  {
    result := {};
    var rest := universe;
    while rest != {}
      invariant rest <= universe
      invariant result == if every then set s | s in universe - rest && forall t | t in index.Successors()(s) :: t in sat
                          else set s | s in universe - rest && HasNext(index.Successors(), sat, s)
      decreases rest
    {
      var s :| s in rest;
      rest := rest - {s};
      var holds := AnyOrAll(index.Successors()(s), sat, every);
      if holds {
        result := result + {s};
      }
    }
  }

  method AnyOrAll<K(==)>(succs: seq<K>, sat: set<K>, every: bool) returns (holds: bool)
    ensures every ==> (holds <==> forall t | t in succs :: t in sat)
    ensures !every ==> (holds <==> exists t :: t in succs && t in sat)
  {
    holds := every;
    for i := 0 to |succs|
      invariant every ==> (holds <==> forall k | 0 <= k < i :: succs[k] in sat)
      invariant !every ==> (holds <==> exists k :: 0 <= k < i && succs[k] in sat)
    {
      if every && succs[i] !in sat {
        return false;
      }
      if !every && succs[i] in sat {
        return true;
      }
    }
  }

  /** Satisfaction of all (`every`) or some of the arguments. */
  ghost function SemArgs<P, K(!new)>(m: Structure<P, K>, args: seq<Formula<P>>, every: bool): set<K> {
    if every then set s | s in m.states && forall a | a in args :: s in Sem(m, a)
    else set s | s in m.states && exists a | a in args :: s in Sem(m, a)
  }

  lemma {:induction false} SemArgsAppend<P, K(!new)>(m: Structure<P, K>, args: seq<Formula<P>>, a: Formula<P>, every: bool)
    ensures SemArgs(m, args + [a], every) ==
            if every then SemArgs(m, args, every) * Sem(m, a) else SemArgs(m, args, every) + Sem(m, a)
  {
  }

  /** The states satisfying `f` in the explored graph, or the error of an atom. */
  method LabelFormula<P, K(==,!new)>(f: Formula<P>, universe: set<K>, index: GraphIndex<K>, eval: (P, K) -> Result<bool>)
    returns (answer: Result<set<K>>)
    requires index.Valid(universe)
    ensures Labels(StructureOf(universe, index, eval), f, answer)
    decreases f, 1
  {
    ghost var m := StructureOf(universe, index, eval);
    match f
    case Atom(p) =>
      answer := LabelAtom(p, universe, index, eval);
    case Fnot(a) =>
      answer := LabelNot(a, universe, index, eval);
    case Fand(args) =>
      answer := LabelArgs(f, args, universe, index, eval, true);
    case For(args) =>
      answer := LabelArgs(f, args, universe, index, eval, false);
    case EX(a) =>
      answer := LabelFormula(a, universe, index, eval);
      if answer.Ok? {
        var sat := LabelNext(answer.value, universe, index, false);
        answer := Ok(sat);
      }
    case AX(a) =>
      answer := LabelFormula(a, universe, index, eval);
      if answer.Ok? {
        var sat := LabelNext(answer.value, universe, index, true);
        answer := Ok(sat);
      }
    case EF(a) =>
      answer := LabelFormula(a, universe, index, eval);
      if answer.Ok? {
        var sat := BackwardWithin(answer.value, index, universe, universe);
        EfIsReach(m, answer.value, sat);
        answer := Ok(sat);
      }
    case AG(a) =>
      answer := LabelNot(a, universe, index, eval);
      if answer.Ok? {
        var efNot := BackwardWithin(answer.value, index, universe, universe);
        EfIsReach(m, answer.value, efNot);
        AgIsReach(m, Sem(m, a), efNot);
        answer := Ok(universe - efNot);
      }
    case EG(a) =>
      answer := LabelFormula(a, universe, index, eval);
      if answer.Ok? {
        var sat := EgLabel(answer.value, index, universe);
        answer := Ok(sat);
      }
    case AF(a) =>
      answer := LabelNot(a, universe, index, eval);
      if answer.Ok? {
        var egNot := EgLabel(answer.value, index, universe);
        AfIsDual(m, Sem(m, a), egNot);
        answer := Ok(universe - egNot);
      }
    case EU(a, b) =>
      var satQ := LabelFormula(b, universe, index, eval);
      if satQ.Err? {
        return satQ;
      }
      var satP := LabelFormula(a, universe, index, eval);
      if satP.Err? {
        return satP;
      }
      var sat := BackwardWithin(satQ.value, index, satP.value, universe);
      answer := Ok(sat);
    case AU(a, b) =>
      var satQ := LabelFormula(b, universe, index, eval);
      if satQ.Err? {
        return satQ;
      }
      var satP := LabelFormula(a, universe, index, eval);
      if satP.Err? {
        return satP;
      }
      var notQ := universe - satQ.value;
      var notP := universe - satP.value;
      var euRelease := BackwardWithin(notP * notQ, index, notQ, universe);
      var egNotQ := EgLabel(notQ, index, universe);
      AuIsDual(m, satP.value, satQ.value, euRelease + egNotQ);
      answer := Ok(universe - (euRelease + egNotQ));
  }

  method LabelNot<P, K(==,!new)>(a: Formula<P>, universe: set<K>, index: GraphIndex<K>, eval: (P, K) -> Result<bool>)
    returns (answer: Result<set<K>>)
    requires index.Valid(universe)
    ensures Labels(StructureOf(universe, index, eval), Fnot(a), answer)
    decreases a, 2
  {
    answer := LabelFormula(a, universe, index, eval);
    if answer.Ok? {
      answer := Ok(universe - answer.value);
    }
  }

  method LabelArgs<P, K(==,!new)>(ghost f: Formula<P>, args: seq<Formula<P>>, universe: set<K>, index: GraphIndex<K>,
                                  eval: (P, K) -> Result<bool>, every: bool)
    returns (answer: Result<set<K>>)
    requires index.Valid(universe)
    requires f == if every then Fand(args) else For(args)
    ensures Labels(StructureOf(universe, index, eval), f, answer)
    decreases f, 0
  {
    ghost var m := StructureOf(universe, index, eval);
    var result := if every then universe else {};
    for i := 0 to |args|
      invariant result == SemArgs(m, args[..i], every)
      invariant forall k | 0 <= k < i :: !AtomFails(m, args[k])
    {
      var sat := LabelFormula(args[i], universe, index, eval);
      if sat.Err? {
        return sat;
      }
      assert args[..i + 1] == args[..i] + [args[i]];
      SemArgsAppend(m, args[..i], args[i], every);
      result := if every then result * sat.value else result + sat.value;
    }
    assert args[..|args|] == args;
    answer := Ok(result);
  }

  ghost predicate Total<P, K(!new)>(m: Structure<P, K>) {
    Closed(m.succ, m.states)
  }

  lemma {:induction false} EfIsReach<P, K(!new)>(m: Structure<P, K>, target: set<K>, ef: set<K>)
    requires Total(m) && ef <= m.states
    requires forall s {:trigger ExistsUntil(m.succ, m.states, target, s)} :: s in ef <==> ExistsUntil(m.succ, m.states, target, s)
    ensures ef == set s | s in m.states && exists t :: t in target && Reach(m.succ, s, t)
  {
    forall s | s in m.states
      ensures s in ef <==> exists t :: t in target && Reach(m.succ, s, t)
    {
      ReachIsUntil(m.succ, m.states, target, s);
    }
  }

  lemma {:induction false} AgIsReach<P, K(!new)>(m: Structure<P, K>, f: set<K>, efNot: set<K>)
    requires Total(m) && f <= m.states
    requires efNot == set s | s in m.states && exists t :: t in m.states - f && Reach(m.succ, s, t)
    ensures m.states - efNot == set s | s in m.states && forall t | Reach(m.succ, s, t) :: t in f
  {
    forall s, t | s in m.states && Reach(m.succ, s, t)
      ensures t in m.states
    {
      ClosedReach(m.succ, m.states, s, t);
    }
  }

  lemma {:induction false} AfIsDual<P, K(!new)>(m: Structure<P, K>, f: set<K>, egNot: set<K>)
    requires Total(m)
    requires forall s :: s in egNot <==> ExistsAlways(m.succ, m.states - f, s)
    ensures m.states - egNot == set s | s in m.states && AllEventually(m.succ, f, s)
  {
    forall s | s in m.states {
      EventuallyDual(m.succ, m.states, f, s);
    }
  }

  lemma {:induction false} AuIsDual<P, K(!new)>(m: Structure<P, K>, p: set<K>, q: set<K>, release: set<K>)
    requires Total(m)
    requires forall s {:trigger SomeRelease(m.succ, m.states, p, q, s)} :: s in release <==> SomeRelease(m.succ, m.states, p, q, s)
    ensures m.states - release == set s | s in m.states && AllUntil(m.succ, p, q, s)
  {
    forall s | s in m.states {
      UntilDual(m.succ, m.states, p, q, s);
    }
  }

  // ---------------------------------------------------------------------------
  // Verdicts
  // ---------------------------------------------------------------------------

  datatype Status = Verified | VerifiedWithinBounds | Violated | VacuousWarning

  /** A failed existential formula is reported as a missing witness. */
  predicate IsExistential<P>(f: Formula<P>) {
    f.EF? || f.EX? || f.EG? || f.EU?
  }

  function StatusOf<P>(f: Formula<P>, holds: bool, exhaustive: bool): Status {
    if holds then (if exhaustive then Verified else VerifiedWithinBounds)
    else if IsExistential(f) then VacuousWarning else Violated
  }

  /** What a status says: whether the formula is good initially, whether the whole graph was seen, and, of a failure,
      whether a witness is missing or a counterexample found. */
  ghost predicate Reports<P>(f: Formula<P>, good: bool, exhaustive: bool, status: Status) {
    && (status in {Verified, VerifiedWithinBounds} <==> good)
    && (status == Verified <==> good && exhaustive)
    && (status == VacuousWarning <==> !good && (f.EF? || f.EX? || f.EG? || f.EU?))
  }

  /** The verdict on `f`: does it hold in every initial state of the explored graph? */
  method CheckTemporal<P, K(==,!new)>(f: Formula<P>, universe: set<K>, edges: seq<(K, K)>, eval: (P, K) -> Result<bool>,
                                      initial: seq<K>, exhaustive: bool)
    returns (r: Result<Status>, ghost index: GraphIndex<K>)
    ensures index.Valid(universe)
    ensures forall a, b :: b in index.Successors()(a) <==> (a, b) in edges && a in universe && b in universe
    ensures r.Err? <==> AtomFails(StructureOf(universe, index, eval), f)
    ensures r.Ok? ==>
              var sat := Sem(StructureOf(universe, index, eval), f);
              Reports(f, forall k | k in initial :: k in sat, exhaustive, r.value)
  {
    var built := BuildIndex(universe, edges);
    index := built;
    var answer := LabelFormula(f, universe, built, eval);
    if answer.Err? {
      return Err(answer.message), index;
    }
    var all := AnyOrAll(initial, answer.value, true);
    r := Ok(StatusOf(f, all, exhaustive));
  }
}
