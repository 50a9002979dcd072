/** From an exhausted search to a verdict about the whole system
    (crates/checker/src/search.rs, crates/checker/src/property.rs). */
module Checker {
  import opened Bytes
  import opened Visited
  import opened Properties
  import opened Search
  import opened Levels
  import opened Explore
  import opened Judging
  import LeadsTo
  import opened Ctl
  import opened Graph
  import opened Quotient
  import opened Wrappers

  // ---------------------------------------------------------------------------
  // The system as a graph on states
  // ---------------------------------------------------------------------------

  function PostStates<S>(posts: seq<Post<S>>): seq<S> {
    seq(|posts|, i requires 0 <= i < |posts| => posts[i].state)
  }

  function NextStates<S>(sys: System<S>): S -> seq<S> {
    s => PostStates(sys.step(s))
  }

  lemma {:induction false} NextIsPost<S(!new)>(sys: System<S>, s: S, t: S)
    ensures t in NextStates(sys)(s) <==> exists p :: p in sys.step(s) && p.state == t
  {
    var posts := sys.step(s);
    if p :| p in posts && p.state == t {
      var i :| 0 <= i < |posts| && posts[i] == p;
      assert PostStates(posts)[i] == t;
    }
  }

  /** On the states that runs visit, atoms are decided by the key. */
  ghost predicate AtomsByKey<S(!new), P(!new)>(sys: System<S>, eval: (P, S) -> Result<bool>) {
    forall p, s, t | Occurs(sys, s) && Occurs(sys, t) && sys.key(s) == sys.key(t) :: eval(p, s) == eval(p, t)
  }

  /** An injective key, as models without tokens have, makes both conditions immediate. */
  lemma {:induction false} InjectiveKeys<S(!new), P(!new)>(sys: System<S>, eval: (P, S) -> Result<bool>)
    requires InjectiveKey(sys)
    ensures Congruent(sys) && AtomsByKey(sys, eval)
  {
    forall s, t | Occurs(sys, s) && Occurs(sys, t) && sys.key(s) == sys.key(t)
      ensures FollowsSteps(sys, s, t)
    {
      assert s == t;
    }
  }

  // ---------------------------------------------------------------------------
  // An exhausted search
  // ---------------------------------------------------------------------------

  /** A key beyond distance `d` has a predecessor at distance `d`. */
  lemma {:induction false} LevelBelow<S(!new)>(sys: System<S>, n: nat, d: nat, k: Key) returns (a: Key)
    requires IsDistance(sys, n, k) && d <= n
    ensures IsDistance(sys, d, a)
    decreases n
  {
    if n == d {
      a := k;
    } else {
      DistanceNext(sys, n - 1, k);
      var b :| IsDistance(sys, n - 1, b) && KeyStep(sys, b, k);
      a := LevelBelow(sys, n - 1, d, b);
    }
  }

  lemma {:induction false} EmptyLevel<S(!new)>(sys: System<S>, st: Store<S>, d: nat, a: Key)
    requires AtLevel(sys, st, [], d)
    ensures !IsDistance(sys, d, a)
  {
    assert InFrontier(st, [], a) <==> IsDistance(sys, d, a);
  }

  /** An empty level ends the search: stored is exactly reachable. */
  lemma {:induction false} EmptyLevelIsAll<S(!new)>(sys: System<S>, st: Store<S>, d: nat)
    requires AtLevel(sys, st, [], d)
    ensures forall k {:trigger Reachable(sys, k)} :: k in st.ids <==> Reachable(sys, k)
  {
    forall k
      ensures k in st.ids <==> Reachable(sys, k)
    {
      assert k in st.ids <==> ReachWithin(sys, d, k);
      if Reachable(sys, k) {
        var n: nat :| ReachIn(sys, n, k);
        var m := LeastDistance(sys, n, k);
        if m >= d {
          var a := LevelBelow(sys, m, d, k);
          EmptyLevel(sys, st, d, a);
        }
      }
    }
  }

  /** Every stored key is reachable, whatever cut the search short. */
  lemma {:induction false} StoredIsReachable<S(!new)>(sys: System<S>, st: Store<S>, k: Key)
    requires st.Valid(sys.key) && GenuineForest(sys, st) && k in st.ids
    ensures Reachable(sys, k)
  {
    assert GenuineParent(sys, st, k);
    match st.parents[k]
    case Parent(None, None) => assert ReachIn(sys, 0, k);
    case Parent(Some(a), Some(_)) =>
      var n: nat :| IsDistance(sys, n, a) && IsDistance(sys, n + 1, k);
    case _ =>
  }

  lemma {:induction false} RecordHas<S(!new)>(edges: seq<Edge<S>>, a: Key, b: Key)
    ensures (a, b) in Record(true, [], edges) <==> exists e :: e in edges && e.pre == a && e.postKey == b
  {
    if edges != [] {
      var n := |edges| - 1;
      RecordHas(edges[..n], a, b);
      assert edges == edges[..n] + [edges[n]];
    }
  }

  /** The search saw everything: stored is reachable and every step of a stored state was observed. */
  ghost predicate Exhausted<S(!new)>(sys: System<S>, st: Store<S>, observed: seq<Edge<S>>) {
    && st.Valid(sys.key) && GenuineForest(sys, st)
    && (forall k {:trigger Reachable(sys, k)} :: k in st.ids <==> Reachable(sys, k))
    && Levels.Expanded(sys, st, [], observed) && ObservedStored(sys, st, observed)
  }

  lemma {:induction false} ReachableNext<S(!new)>(sys: System<S>, a: Key, b: Key)
    requires Reachable(sys, a) && KeyStep(sys, a, b)
    ensures Reachable(sys, b)
  {
    var n: nat :| ReachIn(sys, n, a);
    assert ReachIn(sys, n + 1, b);
  }

  /** The recorded edges are exactly the step relation on reachable keys. */
  lemma {:induction false} RecordedIsStep<S(!new)>(sys: System<S>, st: Store<S>, observed: seq<Edge<S>>, a: Key, b: Key)
    requires Congruent(sys) && Exhausted(sys, st, observed)
    ensures (a, b) in Record(true, [], observed) <==> Reachable(sys, a) && KeyStep(sys, a, b)
  {
    RecordHas(observed, a, b);
    if e :| e in observed && e.pre == a && e.postKey == b {
      assert StoredEdge(sys, st, e);
      var p :| p in sys.step(st.states[e.preId]) && e == EdgeOf(sys, st, e.preId, p);
      assert StepsTo(sys, st.states[e.preId], b);
      StoredOccurs(sys, st, e.preId);
      assert KeyStep(sys, a, b);
      assert a in st.ids;
    }
    if Reachable(sys, a) && KeyStep(sys, a, b) {
      var id := st.ids[a];
      StoredOccurs(sys, st, id);
      StoredStep(sys, st.states[id], b);
      var p :| p in sys.step(st.states[id]) && sys.key(p.state) == b;
      assert EdgeOf(sys, st, id, p) in observed;
    }
  }

  /** `quot` lists the recorded successors of the stored keys. */
  ghost predicate Lists<S(!new)>(st: Store<S>, observed: seq<Edge<S>>, quot: Key -> seq<Key>) {
    forall a, b :: b in quot(a) <==> (a, b) in Record(true, [], observed) && a in st.byCanon.Keys && b in st.byCanon.Keys
  }

  lemma {:induction false} ListedIsStep<S(!new)>(sys: System<S>, st: Store<S>, observed: seq<Edge<S>>, quot: Key -> seq<Key>, a: Key, b: Key)
    requires Congruent(sys) && Exhausted(sys, st, observed) && Lists(st, observed, quot)
    ensures b in quot(a) <==> Reachable(sys, a) && KeyStep(sys, a, b)
  {
    RecordedIsStep(sys, st, observed, a, b);
    if Reachable(sys, a) && KeyStep(sys, a, b) {
      ReachableNext(sys, a, b);
    }
    assert a in st.ids <==> Reachable(sys, a);
    assert b in st.ids <==> Reachable(sys, b);
  }

  /** The explored graph covers the reachable part of the system. */
  lemma {:induction false} GraphCovers<S(!new)>(sys: System<S>, st: Store<S>, observed: seq<Edge<S>>, quot: Key -> seq<Key>)
    requires Congruent(sys) && Exhausted(sys, st, observed) && Lists(st, observed, quot)
    ensures Covers(NextStates(sys), quot, sys.key, Runs(sys))
  {
    forall s, t | Runs(sys)(s) && t in NextStates(sys)(s)
      ensures Runs(sys)(t) && sys.key(t) in quot(sys.key(s))
    {
      StepProjects(sys, st, observed, quot, s, t);
    }
    forall s, k | Runs(sys)(s) && k in quot(sys.key(s))
      ensures Lifts(NextStates(sys), sys.key, s, k)
    {
      StepLifts(sys, st, observed, quot, s, k);
    }
  }

  lemma {:induction false} OccursIsReachable<S(!new)>(sys: System<S>, s: S)
    requires Occurs(sys, s)
    ensures Reachable(sys, sys.key(s))
  {
    var n: nat :| OccursAt(sys, n, s);
    OccursIsReached(sys, n, s);
  }

  lemma {:induction false} StepProjects<S(!new)>(sys: System<S>, st: Store<S>, observed: seq<Edge<S>>, quot: Key -> seq<Key>, s: S, t: S)
    requires Congruent(sys) && Exhausted(sys, st, observed) && Lists(st, observed, quot)
    requires Occurs(sys, s) && t in NextStates(sys)(s)
    ensures Occurs(sys, t) && sys.key(t) in quot(sys.key(s))
  {
    NextIsPost(sys, s, t);
    OccursNext(sys, s, t);
    assert StepsTo(sys, s, sys.key(t));
    assert KeyStep(sys, sys.key(s), sys.key(t));
    OccursIsReachable(sys, s);
    ListedIsStep(sys, st, observed, quot, sys.key(s), sys.key(t));
  }

  lemma {:induction false} StepLifts<S(!new)>(sys: System<S>, st: Store<S>, observed: seq<Edge<S>>, quot: Key -> seq<Key>, s: S, k: Key)
    requires Congruent(sys) && Exhausted(sys, st, observed) && Lists(st, observed, quot)
    requires Occurs(sys, s) && k in quot(sys.key(s))
    ensures Lifts(NextStates(sys), sys.key, s, k)
  {
    ListedIsStep(sys, st, observed, quot, sys.key(s), k);
    StoredStep(sys, s, k);
    var p :| p in sys.step(s) && sys.key(p.state) == k;
    NextIsPost(sys, s, p.state);
  }

  /** The evaluator the labeller uses: atoms are evaluated on the stored state of a key. */
  function StoredEval<S, P>(states: map<Key, S>, eval: (P, S) -> Result<bool>): (P, Key) -> Result<bool> {
    (p, k) => if k in states then eval(p, states[k]) else Err("missing state")
  }

  lemma {:induction false} LabelOfKey<S(!new), P(!new)>(sys: System<S>, eval: (P, S) -> Result<bool>, m: Structure<P, Key>, f: Formula<P>, s: S)
    requires Covers(NextStates(sys), m.succ, sys.key, Runs(sys))
    requires SameAtoms(eval, m.eval, sys.key, Runs(sys))
    requires Closed(m.succ, m.states) && sys.key(s) in m.states && Occurs(sys, s)
    ensures Holds(NextStates(sys), eval, f, s) <==> sys.key(s) in Sem(m, f)
  {
    QuotientPreserves(NextStates(sys), eval, m.succ, m.eval, sys.key, Runs(sys), f);
    SemIsHolds(m, f);
    assert Runs(sys)(s);
  }

  /** A label computed on the explored graph is the truth about the system:
      the stored key satisfies the formula exactly when every state of a run with that key does. */
  lemma {:induction false} LabelIsTruth<S(!new), P(!new)>(sys: System<S>, st: Store<S>, observed: seq<Edge<S>>, eval: (P, S) -> Result<bool>,
                                       index: GraphIndex<Key>, f: Formula<P>, s: S)
    requires Congruent(sys) && AtomsByKey(sys, eval) && Exhausted(sys, st, observed)
    requires index.Valid(st.byCanon.Keys) && Lists(st, observed, index.Successors())
    requires Occurs(sys, s)
    ensures Holds(NextStates(sys), eval, f, s) <==>
            sys.key(s) in Sem(StructureOf(st.byCanon.Keys, index, StoredEval(st.byCanon, eval)), f)
  {
    var m := StructureOf(st.byCanon.Keys, index, StoredEval(st.byCanon, eval));
    GraphCovers(sys, st, observed, index.Successors());
    StoredAtoms(sys, st, eval);
    OccursIsReachable(sys, s);
    assert sys.key(s) in st.ids;
    LabelOfKey(sys, eval, m, f, s);
  }

  lemma {:induction false} StoredAtoms<S(!new), P(!new)>(sys: System<S>, st: Store<S>, eval: (P, S) -> Result<bool>)
    requires AtomsByKey(sys, eval) && st.Valid(sys.key) && GenuineForest(sys, st)
    requires forall k {:trigger Reachable(sys, k)} :: k in st.ids <==> Reachable(sys, k)
    ensures SameAtoms(eval, StoredEval(st.byCanon, eval), sys.key, Runs(sys))
  {
    forall p, s | Runs(sys)(s)
      ensures eval(p, s) == StoredEval(st.byCanon, eval)(p, sys.key(s))
    {
      var k := sys.key(s);
      OccursIsReachable(sys, s);
      assert k in st.ids && sys.key(st.byCanon[k]) == k;
      StoredOccurs(sys, st, st.ids[k]);
    }
  }

  // ---------------------------------------------------------------------------
  // Finalising the temporal properties
  // ---------------------------------------------------------------------------

  /** The index of a valid labelling run over the stored graph. */
  ghost predicate IndexFor<S>(states: map<Key, S>, graph: seq<(Key, Key)>, index: GraphIndex<Key>) {
    && index.Valid(states.Keys)
    && forall a, b :: b in index.Successors()(a) <==> (a, b) in graph && a in states.Keys && b in states.Keys
  }

  /** `v` is what labelling gives for `f`. */
  ghost predicate LabelVerdict<P(!new)>(m: Structure<P, Key>, f: Formula<P>, initial: seq<Key>, exhaustive: bool, v: Status) {
    !AtomFails(m, f) && Reports(f, forall k | k in initial :: k in Sem(m, f), exhaustive, v)
  }

  ghost predicate LabelledBy<S, P(!new)>(m: Structure<P, Key>, f: Formula<P>, initial: seq<Key>, exhaustive: bool, v: Verdict<S>) {
    match v
    case Failure(_) => AtomFails(m, f)
    case Decided(status) => LabelVerdict(m, f, initial, exhaustive, status)
    case _ => false
  }

  ghost predicate Labelled<S, P(!new)>(states: map<Key, S>, graph: seq<(Key, Key)>, eval: (P, S) -> Result<bool>,
                                       f: Formula<P>, initial: seq<Key>, exhaustive: bool, v: Verdict<S>) {
    exists index: GraphIndex<Key> :: IndexFor(states, graph, index) &&
      LabelledBy(StructureOf(states.Keys, index, StoredEval(states, eval)), f, initial, exhaustive, v)
  }

  predicate FirstNamed<S, P>(properties: seq<Property<S, P>>, i: nat)
    requires i < |properties|
  {
    forall j | 0 <= j < i :: properties[j].name != properties[i].name
  }

  /** No other property carries the name of property `i`. */
  predicate OwnName<S, P>(properties: seq<Property<S, P>>, i: nat)
    requires i < |properties|
  {
    forall j | 0 <= j < |properties| && j != i :: properties[j].name != properties[i].name
  }

  /** The verdict of a property, if it has one. */
  ghost function Found<S>(verdicts: Verdicts<S>, name: string): Option<Verdict<S>> {
    if name in verdicts then Some(verdicts[name]) else None
  }

  /** `v` reports an answer of the memoised search from the recorded trigger edges. */
  ghost predicate Answered<S(!new), P>(sys: System<S>, p: Property<S, P>, states: map<Key, S>, compact: seq<CompactEdge>,
                                       v: Option<Verdict<S>>)
    requires p.LeadsToWithin?
  {
    exists r: LeadsTo.Response<S> :: v == Reported(r) &&
      (LeadsTo.KeyDecides(SchedulerFor(sys, p), Runs(sys)) ==>
         LeadsTo.Answers(SchedulerFor(sys, p), Runs(sys), LeadsTo.ResolveTriggerEdges(states, compact, p.name), p.budget, r))
  }

  /** What finalising a property gives: the verdict of its labelling, the answer of its response search, or nothing. */
  ghost predicate Settles<S(!new), P(!new)>(sys: System<S>, p: Property<S, P>, states: map<Key, S>, rec: Recording,
                                            eval: (P, S) -> Result<bool>, initial: seq<Key>, exhaustive: bool,
                                            v: Option<Verdict<S>>)
  {
    match p
    case Temporal(_, f) => v.Some? && Labelled(states, rec.graph, eval, f, initial, exhaustive, v.value)
    case AlwaysStep(_, _) => v.None?
    case LeadsToWithin(_, _, _, _, _) => Answered(sys, p, states, rec.compact, v)
  }

  method FinalizeOne<S(!new), P(!new)>(sys: System<S>, p: Property<S, P>, states: map<Key, S>, rec: Recording,
                                       eval: (P, S) -> Result<bool>, initial: seq<Key>, exhaustive: bool)
    returns (v: Option<Verdict<S>>)
    requires forall k | k in states :: Occurs(sys, states[k])
    ensures Settles(sys, p, states, rec, eval, initial, exhaustive, v)
    ensures v.Some? ==> !v.value.StepViolation? && (!exhaustive ==> v.value != Decided(Verified))
  {
    match p {
      case Temporal(_, f) =>
        var r;
        ghost var index;
        r, index := CheckTemporal(f, states.Keys, rec.graph, StoredEval(states, eval), initial, exhaustive);
        assert IndexFor(states, rec.graph, index);
        v := Some(match r case Err(m) => Failure(m) case Ok(status) => Decided(status));
      case AlwaysStep(_, _) =>
        v := None;
      case LeadsToWithin(name, _, _, budget, _) =>
        LeadsTo.SchedulerIsWellFormed(sys, p.allows, p.goal);
        var r := LeadsTo.FinalizeLeadsTo(SchedulerFor(sys, p), Runs(sys), states, rec.compact, name, budget);
        v := Reported(r);
    }
  }

  /** Property `k` has the verdict, or no verdict, that finalising it gives. */
  ghost predicate Settled<S(!new), P(!new)>(sys: System<S>, properties: seq<Property<S, P>>, k: nat, states: map<Key, S>,
                                            rec: Recording, eval: (P, S) -> Result<bool>, initial: seq<Key>, exhaustive: bool,
                                            after: Verdicts<S>)
    requires k < |properties|
  {
    Settles(sys, properties[k], states, rec, eval, initial, exhaustive, Found(after, properties[k].name))
  }

  /** Nothing but finalising this property can give its name a verdict. */
  predicate Decisive<S, P>(properties: seq<Property<S, P>>, k: nat, before: Verdicts<S>)
    requires k < |properties|
  {
    && properties[k].name !in before && FirstNamed(properties, k)
    && (properties[k].Temporal? || OwnName(properties, k))
  }

  lemma {:induction false} StillSettled<S(!new), P(!new)>(sys: System<S>, properties: seq<Property<S, P>>, i: nat, states: map<Key, S>,
                                                          rec: Recording, eval: (P, S) -> Result<bool>, initial: seq<Key>,
                                                          exhaustive: bool, before: Verdicts<S>, known: Verdicts<S>, after: Verdicts<S>)
    requires i < |properties| && Settled(sys, properties, i, states, rec, eval, initial, exhaustive, after)
    requires forall name | name != properties[i].name :: Found(after, name) == Found(known, name)
    requires forall k {:trigger Settled(sys, properties, k, states, rec, eval, initial, exhaustive, known)} |
               0 <= k < i && Decisive(properties, k, before) ::
               Settled(sys, properties, k, states, rec, eval, initial, exhaustive, known)
    requires properties[i].name !in known
    ensures forall k {:trigger Settled(sys, properties, k, states, rec, eval, initial, exhaustive, after)} |
              0 <= k <= i && Decisive(properties, k, before) ::
              Settled(sys, properties, k, states, rec, eval, initial, exhaustive, after)
  {
    forall k | 0 <= k < i && Decisive(properties, k, before)
      ensures Settled(sys, properties, k, states, rec, eval, initial, exhaustive, after)
    {
      assert Settled(sys, properties, k, states, rec, eval, initial, exhaustive, known);
    }
  }

  /** Every property that has no verdict yet is finalised; the first of a name to get a verdict wins. */
  method FinalizeProperties<S(!new), P(!new)>(sys: System<S>, properties: seq<Property<S, P>>, states: map<Key, S>, rec: Recording,
                                              eval: (P, S) -> Result<bool>, initial: seq<Key>, exhaustive: bool,
                                              before: Verdicts<S>)
    returns (after: Verdicts<S>)
    requires forall k | k in states :: Occurs(sys, states[k])
    ensures forall name | name in before :: name in after && after[name] == before[name]
    ensures forall name | name in after && name !in before ::
              !after[name].StepViolation? && (!exhaustive ==> after[name] != Decided(Verified))
    ensures forall k {:trigger Settled(sys, properties, k, states, rec, eval, initial, exhaustive, after)} |
              0 <= k < |properties| && Decisive(properties, k, before) ::
              Settled(sys, properties, k, states, rec, eval, initial, exhaustive, after)
  {
    after := before;
    for i := 0 to |properties|
      invariant forall name | name in before :: name in after && after[name] == before[name]
      invariant forall name | name in after && name !in before ::
                  !after[name].StepViolation? && (!exhaustive ==> after[name] != Decided(Verified))
      invariant forall k | i <= k < |properties| && FirstNamed(properties, k) && properties[k].name !in before ::
                  properties[k].name !in after
      invariant forall k {:trigger Settled(sys, properties, k, states, rec, eval, initial, exhaustive, after)} |
                  0 <= k < i && Decisive(properties, k, before) ::
                  Settled(sys, properties, k, states, rec, eval, initial, exhaustive, after)
    {
      var p := properties[i];
      ghost var known := after;
      if p.name !in after {
        var v := FinalizeOne(sys, p, states, rec, eval, initial, exhaustive);
        if v.Some? {
          after := after[p.name := v.value];
        }
        assert Found(after, p.name) == v;
        StillSettled(sys, properties, i, states, rec, eval, initial, exhaustive, before, known, after);
      }
    }
  }

  // ---------------------------------------------------------------------------
  // What the verdicts mean for the system
  // ---------------------------------------------------------------------------

  ghost predicate TrueInitially<S(!new), P>(sys: System<S>, eval: (P, S) -> Result<bool>, f: Formula<P>) {
    forall s | s in sys.initial :: Holds(NextStates(sys), eval, f, s)
  }

  /** Some atom of the formula has no value on some reachable state. */
  ghost predicate Undefined<S(!new), P>(sys: System<S>, eval: (P, S) -> Result<bool>, f: Formula<P>)
    decreases f
  {
    if f.Atom? then exists s :: Occurs(sys, s) && eval(f.atom, s).Err?
    else exists a | a in Args(f) :: Undefined(sys, eval, a)
  }

  /** The verdict tells the truth about the whole system. */
  ghost predicate Truthful<S(!new), P>(sys: System<S>, eval: (P, S) -> Result<bool>, f: Formula<P>, v: Verdict<S>) {
    match v
    case Failure(_) => Undefined(sys, eval, f)
    case Decided(status) => !Undefined(sys, eval, f) && Reports(f, TrueInitially(sys, eval, f), true, status)
    case _ => false
  }

  /** A step out of a state that some run visits, on which a step property of this name is refuted. */
  ghost predicate RealViolation<S(!new), P>(sys: System<S>, properties: seq<Property<S, P>>, name: string, v: Verdict<S>) {
    && v.StepViolation? && Occurs(sys, v.pre) && RealStep(sys, v.pre, v.transition, v.post)
    && exists p :: p in properties && p.AlwaysStep? && p.name == name && p.judge(v.pre, v.transition, v.post).Refuted?
  }

  lemma {:induction false} UndefinedIsFailure<S(!new), P(!new)>(sys: System<S>, st: Store<S>, eval: (P, S) -> Result<bool>,
                                                                m: Structure<P, Key>, f: Formula<P>)
    requires AtomsByKey(sys, eval) && st.Valid(sys.key) && GenuineForest(sys, st)
    requires forall k {:trigger Reachable(sys, k)} :: k in st.ids <==> Reachable(sys, k)
    requires m.states == st.byCanon.Keys && m.eval == StoredEval(st.byCanon, eval)
    ensures AtomFails(m, f) <==> Undefined(sys, eval, f)
    decreases f
  {
    StoredAtoms(sys, st, eval);
    if f.Atom? {
      if s :| Occurs(sys, s) && eval(f.atom, s).Err? {
        assert Runs(sys)(s);
        OccursIsReachable(sys, s);
        assert sys.key(s) in st.ids;
        assert m.eval(f.atom, sys.key(s)).Err?;
      }
      if k :| k in m.states && m.eval(f.atom, k).Err? {
        assert k in st.ids && sys.key(st.byCanon[k]) == k;
        StoredOccurs(sys, st, st.ids[k]);
      }
    } else {
      forall a | a in Args(f)
        ensures AtomFails(m, a) <==> Undefined(sys, eval, a)
      {
        UndefinedIsFailure(sys, st, eval, m, a);
      }
    }
  }

  function KeysOf<S>(key: S -> Key, states: seq<S>): seq<Key> {
    seq(|states|, i requires 0 <= i < |states| => key(states[i]))
  }

  /** On an exhausted search the labelling verdict is the truth. */
  lemma {:induction false} LabelledIsTruthful<S(!new), P(!new)>(sys: System<S>, st: Store<S>, observed: seq<Edge<S>>, eval: (P, S) -> Result<bool>,
                                             f: Formula<P>, v: Verdict<S>)
    requires Congruent(sys) && AtomsByKey(sys, eval) && Exhausted(sys, st, observed)
    requires Labelled(st.byCanon, Record(true, [], observed), eval, f, KeysOf(sys.key, sys.initial), true, v)
    ensures Truthful(sys, eval, f, v)
  {
    var states, graph := st.byCanon, Record(true, [], observed);
    var index: GraphIndex<Key> :| IndexFor(states, graph, index) &&
      LabelledBy(StructureOf(states.Keys, index, StoredEval(states, eval)), f, KeysOf(sys.key, sys.initial), true, v);
    var m := StructureOf(states.Keys, index, StoredEval(states, eval));
    UndefinedIsFailure(sys, st, eval, m, f);
    InitialLabels(sys, st, observed, eval, index, f);
    StatusIsTruthful(sys, eval, m, f, v);
  }

  lemma {:induction false} StatusIsTruthful<S(!new), P(!new)>(sys: System<S>, eval: (P, S) -> Result<bool>, m: Structure<P, Key>, f: Formula<P>,
                                           v: Verdict<S>)
    requires AtomFails(m, f) <==> Undefined(sys, eval, f)
    requires (forall k | k in KeysOf(sys.key, sys.initial) :: k in Sem(m, f)) <==> TrueInitially(sys, eval, f)
    requires LabelledBy(m, f, KeysOf(sys.key, sys.initial), true, v)
    ensures Truthful(sys, eval, f, v)
  {
  }

  lemma {:induction false} InitialLabels<S(!new), P(!new)>(sys: System<S>, st: Store<S>, observed: seq<Edge<S>>, eval: (P, S) -> Result<bool>,
                                        index: GraphIndex<Key>, f: Formula<P>)
    requires Congruent(sys) && AtomsByKey(sys, eval) && Exhausted(sys, st, observed)
    requires IndexFor(st.byCanon, Record(true, [], observed), index)
    ensures var sat := Sem(StructureOf(st.byCanon.Keys, index, StoredEval(st.byCanon, eval)), f);
            (forall k | k in KeysOf(sys.key, sys.initial) :: k in sat) <==> TrueInitially(sys, eval, f)
  {
    var sat := Sem(StructureOf(st.byCanon.Keys, index, StoredEval(st.byCanon, eval)), f);
    forall s | s in sys.initial
      ensures Holds(NextStates(sys), eval, f, s) <==> sys.key(s) in sat
    {
      assert OccursAt(sys, 0, s);
      LabelIsTruth(sys, st, observed, eval, index, f, s);
    }
    AllInitial(sys, eval, f, sat);
  }

  lemma {:induction false} AllInitial<S(!new), P(!new)>(sys: System<S>, eval: (P, S) -> Result<bool>, f: Formula<P>, sat: set<Key>)
    requires forall s | s in sys.initial :: Holds(NextStates(sys), eval, f, s) <==> sys.key(s) in sat
    ensures (forall k | k in KeysOf(sys.key, sys.initial) :: k in sat) <==> TrueInitially(sys, eval, f)
  {
    var keys := KeysOf(sys.key, sys.initial);
    assert forall i | 0 <= i < |keys| :: keys[i] == sys.key(sys.initial[i]);
    forall s | s in sys.initial
      ensures sys.key(s) in keys
    {
      var i :| 0 <= i < |sys.initial| && sys.initial[i] == s;
      assert keys[i] == sys.key(s);
    }
  }

  /** A verdict reached during the search names a real, reachable edge. */
  lemma {:induction false} FoundIsReal<S(!new), P>(sys: System<S>, properties: seq<Property<S, P>>, st: Store<S>, observed: seq<Edge<S>>,
                                verdicts: Verdicts<S>, name: string)
    requires st.Valid(sys.key) && GenuineForest(sys, st) && ObservedStored(sys, st, observed)
    requires Grounded(properties, observed, verdicts) && name in verdicts
    ensures verdicts[name].Failure? || RealViolation(sys, properties, name, verdicts[name])
  {
    var e :| e in observed && FoundOn(properties, name, verdicts[name], e.preState, e.transition, e.post);
    assert StoredEdge(sys, st, e);
    var q :| q in sys.step(st.states[e.preId]) && e == EdgeOf(sys, st, e.preId, q);
    StoredOccurs(sys, st, e.preId);
    assert RealStep(sys, e.preState, e.transition, e.post);
  }

  // ---------------------------------------------------------------------------
  // What the verdicts of a whole check say
  // ---------------------------------------------------------------------------

  function Reason(limit: Limit): string {
    match limit
    case MaxStates(_) => "search limit exceeded: maxStates"
    case MaxEdges(_) => "search limit exceeded: maxEdges"
    case MaxFrontier(_) => "search limit exceeded: maxFrontier"
  }

  /** The verdicts never pass anything by accident: an error or a real violation for every property. */
  ghost predicate NothingPasses<S(!new), P>(sys: System<S>, properties: seq<Property<S, P>>, verdicts: Verdicts<S>) {
    forall p | p in properties ::
      p.name in verdicts && (verdicts[p.name].Failure? || RealViolation(sys, properties, p.name, verdicts[p.name]))
  }

  /** Every temporal property with a name of its own has a truthful verdict. */
  ghost predicate TemporalTruth<S(!new), P>(sys: System<S>, properties: seq<Property<S, P>>, eval: (P, S) -> Result<bool>,
                                            verdicts: Verdicts<S>) {
    forall i {:trigger OwnName(properties, i)} | 0 <= i < |properties| && properties[i].Temporal? && OwnName(properties, i) ::
      properties[i].name in verdicts && Truthful(sys, eval, properties[i].formula, verdicts[properties[i].name])
  }

  /** Every step property left without a verdict passes on every step out of the keys less than `depth` steps away. */
  ghost predicate StepTruth<S(!new), P>(sys: System<S>, properties: seq<Property<S, P>>, verdicts: Verdicts<S>, depth: nat) {
    forall p {:trigger AllPass(sys, p, depth)} | p in properties && p.AlwaysStep? && p.name !in verdicts :: AllPass(sys, p, depth)
  }

  /** Every bounded-response property with a name of its own, where keys decide responses, has the verdict, or no
      verdict, that the runs after steps out of the keys less than `depth` steps away deserve. */
  ghost predicate ResponseTruth<S(!new), P>(sys: System<S>, properties: seq<Property<S, P>>, verdicts: Verdicts<S>, depth: nat) {
    forall i {:trigger OwnName(properties, i)} |
      0 <= i < |properties| && properties[i].LeadsToWithin? && OwnName(properties, i) && RespondsByKey(sys, properties[i]) ::
      Responds(sys, properties[i], Found(verdicts, properties[i].name), depth)
  }

  lemma {:induction false} LimitPassesNothing<S(!new), P>(sys: System<S>, properties: seq<Property<S, P>>, st: Store<S>, observed: seq<Edge<S>>,
                                       before: Verdicts<S>, after: Verdicts<S>, reason: string)
    requires st.Valid(sys.key) && GenuineForest(sys, st) && ObservedStored(sys, st, observed)
    requires Grounded(properties, observed, before)
    requires forall p | p in properties :: p.name in after
    requires forall name | name in after :: (name in before && after[name] == before[name]) || after[name] == Failure(reason)
    ensures NothingPasses(sys, properties, after)
  {
    forall p | p in properties
      ensures after[p.name].Failure? || RealViolation(sys, properties, p.name, after[p.name])
    {
      if p.name in before && after[p.name] == before[p.name] {
        FoundIsReal(sys, properties, st, observed, before, p.name);
      }
    }
  }

  lemma {:induction false} OnlyStepsAreEarly<S(!new), P>(properties: seq<Property<S, P>>, observed: seq<Edge<S>>, before: Verdicts<S>)
    requires Grounded(properties, observed, before)
    ensures forall name | name in before ::
              exists j :: 0 <= j < |properties| && properties[j].AlwaysStep? && properties[j].name == name
  {
    forall name | name in before
      ensures exists j :: 0 <= j < |properties| && properties[j].AlwaysStep? && properties[j].name == name
    {
      var e :| e in observed && FoundOn(properties, name, before[name], e.preState, e.transition, e.post);
      var p :| p in properties && p.AlwaysStep? && p.name == name;
      var j :| 0 <= j < |properties| && properties[j] == p;
    }
  }

  /** The finalised verdicts of a search that is not cut short. */
  ghost predicate Finalized<S(!new), P(!new)>(sys: System<S>, properties: seq<Property<S, P>>, eval: (P, S) -> Result<bool>,
                                              st: Store<S>, rec: Recording, exhaustive: bool, before: Verdicts<S>, after: Verdicts<S>)
  {
    && (forall name | name in before :: name in after && after[name] == before[name])
    && forall k {:trigger OwnName(properties, k)} | 0 <= k < |properties| && Decisive(properties, k, before) ::
         Settled(sys, properties, k, st.byCanon, rec, eval, KeysOf(sys.key, sys.initial), exhaustive, after)
  }

  /** Searching does not decide a property that is not a step property and shares its name with no other. */
  lemma {:induction false} OwnIsDecisive<S(!new), P>(properties: seq<Property<S, P>>, observed: seq<Edge<S>>, before: Verdicts<S>, i: nat)
    requires i < |properties| && !properties[i].AlwaysStep? && OwnName(properties, i)
    requires Grounded(properties, observed, before)
    ensures Decisive(properties, i, before)
  {
    OnlyStepsAreEarly(properties, observed, before);
  }

  lemma {:induction false} TemporalsAreTrue<S(!new), P(!new)>(sys: System<S>, properties: seq<Property<S, P>>, eval: (P, S) -> Result<bool>,
                                                              st: Store<S>, observed: seq<Edge<S>>, rec: Recording,
                                                              before: Verdicts<S>, after: Verdicts<S>)
    requires Congruent(sys) && AtomsByKey(sys, eval) && Exhausted(sys, st, observed)
    requires Grounded(properties, observed, before) && rec.graph == Record(RecordsEdges(properties), [], observed)
    requires Finalized(sys, properties, eval, st, rec, true, before, after)
    ensures TemporalTruth(sys, properties, eval, after)
  {
    forall i | 0 <= i < |properties| && properties[i].Temporal? && OwnName(properties, i)
      ensures properties[i].name in after && Truthful(sys, eval, properties[i].formula, after[properties[i].name])
    {
      OwnIsDecisive(properties, observed, before, i);
      assert Settled(sys, properties, i, st.byCanon, rec, eval, KeysOf(sys.key, sys.initial), true, after);
      LabelledIsTruthful(sys, st, observed, eval, properties[i].formula, after[properties[i].name]);
    }
  }

  lemma {:induction false} ResponsesAreTrue<S(!new), P(!new)>(sys: System<S>, properties: seq<Property<S, P>>, eval: (P, S) -> Result<bool>,
                                                              st: Store<S>, frontier: seq<nat>, d: nat, observed: seq<Edge<S>>,
                                                              rec: Recording, exhaustive: bool, before: Verdicts<S>, after: Verdicts<S>)
    requires AtLevel(sys, st, frontier, d) && GenuineForest(sys, st) && Levels.Expanded(sys, st, frontier, observed)
    requires ObservedStored(sys, st, observed) && rec.compact == RecordCompact(properties, [], observed)
    requires Grounded(properties, observed, before) && Finalized(sys, properties, eval, st, rec, exhaustive, before, after)
    ensures ResponseTruth(sys, properties, after, d)
  {
    forall i | 0 <= i < |properties| && properties[i].LeadsToWithin? && OwnName(properties, i) && RespondsByKey(sys, properties[i])
      ensures Responds(sys, properties[i], Found(after, properties[i].name), d)
    {
      var p := properties[i];
      OwnIsDecisive(properties, observed, before, i);
      assert Settled(sys, properties, i, st.byCanon, rec, eval, KeysOf(sys.key, sys.initial), exhaustive, after);
      var r: LeadsTo.Response<S> :| Found(after, p.name) == Reported(r) &&
        LeadsTo.Answers(SchedulerFor(sys, p), Runs(sys), LeadsTo.ResolveTriggerEdges(st.byCanon, rec.compact, p.name), p.budget, r);
      assert OnlyNamed(properties, p);
      AnswersAreTrue(sys, properties, p, st, frontier, d, observed, r);
    }
  }

  lemma {:induction false} StepsAreTrue<S(!new), P>(sys: System<S>, properties: seq<Property<S, P>>, st: Store<S>, frontier: seq<nat>, d: nat,
                                 observed: seq<Edge<S>>, before: Verdicts<S>, after: Verdicts<S>)
    requires AtLevel(sys, st, frontier, d) && GenuineForest(sys, st) && Levels.Expanded(sys, st, frontier, observed)
    requires Cleared(properties, observed, before) && forall name | name in before :: name in after
    ensures StepTruth(sys, properties, after, d)
  {
    forall p | p in properties && p.AlwaysStep? && p.name !in after
      ensures AllPass(sys, p, d)
    {
      ClearedPasses(sys, properties, st, frontier, d, observed, before, p);
    }
  }

  // ---------------------------------------------------------------------------
  // Distances that do not matter
  // ---------------------------------------------------------------------------

  /** Every state of a run has a key less than `d` steps away. */
  ghost predicate AllNear<S(!new)>(sys: System<S>, d: nat) {
    && (forall n: nat, k {:trigger IsDistance(sys, n, k)} | IsDistance(sys, n, k) :: n < d)
    && forall s {:trigger Nearby(sys, s, d)} | Occurs(sys, s) :: Nearby(sys, s, d)
  }

  lemma {:induction false} EmptyLevelIsFar<S(!new)>(sys: System<S>, st: Store<S>, d: nat)
    requires AtLevel(sys, st, [], d)
    ensures AllNear(sys, d)
  {
    forall n: nat, k | IsDistance(sys, n, k)
      ensures n < d
    {
      if n >= d {
        var a := LevelBelow(sys, n, d, k);
        EmptyLevel(sys, st, d, a);
      }
    }
    forall s | Occurs(sys, s)
      ensures Nearby(sys, s, d)
    {
      var n: nat :| OccursAt(sys, n, s);
      OccursIsReached(sys, n, s);
      var m := LeastDistance(sys, n, sys.key(s));
    }
  }

  /** What is true of everything less than `d` steps away is true within any distance, when that is everything. */
  lemma {:induction false} NearIsAll<S(!new), P>(sys: System<S>, properties: seq<Property<S, P>>, verdicts: Verdicts<S>, d: nat, e: nat)
    requires e <= d || AllNear(sys, d)
    requires StepTruth(sys, properties, verdicts, d) && ResponseTruth(sys, properties, verdicts, d)
    ensures StepTruth(sys, properties, verdicts, e) && ResponseTruth(sys, properties, verdicts, e)
  {
    forall s | Nearby(sys, s, e)
      ensures Nearby(sys, s, d)
    {
      var n: nat :| n < e && IsDistance(sys, n, sys.key(s));
    }
    forall p | p in properties && p.AlwaysStep? && p.name !in verdicts
      ensures AllPass(sys, p, e)
    {
      assert AllPass(sys, p, d);
    }
    forall i | 0 <= i < |properties| && properties[i].LeadsToWithin? && OwnName(properties, i) && RespondsByKey(sys, properties[i])
      ensures Responds(sys, properties[i], Found(verdicts, properties[i].name), e)
    {
      assert Responds(sys, properties[i], Found(verdicts, properties[i].name), d);
    }
  }

  // ---------------------------------------------------------------------------
  // The whole check
  // ---------------------------------------------------------------------------

  /** When all verdicts came during the search, every property is a step property or shares its name with one. */
  lemma {:induction false} TerminalIsTruth<S(!new), P>(sys: System<S>, properties: seq<Property<S, P>>, eval: (P, S) -> Result<bool>,
                                      observed: seq<Edge<S>>, before: Verdicts<S>, after: Verdicts<S>, depth: nat)
    requires Grounded(properties, observed, before)
    requires AllTerminal(properties, before) && forall name | name in before :: name in after
    ensures TemporalTruth(sys, properties, eval, after)
    ensures StepTruth(sys, properties, after, depth) && ResponseTruth(sys, properties, after, depth)
  {
    forall p | p in properties
      ensures p.name in after
    {
      var i :| 0 <= i < |properties| && properties[i] == p;
    }
    OnlyStepsAreEarly(properties, observed, before);
  }

  /** Check every property: search, then judge what was found. A limit passes nothing; an exhausted search decides
      temporal properties on the whole system; step and response verdicts are true of everything less than `depth`
      steps away, after an exhausted search of every run; a bounded search goes as deep as it may and never claims
      "verified"; a limit names a bound that is set. */
  method CheckModel<S(!new), P(!new)>(sys: System<S>, properties: seq<Property<S, P>>, eval: (P, S) -> Result<bool>,
                                      options: Options, maxDepth: nat, workerCount: nat, shardOf: Key -> nat, shards: nat)
    returns (verdicts: Verdicts<S>, limit: Option<Limit>, exhaustive: bool, stored: nat, edges: nat, depth: nat)
    requires Congruent(sys) && forall k :: shardOf(k) < shards
    ensures limit.Some? ==> NothingPasses(sys, properties, verdicts)
    ensures options.maxEdges.Some? ==> edges <= options.maxEdges.value
    ensures options.maxStates.Some? ==> stored <= options.maxStates.value || stored <= |sys.initial|
    ensures limit.None? && exhaustive && AtomsByKey(sys, eval) ==> TemporalTruth(sys, properties, eval, verdicts)
    ensures limit.None? ==> forall d: nat | d <= depth || exhaustive ::
              StepTruth(sys, properties, verdicts, d) && ResponseTruth(sys, properties, verdicts, d)
    ensures limit.None? && !exhaustive ==> forall name | name in verdicts :: verdicts[name] != Decided(Verified)
    ensures depth <= maxDepth && (limit.None? && !exhaustive ==> depth == maxDepth)
    ensures limit.Some? ==> Names(options, limit.value)
  {
    var visited, frontier, now;
    ghost var observed;
    visited, frontier, depth, now, observed := RunSearch(sys, properties, options, maxDepth, workerCount, shardOf, shards);
    ghost var st := visited.View();
    limit, stored, edges, exhaustive := now.limit, visited.Len(), now.edgeCount, frontier == [];
    if limit.Some? {
      verdicts := ApplySearchLimitVerdicts(properties, now.verdicts, Reason(limit.value));
      LimitPassesNothing(sys, properties, st, observed, now.verdicts, verdicts, Reason(limit.value));
    } else {
      AllStoredOccur(sys, st);
      var rec := now.rec;
      verdicts := FinalizeProperties(sys, properties, visited.statesByCanon, rec, eval,
                                     KeysOf(sys.key, sys.initial), exhaustive, now.verdicts);
      forall k | 0 <= k < |properties| && Decisive(properties, k, now.verdicts)
        ensures Settled(sys, properties, k, st.byCanon, rec, eval, KeysOf(sys.key, sys.initial), exhaustive, verdicts)
      {
      }
      Conclude(sys, properties, eval, options, st, frontier, depth, observed, now, verdicts);
    }
  }

  lemma {:induction false} AllStoredOccur<S(!new)>(sys: System<S>, st: Store<S>)
    requires st.Valid(sys.key) && GenuineForest(sys, st)
    ensures forall k | k in st.byCanon :: Occurs(sys, st.byCanon[k])
  {
    forall k | k in st.byCanon
      ensures Occurs(sys, st.byCanon[k])
    {
      StoredOccurs(sys, st, st.ids[k]);
    }
  }

  lemma {:induction false} Conclude<S(!new), P(!new)>(sys: System<S>, properties: seq<Property<S, P>>, eval: (P, S) -> Result<bool>,
                                   options: Options, st: Store<S>, frontier: seq<nat>, depth: nat, observed: seq<Edge<S>>,
                                   now: Progress<S>, verdicts: Verdicts<S>)
    requires Congruent(sys) && Searching(sys, properties, options, st, frontier, depth, observed, now) && now.limit.None?
    requires Finalized(sys, properties, eval, st, now.rec, frontier == [], now.verdicts, verdicts)
    requires forall name | name in verdicts && name !in now.verdicts && frontier != [] :: verdicts[name] != Decided(Verified)
    ensures frontier == [] && AtomsByKey(sys, eval) ==> TemporalTruth(sys, properties, eval, verdicts)
    ensures forall d: nat | d <= depth || frontier == [] ::
              StepTruth(sys, properties, verdicts, d) && ResponseTruth(sys, properties, verdicts, d)
    ensures frontier != [] ==> forall name | name in verdicts :: verdicts[name] != Decided(Verified)
  {
    EarlyIsNotVerified(properties, observed, now.verdicts);
    if now.terminal {
      forall d: nat {
        TerminalIsTruth(sys, properties, eval, observed, now.verdicts, verdicts, d);
      }
    } else {
      var rec := now.rec;
      RecordAllIs(properties, observed);
      StepsAreTrue(sys, properties, st, frontier, depth, observed, now.verdicts, verdicts);
      ResponsesAreTrue(sys, properties, eval, st, frontier, depth, observed, rec, frontier == [], now.verdicts, verdicts);
      if frontier == [] {
        EmptyLevelIsAll(sys, st, depth);
        EmptyLevelIsFar(sys, st, depth);
        if AtomsByKey(sys, eval) {
          TemporalsAreTrue(sys, properties, eval, st, observed, rec, now.verdicts, verdicts);
        }
      }
      forall d: nat | d <= depth || frontier == [] {
        NearIsAll(sys, properties, verdicts, depth, d);
      }
    }
  }

  lemma {:induction false} EarlyIsNotVerified<S(!new), P>(properties: seq<Property<S, P>>, observed: seq<Edge<S>>, before: Verdicts<S>)
    requires Grounded(properties, observed, before)
    ensures forall name | name in before :: !before[name].Decided?
  {
    forall name | name in before
      ensures !before[name].Decided?
    {
      var e :| e in observed && FoundOn(properties, name, before[name], e.preState, e.transition, e.post);
    }
  }

  // ---------------------------------------------------------------------------
  // Invariants
  // ---------------------------------------------------------------------------

  /** The states that runs visit are those reached from an initial state in the system's graph. */
  lemma {:induction false} OccursIsReach<S(!new)>(sys: System<S>, t: S)
    ensures Occurs(sys, t) <==> exists s :: s in sys.initial && Reach(NextStates(sys), s, t)
  {
    if Occurs(sys, t) {
      var n: nat :| OccursAt(sys, n, t);
      var s := RunTo(sys, n, t);
    }
    if s :| s in sys.initial && Reach(NextStates(sys), s, t) {
      var r :| PathFromTo(NextStates(sys), r, s, t);
      RunOccurs(sys, r, |r| - 1);
    }
  }

  lemma {:induction false} RunTo<S(!new)>(sys: System<S>, n: nat, t: S) returns (s: S)
    requires OccursAt(sys, n, t)
    ensures s in sys.initial && Reach(NextStates(sys), s, t)
  {
    if n == 0 {
      s := t;
      ReachRefl(NextStates(sys), s);
    } else {
      var r :| OccursAt(sys, n - 1, r) && IsStep(sys, r, t);
      s := RunTo(sys, n - 1, r);
      NextIsPost(sys, r, t);
      ReachEdge(NextStates(sys), r, t);
      ReachTrans(NextStates(sys), s, r, t);
    }
  }

  lemma {:induction false} RunOccurs<S(!new)>(sys: System<S>, r: seq<S>, i: nat)
    requires IsPath(NextStates(sys), r) && r[0] in sys.initial && i < |r|
    ensures OccursAt(sys, i, r[i])
  {
    if i > 0 {
      RunOccurs(sys, r, i - 1);
      assert Step(NextStates(sys), r, i - 1);
      NextIsPost(sys, r[i - 1], r[i]);
      assert IsStep(sys, r[i - 1], r[i]);
    }
  }

  ghost predicate Everywhere<S(!new), P>(sys: System<S>, eval: (P, S) -> Result<bool>, p: P) {
    forall s {:trigger eval(p, s)} | Occurs(sys, s) :: eval(p, s) == Ok(true)
  }

  /** An `AG p` that is true initially says exactly that `p` holds in every state that any run visits. */
  lemma {:induction false} InvariantIsEverywhere<S(!new), P(!new)>(sys: System<S>, eval: (P, S) -> Result<bool>, p: P)
    ensures TrueInitially(sys, eval, AG(Atom(p))) <==> Everywhere(sys, eval, p)
  {
    if TrueInitially(sys, eval, AG(Atom(p))) {
      forall t | Occurs(sys, t)
        ensures eval(p, t) == Ok(true)
      {
        OccursIsReach(sys, t);
        var s :| s in sys.initial && Reach(NextStates(sys), s, t);
        assert Holds(NextStates(sys), eval, AG(Atom(p)), s);
        assert Holds(NextStates(sys), eval, Atom(p), t);
      }
    }
    if Everywhere(sys, eval, p) {
      forall s, t | s in sys.initial && Reach(NextStates(sys), s, t)
        ensures Holds(NextStates(sys), eval, Atom(p), t)
      {
        OccursIsReach(sys, t);
      }
    }
  }

  /** Some run visits a state where the atom has no value. */
  ghost predicate NoValue<S(!new), P>(sys: System<S>, eval: (P, S) -> Result<bool>, p: P) {
    exists s :: Occurs(sys, s) && eval(p, s).Err?
  }

  /** After an exhausted check an invariant is verified exactly when it holds in every state that any run visits,
      and otherwise violated, unless it has no value somewhere. */
  lemma {:induction false} InvariantVerdict<S(!new), P(!new)>(sys: System<S>, properties: seq<Property<S, P>>, eval: (P, S) -> Result<bool>,
                                                              verdicts: Verdicts<S>, i: nat, p: P)
    requires i < |properties| && OwnName(properties, i)
    requires properties[i].Temporal? && properties[i].formula == AG(Atom(p))
    requires TemporalTruth(sys, properties, eval, verdicts)
    ensures Found(verdicts, properties[i].name) == Some(Decided(Verified)) <==> Everywhere(sys, eval, p)
    ensures Found(verdicts, properties[i].name) == Some(Decided(Violated)) <==>
            !Everywhere(sys, eval, p) && !NoValue(sys, eval, p)
  {
    InvariantIsEverywhere(sys, eval, p);
    assert Args(AG(Atom(p))) == [Atom(p)];
    assert Undefined(sys, eval, Atom(p)) <==> NoValue(sys, eval, p);
    assert Undefined(sys, eval, AG(Atom(p))) <==> Undefined(sys, eval, Atom(p));
  }
}
