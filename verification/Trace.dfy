/** Counterexample traces rebuilt from parent pointers (crates/checker/src/trace.rs). */
module Trace {
  import opened Bytes
  import opened Visited
  import opened Search
  import opened Levels
  import opened Wrappers

  datatype TraceStep<S> = TraceStep(transition: nat, pre: S, post: S)

  /** Consecutive steps meet, and each is a real step of the system. */
  ghost predicate IsRun<S(!new)>(sys: System<S>, steps: seq<TraceStep<S>>) {
    && (forall i | 0 <= i < |steps| :: RealStep(sys, steps[i].pre, steps[i].transition, steps[i].post))
    && (forall i | 0 < i < |steps| :: steps[i].pre == steps[i - 1].post)
  }

  /** A run from an initial state to `s`. */
  ghost predicate RunTo<S(!new)>(sys: System<S>, steps: seq<TraceStep<S>>, s: S) {
    && IsRun(sys, steps)
    && if steps == [] then s in sys.initial else steps[0].pre in sys.initial && steps[|steps| - 1].post == s
  }

  function Reversed<T>(s: seq<T>): (r: seq<T>)
    ensures |r| == |s| && forall i | 0 <= i < |s| :: r[i] == s[|s| - 1 - i]
  {
    seq(|s|, i requires 0 <= i < |s| => s[|s| - 1 - i])
  }

  /** The steps collected so far lead backwards from `canon` to `current`. */
  ghost predicate Backwards<S(!new)>(sys: System<S>, st: Store<S>, steps: seq<TraceStep<S>>, current: Key, canon: Key)
    requires current in st.byCanon && canon in st.byCanon
  {
    && (forall i | 0 <= i < |steps| :: RealStep(sys, steps[i].pre, steps[i].transition, steps[i].post))
    && (forall i | 0 < i < |steps| :: steps[i].post == steps[i - 1].pre)
    && (if steps == [] then current == canon
        else steps[0].post == st.byCanon[canon] && steps[|steps| - 1].pre == st.byCanon[current])
  }

  /** `canon` is `far` steps further from the start than `current`. */
  ghost predicate Nearer<S(!new)>(sys: System<S>, n: nat, current: Key, far: nat, canon: Key) {
    IsDistance(sys, n, current) && IsDistance(sys, n + far, canon)
  }

  lemma {:induction false} ParentIsNearer<S(!new)>(sys: System<S>, st: Store<S>, n: nat, current: Key, far: nat, canon: Key)
    requires st.Valid(sys.key) && GenuineForest(sys, st) && current in st.ids
    requires Nearer(sys, n, current, far, canon) && st.parents[current].parent.Some?
    ensures st.parents[current].transition.Some? && st.parents[current].parent.value in st.ids
    ensures n > 0 && Nearer(sys, n - 1, st.parents[current].parent.value, far + 1, canon)
    ensures RealStep(sys, st.byCanon[st.parents[current].parent.value], st.parents[current].transition.value, st.byCanon[current])
  {
    assert GenuineParent(sys, st, current);
    var a := st.parents[current].parent.value;
    var m: nat :| IsDistance(sys, m, a) && IsDistance(sys, m + 1, current);
    DistanceUnique(sys, m + 1, n, current);
  }

  lemma {:induction false} RootIsSeed<S(!new)>(sys: System<S>, st: Store<S>, n: nat, current: Key)
    requires st.Valid(sys.key) && GenuineForest(sys, st) && current in st.ids
    requires IsDistance(sys, n, current) && st.parents[current].parent.None?
    ensures n == 0 && st.byCanon[current] in sys.initial
  {
    assert GenuineParent(sys, st, current);
    DistanceUnique(sys, n, 0, current);
  }

  /** The trace to a stored key: a shortest run from an initial state to its stored state. */
  method TraceTo<S(!new)>(ghost sys: System<S>, visited: VisitedSet<S>, canon: Key) returns (steps: seq<TraceStep<S>>)
    requires visited.View().Valid(sys.key) && GenuineForest(sys, visited.View())
    ensures canon !in visited.parentsByCanon ==> steps == []
    ensures canon in visited.parentsByCanon ==>
              RunTo(sys, steps, visited.statesByCanon[canon]) && IsDistance(sys, |steps|, canon)
  {
    ghost var st := visited.View();
    steps := [];
    if canon !in visited.parentsByCanon {
      return;
    }
    var current := canon;
    ghost var n := StoredHasDistance(sys, st, canon);
    while visited.parentsByCanon[current].parent.Some?
      invariant current in st.ids && Backwards(sys, st, steps, current, canon)
      invariant Nearer(sys, n, current, |steps|, canon)
      decreases n
    {
      ParentIsNearer(sys, st, n, current, |steps|, canon);
      var parent := visited.parentsByCanon[current];
      var pre, post := visited.statesByCanon[parent.parent.value], visited.statesByCanon[current];
      steps := steps + [TraceStep(parent.transition.value, pre, post)];
      current := parent.parent.value;
      n := n - 1;
    }
    RootIsSeed(sys, st, n, current);
    steps := Reversed(steps);
  }

  /** The trace to the source of an edge, continued by that edge. */
  method TraceWithEdge<S(!new)>(ghost sys: System<S>, visited: VisitedSet<S>, pre: Key, t: nat, post: S)
    returns (steps: seq<TraceStep<S>>)
    requires visited.View().Valid(sys.key) && GenuineForest(sys, visited.View())
    requires pre in visited.parentsByCanon && RealStep(sys, visited.statesByCanon[pre], t, post)
    ensures RunTo(sys, steps, post) && |steps| > 0 && IsDistance(sys, |steps| - 1, pre)
    ensures steps[|steps| - 1] == TraceStep(t, visited.statesByCanon[pre], post)
  {
    steps := TraceTo(sys, visited, pre);
    steps := steps + [TraceStep(t, visited.statesByCanon[pre], post)];
  }
}
