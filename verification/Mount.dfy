/** Resetting mount-scoped variables (crates/checker/src/mount.rs). */
module Mount {
  import opened Mapping
  import opened Values
  import opened Wrappers

  /** A variable: its initial values, and the mount guard of a local. */
  datatype Variable = Variable(initials: seq<Value>, guard: Option<State -> bool>)

  // ---------------------------------------------------------------------------
  // One variable, one state
  // ---------------------------------------------------------------------------

  predicate Active(v: Variable, s: State) {
    v.guard.Some? && v.guard.value(s)
  }

  predicate WasActive(v: Variable, previous: Option<State>) {
    previous.Some? && Active(v, previous.value)
  }

  function Choices(s: State, i: nat, initials: seq<Value>): (r: seq<State>)
    ensures |r| == |initials| && forall k | 0 <= k < |r| :: r[k] == WithVar(s, i, initials[k])
  {
    seq(|initials|, k requires 0 <= k < |initials| => WithVar(s, i, initials[k]))
  }

  /** Variable `i` of one state: unmounted, kept, or set to each of its initial values. */
  function ResetOne(v: Variable, previous: Option<State>, preserve: bool, s: State, i: nat): seq<State> {
    if v.guard.None? then [s]
    else if preserve && Active(v, s) then [s]
    else if Active(v, s) && !WasActive(v, previous) then Choices(s, i, v.initials)
    else if Active(v, s) then [s]
    else [WithVar(s, i, UNMOUNTED)]
  }

  function Resetter(v: Variable, previous: Option<State>, preserve: bool, i: nat): State -> seq<State> {
    s => ResetOne(v, previous, preserve, s, i)
  }

  // ---------------------------------------------------------------------------
  // All variables
  // ---------------------------------------------------------------------------

  /** The states after treating the first `n` variables. */
  function ResetUpTo(vars: seq<Variable>, previous: Option<State>, preserve: bool, s: State, n: nat): seq<State>
    requires n <= |vars|
  {
    if n == 0 then [s] else
    FlatMap(Resetter(vars[n - 1], previous, preserve, n - 1), ResetUpTo(vars, previous, preserve, s, n - 1))
  }

  method ResetMountLocals(vars: seq<Variable>, previous: Option<State>, next: State, preserve: bool) returns (states: seq<State>)
    ensures states == ResetUpTo(vars, previous, preserve, next, |vars|)
  {
    states := [next];
    for i := 0 to |vars|
      invariant states == ResetUpTo(vars, previous, preserve, next, i)
    {
      if vars[i].guard.None? {
        FlatMapSame(Resetter(vars[i], previous, preserve, i), states);
      } else {
        states := ResetStates(vars[i], previous, preserve, states, i);
      }
    }
  }

  method ResetStates(v: Variable, previous: Option<State>, preserve: bool, states: seq<State>, i: nat)
    returns (nextStates: seq<State>)
    ensures nextStates == FlatMap(Resetter(v, previous, preserve, i), states)
  {
    nextStates := [];
    for k := 0 to |states|
      invariant nextStates == FlatMap(Resetter(v, previous, preserve, i), states[..k])
    {
      FlatMapSnoc(Resetter(v, previous, preserve, i), states, k);
      nextStates := nextStates + ResetOne(v, previous, preserve, states[k], i);
    }
    assert states[..|states|] == states;
  }

  // ---------------------------------------------------------------------------
  // What a reset means
  // ---------------------------------------------------------------------------

  /** The states agree on globals and on the first `n` variables. */
  ghost predicate AgreeBelow(vars: seq<Variable>, n: nat, s: State, t: State) {
    && |s| == |t| == |vars|
    && forall j | 0 <= j < |vars| && (j < n || vars[j].guard.None?) :: s[j] == t[j]
  }

  /** Every mount guard reads only globals and locals declared before its own variable. */
  ghost predicate Layered(vars: seq<Variable>) {
    forall i, s, t {:trigger GuardAgrees(vars, i, s, t)} | 0 <= i < |vars| && AgreeBelow(vars, i, s, t) :: GuardAgrees(vars, i, s, t)
  }

  ghost predicate GuardAgrees(vars: seq<Variable>, i: nat, s: State, t: State)
    requires i < |vars|
  {
    Active(vars[i], s) == Active(vars[i], t)
  }

  /** What variable `i` of a result must be. */
  ghost predicate Settled(v: Variable, previous: Option<State>, preserve: bool, s: State, t: State, i: nat)
    requires i < |s| && i < |t|
  {
    if v.guard.None? then t[i] == s[i]
    else if !Active(v, t) then t[i] == UNMOUNTED
    else if preserve || WasActive(v, previous) then t[i] == s[i]
    else t[i] in v.initials
  }

  /** `t` is a complete reset of `s`. */
  ghost predicate IsReset(vars: seq<Variable>, previous: Option<State>, preserve: bool, s: State, t: State)
    requires |s| == |vars|
  {
    |t| == |vars| && forall i | 0 <= i < |vars| :: Settled(vars[i], previous, preserve, s, t, i)
  }

  /** The first `n` variables are settled, the others untouched. */
  ghost predicate ResetBelow(vars: seq<Variable>, previous: Option<State>, preserve: bool, s: State, t: State, n: nat)
    requires |s| == |vars| && n <= |vars|
  {
    && |t| == |vars|
    && (forall i | 0 <= i < n :: Settled(vars[i], previous, preserve, s, t, i))
    && forall i | n <= i < |vars| :: t[i] == s[i]
  }

  lemma {:induction false} GuardsAgree(vars: seq<Variable>, n: nat, s: State, t: State)
    requires Layered(vars) && n <= |vars| && AgreeBelow(vars, n, s, t)
    ensures forall i | 0 <= i <= n && i < |vars| :: Active(vars[i], s) == Active(vars[i], t)
  {
    forall i | 0 <= i <= n && i < |vars|
      ensures Active(vars[i], s) == Active(vars[i], t)
    {
      assert AgreeBelow(vars, i, s, t);
      assert GuardAgrees(vars, i, s, t);
    }
  }

  /** One more variable: a result with the first `n + 1` variables settled comes from one with `n`. */
  lemma {:induction false} OneMoreSettled(vars: seq<Variable>, previous: Option<State>, preserve: bool, s: State, n: nat, m: State, t: State)
    requires Layered(vars) && n < |vars| == |s|
    requires ResetBelow(vars, previous, preserve, s, m, n) && t in ResetOne(vars[n], previous, preserve, m, n)
    ensures ResetBelow(vars, previous, preserve, s, t, n + 1)
  {
    assert forall j | 0 <= j < |vars| && j != n :: t[j] == m[j];
    assert AgreeBelow(vars, n, m, t);
    GuardsAgree(vars, n, m, t);
  }

  /** Put variable `n` back to what it was: the state one variable earlier. */
  lemma {:induction false} OneLessSettled(vars: seq<Variable>, previous: Option<State>, preserve: bool, s: State, n: nat, t: State)
    returns (m: State)
    requires Layered(vars) && n < |vars| == |s|
    requires ResetBelow(vars, previous, preserve, s, t, n + 1)
    ensures ResetBelow(vars, previous, preserve, s, m, n) && t in ResetOne(vars[n], previous, preserve, m, n)
  {
    m := t[n := s[n]];
    var v := vars[n];
    assert v.guard.None? ==> m == t;
    assert AgreeBelow(vars, n, m, t);
    GuardsAgree(vars, n, m, t);
    assert t == m[n := t[n]];
    if Active(v, t) && !preserve && !WasActive(v, previous) {
      var k :| 0 <= k < |v.initials| && v.initials[k] == t[n];
      assert Choices(m, n, v.initials)[k] == t;
    } else if Active(v, t) {
      assert m == t;
    }
  }

  /** `states` are exactly the states with the first `n` variables settled. */
  ghost predicate AllSettled(vars: seq<Variable>, previous: Option<State>, preserve: bool, s: State, n: nat, states: seq<State>)
    requires n <= |vars| == |s|
  {
    forall t {:trigger ResetBelow(vars, previous, preserve, s, t, n)} :: t in states <==> ResetBelow(vars, previous, preserve, s, t, n)
  }

  lemma {:induction false} StepSettles(vars: seq<Variable>, previous: Option<State>, preserve: bool, s: State, n: nat, before: seq<State>, after: seq<State>)
    requires Layered(vars) && n < |vars| == |s| && AllSettled(vars, previous, preserve, s, n, before)
    requires after == FlatMap(Resetter(vars[n], previous, preserve, n), before)
    ensures AllSettled(vars, previous, preserve, s, n + 1, after)
  {
    var f := Resetter(vars[n], previous, preserve, n);
    forall t
      ensures t in after <==> ResetBelow(vars, previous, preserve, s, t, n + 1)
    {
      FlatMapHas(f, before, t);
      if t in after {
        var m :| m in before && t in f(m);
        assert ResetBelow(vars, previous, preserve, s, m, n);
        OneMoreSettled(vars, previous, preserve, s, n, m, t);
      }
      if ResetBelow(vars, previous, preserve, s, t, n + 1) {
        var m := OneLessSettled(vars, previous, preserve, s, n, t);
        assert m in before && t in f(m);
      }
    }
  }

  lemma {:induction false} ResetUpToExact(vars: seq<Variable>, previous: Option<State>, preserve: bool, s: State, n: nat)
    requires Layered(vars) && n <= |vars| == |s|
    ensures AllSettled(vars, previous, preserve, s, n, ResetUpTo(vars, previous, preserve, s, n))
    decreases n
  {
    if n == 0 {
      forall t
        ensures t in [s] <==> ResetBelow(vars, previous, preserve, s, t, 0)
      {
        if ResetBelow(vars, previous, preserve, s, t, 0) {
          assert t == s;
        }
      }
    } else {
      var before, after := ResetUpTo(vars, previous, preserve, s, n - 1), ResetUpTo(vars, previous, preserve, s, n);
      ResetUpToExact(vars, previous, preserve, s, n - 1);
      StepSettles(vars, previous, preserve, s, n - 1, before, after);
    }
  }

  /** With layered guards a reset returns exactly the states in which inactive locals are unmounted,
      newly active ones hold an initial value, and everything else is untouched. */
  lemma {:induction false} ResetIsExact(vars: seq<Variable>, previous: Option<State>, preserve: bool, s: State, t: State)
    requires Layered(vars) && |vars| == |s|
    ensures t in ResetUpTo(vars, previous, preserve, s, |vars|) <==> IsReset(vars, previous, preserve, s, t)
  {
    ResetUpToExact(vars, previous, preserve, s, |vars|);
    assert ResetBelow(vars, previous, preserve, s, t, |vars|) <==> IsReset(vars, previous, preserve, s, t);
  }

  /** Resetting a result against itself changes nothing. */
  lemma {:induction false} ResetIsIdempotent(vars: seq<Variable>, previous: Option<State>, preserve: bool, s: State, t: State)
    requires Layered(vars) && |vars| == |s| && t in ResetUpTo(vars, previous, preserve, s, |vars|)
    ensures |t| == |vars| && ResetUpTo(vars, Some(t), false, t, |vars|) == [t]
  {
    ResetIsExact(vars, previous, preserve, s, t);
    SettledStays(vars, t, |vars|);
  }

  lemma {:induction false} SettledStays(vars: seq<Variable>, t: State, n: nat)
    requires n <= |vars| == |t|
    requires forall i | 0 <= i < |vars| && vars[i].guard.Some? && !Active(vars[i], t) :: t[i] == UNMOUNTED
    ensures ResetUpTo(vars, Some(t), false, t, n) == [t]
    decreases n
  {
    if n > 0 {
      SettledStays(vars, t, n - 1);
      var v := vars[n - 1];
      if v.guard.Some? && !Active(v, t) {
        assert t[n - 1 := UNMOUNTED] == t;
      }
      FlatMapOne(Resetter(v, Some(t), false, n - 1), t);
    }
  }

  /** Normalising an initial state never branches. */
  lemma {:induction false} NormalisingIsSingle(vars: seq<Variable>, s: State, n: nat)
    requires n <= |vars| == |s|
    ensures |ResetUpTo(vars, None, true, s, n)| == 1
    decreases n
  {
    if n > 0 {
      NormalisingIsSingle(vars, s, n - 1);
      var before := ResetUpTo(vars, None, true, s, n - 1);
      FlatMapLength(Resetter(vars[n - 1], None, true, n - 1), before, 1);
    }
  }

  // ---------------------------------------------------------------------------
  // How many branches
  // ---------------------------------------------------------------------------

  /** Every mount guard reads only globals. */
  ghost predicate GlobalGuards(vars: seq<Variable>) {
    forall i, s, t {:trigger GuardAgrees(vars, i, s, t)} | 0 <= i < |vars| && AgreeBelow(vars, 0, s, t) :: GuardAgrees(vars, i, s, t)
  }

  /** The product of the initial-value counts of the newly active locals. */
  ghost function Branches(vars: seq<Variable>, previous: Option<State>, s: State, n: nat): nat
    requires n <= |vars|
  {
    if n == 0 then 1 else
    Branches(vars, previous, s, n - 1) * Factor(vars[n - 1], previous, s)
  }

  ghost function Factor(v: Variable, previous: Option<State>, s: State): nat {
    if Active(v, s) && !WasActive(v, previous) then |v.initials| else 1
  }

  ghost predicate AllAgree(vars: seq<Variable>, s: State, states: seq<State>) {
    forall t {:trigger AgreeBelow(vars, 0, s, t)} | t in states :: AgreeBelow(vars, 0, s, t)
  }

  lemma {:induction false} StepKeepsGlobals(vars: seq<Variable>, previous: Option<State>, s: State, n: nat, before: seq<State>, after: seq<State>)
    requires n < |vars| && AllAgree(vars, s, before) && after == FlatMap(Resetter(vars[n], previous, false, n), before)
    ensures AllAgree(vars, s, after)
  {
    var f := Resetter(vars[n], previous, false, n);
    forall t | t in after
      ensures AgreeBelow(vars, 0, s, t)
    {
      FlatMapHas(f, before, t);
      var m :| m in before && t in f(m);
      assert AgreeBelow(vars, 0, s, m);
    }
  }

  lemma {:induction false} SameActivity(vars: seq<Variable>, i: nat, s: State, t: State)
    requires GlobalGuards(vars) && i < |vars| && AgreeBelow(vars, 0, s, t)
    ensures Active(vars[i], s) == Active(vars[i], t)
  {
    assert GuardAgrees(vars, i, s, t);
  }

  lemma {:induction false} StepBranches(vars: seq<Variable>, previous: Option<State>, s: State, n: nat, before: seq<State>)
    requires GlobalGuards(vars) && n < |vars| && AllAgree(vars, s, before)
    ensures |FlatMap(Resetter(vars[n], previous, false, n), before)| == |before| * Factor(vars[n], previous, s)
  {
    var f := Resetter(vars[n], previous, false, n);
    forall t | t in before
      ensures |f(t)| == Factor(vars[n], previous, s)
    {
      assert AgreeBelow(vars, 0, s, t);
      SameActivity(vars, n, s, t);
      OneBranches(vars[n], previous, t, n);
    }
    FlatMapLength(f, before, Factor(vars[n], previous, s));
  }

  /** With guards over globals the number of branches is that product. */
  lemma {:induction false} ResetBranches(vars: seq<Variable>, previous: Option<State>, s: State, n: nat)
    requires GlobalGuards(vars) && n <= |vars| == |s|
    ensures |ResetUpTo(vars, previous, false, s, n)| == Branches(vars, previous, s, n)
    ensures AllAgree(vars, s, ResetUpTo(vars, previous, false, s, n))
    decreases n
  {
    if n > 0 {
      var before, after := ResetUpTo(vars, previous, false, s, n - 1), ResetUpTo(vars, previous, false, s, n);
      ResetBranches(vars, previous, s, n - 1);
      StepBranches(vars, previous, s, n - 1, before);
      StepKeepsGlobals(vars, previous, s, n - 1, before, after);
    }
  }

  lemma {:induction false} OneBranches(v: Variable, previous: Option<State>, s: State, i: nat)
    ensures |ResetOne(v, previous, false, s, i)| == Factor(v, previous, s)
  {
  }
}
