/** What the explored system consists of, said of the model itself
    (crates/checker/src/search.rs, crates/checker/src/transition_index.rs, crates/checker/src/model.rs). */
module Explored {
  import opened Bytes
  import opened Mapping
  import opened Values
  import opened Expr
  import opened Effects
  import opened Native
  import opened Search
  import opened Wrappers
  import Canon
  import Meaning
  import Mount
  import Stabilize

  /** The transition's guard holds, and so does the mount guard of every local that it touches. */
  ghost predicate Ready(m: Model, s: State, t: nat)
    requires PlainGuards(m) && t < |m.transitions|
  {
    && Eval(m, s, m.transitions[t].guard, NO_CONTEXT, false) == Bool(true)
    && forall j | 0 <= j < |m.vars| && m.vars[j].guard.Some? && j in Touched(m, m.transitions[t]) ::
         Eval(m, s, m.vars[j].guard.value, NO_CONTEXT, false) == Bool(true)
  }

  /** `c` holds the positions where the states differ. */
  ghost predicate DifferOn(s: State, u: State, c: set<nat>) {
    forall i: nat :: i in c <==> i < |s| && i < |u| && s[i] != u[i]
  }

  /** Stabilising `u` with these variables changed succeeds, and `v` is result `k`. */
  ghost predicate StabilisesTo(m: Model, maxSteps: nat, u: State, c: set<nat>, k: nat, v: State)
    requires PlainGuards(m)
  {
    exists states :: Stabilize.StabilizesTo(RulesOf(m), Stabilize.Out(u, c), maxSteps, Ok(states)) && k < |states| && states[k] == v
  }

  // ---------------------------------------------------------------------------
  // Steps
  // ---------------------------------------------------------------------------

  /** `p` is a stabilised result of a raw post of an enabled transition that is not internal. */
  ghost predicate IsStepOf(m: Model, maxSteps: nat, s: State, p: Post<State>)
    requires PlainGuards(m)
  {
    && p.transition < |m.transitions| && !m.transitions[p.transition].internal && Ready(m, s, p.transition)
    && var raw := ApplyEffect(m, s, m.transitions[p.transition].effect, None);
       p.rawBranch < |raw| &&
       exists c :: DifferOn(s, raw[p.rawBranch], c) && StabilisesTo(m, maxSteps, raw[p.rawBranch], c, p.stabBranch, p.state)
  }

  lemma {:induction false} SettledIsStabilised(m: Model, maxSteps: nat, u: State, c: set<nat>, k: nat, v: State)
    requires PlainGuards(m)
    ensures k < |Settled(m, maxSteps, u, c)| && Settled(m, maxSteps, u, c)[k] == v <==> StabilisesTo(m, maxSteps, u, c, k, v)
  {
    var rules, start := RulesOf(m), Stabilize.Out(u, c);
    var r := Stabilize.Stabilized(rules, start, maxSteps);
    Stabilize.StabilizedFromHolds(rules, start, 0, maxSteps);
    if states :| Stabilize.StabilizesTo(rules, start, maxSteps, Ok(states)) && k < |states| && states[k] == v {
      Stabilize.StabilizedIsTheOutcome(rules, start, maxSteps, Ok(states));
    }
  }

  lemma {:induction false} EnabledIsReady(m: Model, s: State, t: nat)
    requires PlainGuards(m) && t < |m.transitions|
    ensures IsEnabled(m, s, t) <==> Ready(m, s, t)
  {
    GuardIsTrue(m, s, m.transitions[t].guard);
    forall j | 0 <= j < |m.vars| && m.vars[j].guard.Some?
      ensures GuardHolds(m, s, m.vars[j].guard.value) <==> Eval(m, s, m.vars[j].guard.value, NO_CONTEXT, false) == Bool(true)
    {
      GuardIsTrue(m, s, m.vars[j].guard.value);
    }
  }

  lemma {:induction false} GuardIsTrue(m: Model, s: State, guard: Expr)
    requires Plain(guard)
    ensures GuardHolds(m, s, guard) <==> Eval(m, s, guard, NO_CONTEXT, false) == Bool(true)
  {
  }

  lemma {:induction false} DifferIsChanged(s: State, u: State, c: set<nat>)
    ensures DifferOn(s, u, c) <==> c == ChangedVars(s, u)
  {
    assert DifferOn(s, u, ChangedVars(s, u));
  }

  lemma {:induction false} RawIsExact(m: Model, maxSteps: nat, s: State, t: nat, raw: seq<State>, j: nat, p: Post<State>)
    requires PlainGuards(m)
    ensures p in FromRaw(m, maxSteps, s, t, raw)(j) <==>
            p.transition == t && p.rawBranch == j && j < |raw| &&
            StabilisesTo(m, maxSteps, raw[j], ChangedVars(s, raw[j]), p.stabBranch, p.state)
  {
    if j < |raw| {
      var c := ChangedVars(s, raw[j]);
      var settled := Settled(m, maxSteps, raw[j], c);
      SettledIsStabilised(m, maxSteps, raw[j], c, p.stabBranch, p.state);
      if p.transition == t && p.rawBranch == j && p.stabBranch < |settled| && settled[p.stabBranch] == p.state {
        assert Branches(t, j, settled)[p.stabBranch] == p;
      }
    }
  }

  lemma {:induction false} TransitionIsExact(m: Model, maxSteps: nat, s: State, t: nat, p: Post<State>)
    requires PlainGuards(m) && t < |m.transitions|
    ensures p in FromTransition(m, maxSteps, s)(t) <==> p.transition == t && IsStepOf(m, maxSteps, s, p)
  {
    EnabledIsReady(m, s, t);
    var raw := ApplyEffect(m, s, m.transitions[t].effect, None);
    FromAllRaw(m, maxSteps, s, t, raw, p);
    if p.rawBranch < |raw| {
      forall c
        ensures DifferOn(s, raw[p.rawBranch], c) <==> c == ChangedVars(s, raw[p.rawBranch])
      {
        DifferIsChanged(s, raw[p.rawBranch], c);
      }
    }
  }

  lemma {:induction false} FromAllRaw(m: Model, maxSteps: nat, s: State, t: nat, raw: seq<State>, p: Post<State>)
    requires PlainGuards(m)
    ensures p in FlatMap(FromRaw(m, maxSteps, s, t, raw), UpTo(|raw|)) <==>
            p.transition == t && p.rawBranch < |raw| &&
            StabilisesTo(m, maxSteps, raw[p.rawBranch], ChangedVars(s, raw[p.rawBranch]), p.stabBranch, p.state)
  {
    var f := FromRaw(m, maxSteps, s, t, raw);
    FlatMapHas(f, UpTo(|raw|), p);
    if j: nat :| j in UpTo(|raw|) && p in f(j) {
      RawIsExact(m, maxSteps, s, t, raw, j, p);
    }
    if p.rawBranch < |raw| {
      RawIsExact(m, maxSteps, s, t, raw, p.rawBranch, p);
      assert UpTo(|raw|)[p.rawBranch] in UpTo(|raw|);
    }
  }

  /** The steps of the explored system are exactly the stabilised posts of the model's enabled transitions. */
  lemma {:induction false} StepsAreExact(m: Model, maxSteps: nat, s: State, p: Post<State>)
    requires PlainGuards(m)
    ensures p in SystemOf(m, maxSteps).step(s) <==> IsStepOf(m, maxSteps, s, p)
    ensures |s| == |m.vars| ==> SystemOf(m, maxSteps).key(s) == Canon.CanonicalKey(DomainsOf(m), s)
  {
    var f := FromTransition(m, maxSteps, s);
    FlatMapHas(f, UpTo(|m.transitions|), p);
    forall t: nat | t < |m.transitions|
      ensures p in f(t) <==> p.transition == t && IsStepOf(m, maxSteps, s, p)
    {
      TransitionIsExact(m, maxSteps, s, t, p);
    }
    if IsStepOf(m, maxSteps, s, p) {
      assert UpTo(|m.transitions|)[p.transition] in UpTo(|m.transitions|);
    }
  }

  // ---------------------------------------------------------------------------
  // Initial states
  // ---------------------------------------------------------------------------

  /** One declared initial value for each of the first `n` variables. */
  ghost predicate IsChoice(m: Model, n: nat, s: State)
    requires n <= |m.vars|
  {
    |s| == n && forall i | 0 <= i < n :: s[i] in m.vars[i].initials
  }

  lemma {:induction false} ChoicesAreExact(m: Model, n: nat, s: State)
    requires n <= |m.vars|
    ensures s in ChoicesUpTo(m, n) <==> IsChoice(m, n, s)
  {
    if n > 0 {
      ChoicesStep(m, n, s);
      if |s| > 0 {
        ChoicesAreExact(m, n - 1, s[..|s| - 1]);
      }
      if |s| == n {
        OneMoreChoice(m, n, s);
      }
    }
  }

  lemma {:induction false} ChoicesStep(m: Model, n: nat, s: State)
    requires 0 < n <= |m.vars|
    ensures s in ChoicesUpTo(m, n) <==>
            |s| > 0 && s[..|s| - 1] in ChoicesUpTo(m, n - 1) && s[|s| - 1] in m.vars[n - 1].initials
  {
    ExtendedAre(m.vars[n - 1].initials, ChoicesUpTo(m, n - 1), s);
  }

  lemma {:induction false} OneMoreChoice(m: Model, n: nat, s: State)
    requires 0 < n <= |m.vars| && |s| == n
    ensures IsChoice(m, n, s) <==> IsChoice(m, n - 1, s[..n - 1]) && s[n - 1] in m.vars[n - 1].initials
  {
    assert forall i | 0 <= i < n - 1 :: s[..n - 1][i] == s[i];
  }

  lemma {:induction false} ExtendedAre(initials: seq<Value>, before: seq<State>, s: State)
    ensures s in FlatMap(Extended(initials), before) <==> |s| > 0 && s[..|s| - 1] in before && s[|s| - 1] in initials
  {
    FlatMapHas(Extended(initials), before, s);
    if u :| u in before && s in Extended(initials)(u) {
      ExtendedHas(initials, u, s);
    }
    if |s| > 0 && s[..|s| - 1] in before && s[|s| - 1] in initials {
      ExtendedHas(initials, s[..|s| - 1], s);
    }
  }

  lemma {:induction false} ExtendedHas(initials: seq<Value>, u: State, s: State)
    ensures s in Extended(initials)(u) <==> |s| == |u| + 1 && s[..|u|] == u && s[|u|] in initials
  {
    var f := Extended(initials);
    if s in f(u) {
      var k :| 0 <= k < |f(u)| && f(u)[k] == s;
      assert initials[k] in initials;
    }
    if |s| == |u| + 1 && s[..|u|] == u && s[|u|] in initials {
      var k :| 0 <= k < |initials| && initials[k] == s[|u|];
      assert f(u)[k] == s;
    }
  }

  /** `t` results from a choice of initial values, normalised and stabilised with every variable changed. */
  ghost predicate IsInitialOf(m: Model, maxSteps: nat, t: State)
    requires PlainGuards(m)
  {
    exists s, u, k {:trigger IsSettledFrom(m, maxSteps, s, u, k, t)} :: IsSettledFrom(m, maxSteps, s, u, k, t)
  }

  ghost predicate IsSettledFrom(m: Model, maxSteps: nat, s: State, u: State, k: nat, t: State)
    requires PlainGuards(m)
  {
    && IsChoice(m, |m.vars|, s) && Mount.IsReset(MountVars(m), None, true, s, u)
    && exists c :: IsEverything(m, c) && StabilisesTo(m, maxSteps, u, c, k, t)
  }

  ghost predicate IsEverything(m: Model, c: set<nat>) {
    forall i: nat :: i in c <==> i < |m.vars|
  }

  lemma {:induction false} EverythingIsAll(m: Model, c: set<nat>)
    ensures IsEverything(m, c) <==> c == AllVars(m)
  {
  }

  lemma {:induction false} SettledInitial(m: Model, maxSteps: nat, s: State, u: State, k: nat, t: State)
    requires PlainGuards(m)
    ensures IsSettledFrom(m, maxSteps, s, u, k, t) <==>
            IsChoice(m, |m.vars|, s) && Mount.IsReset(MountVars(m), None, true, s, u) &&
            k < |SettleInitial(m, maxSteps)(u)| && SettleInitial(m, maxSteps)(u)[k] == t
  {
    SettledIsStabilised(m, maxSteps, u, AllVars(m), k, t);
    EverythingIsAll(m, AllVars(m));
    forall c
      ensures IsEverything(m, c) <==> c == AllVars(m)
    {
      EverythingIsAll(m, c);
    }
  }

  lemma {:induction false} NormalsAreExact(m: Model, u: State)
    requires PlainGuards(m) && GuardsLookBack(m)
    ensures u in FlatMap(Normalize(m), ChoicesUpTo(m, |m.vars|)) <==>
            exists s :: IsChoice(m, |m.vars|, s) && Mount.IsReset(MountVars(m), None, true, s, u)
  {
    FlatMapHas(Normalize(m), ChoicesUpTo(m, |m.vars|), u);
    LookingBackIsLayered(m);
    forall s
      ensures s in ChoicesUpTo(m, |m.vars|) <==> IsChoice(m, |m.vars|, s)
    {
      ChoicesAreExact(m, |m.vars|, s);
    }
    forall s | IsChoice(m, |m.vars|, s)
      ensures u in Normalize(m)(s) <==> Mount.IsReset(MountVars(m), None, true, s, u)
    {
      Mount.ResetIsExact(MountVars(m), None, true, s, u);
    }
  }

  /** The initial states are exactly the stabilised normal forms of the choices of declared initial values. */
  lemma {:induction false} InitialsAreExact(m: Model, maxSteps: nat, t: State)
    requires PlainGuards(m) && GuardsLookBack(m)
    ensures t in SystemOf(m, maxSteps).initial <==> IsInitialOf(m, maxSteps, t)
  {
    if t in InitialStates(m, maxSteps) {
      InitialIsSettled(m, maxSteps, t);
    }
    if s, u, k :| IsSettledFrom(m, maxSteps, s, u, k, t) {
      SettledIsInitial(m, maxSteps, s, u, k, t);
    }
  }

  lemma {:induction false} InitialIsSettled(m: Model, maxSteps: nat, t: State)
    requires PlainGuards(m) && GuardsLookBack(m) && t in InitialStates(m, maxSteps)
    ensures IsInitialOf(m, maxSteps, t)
  {
    var f, normal := SettleInitial(m, maxSteps), FlatMap(Normalize(m), ChoicesUpTo(m, |m.vars|));
    FlatMapHas(f, normal, t);
    var u :| u in normal && t in f(u);
    var s := ChoiceBehind(m, u);
    var k := MemberAt(f(u), t);
    SettledInitial(m, maxSteps, s, u, k, t);
  }

  lemma {:induction false} ChoiceBehind(m: Model, u: State) returns (s: State)
    requires PlainGuards(m) && GuardsLookBack(m) && u in FlatMap(Normalize(m), ChoicesUpTo(m, |m.vars|))
    ensures IsChoice(m, |m.vars|, s) && Mount.IsReset(MountVars(m), None, true, s, u)
  {
    NormalsAreExact(m, u);
    s :| IsChoice(m, |m.vars|, s) && Mount.IsReset(MountVars(m), None, true, s, u);
  }

  lemma {:induction false} MemberAt(states: seq<State>, t: State) returns (k: nat)
    requires t in states
    ensures k < |states| && states[k] == t
  {
    k :| 0 <= k < |states| && states[k] == t;
  }

  lemma {:induction false} SettledIsInitial(m: Model, maxSteps: nat, s: State, u: State, k: nat, t: State)
    requires PlainGuards(m) && GuardsLookBack(m) && IsSettledFrom(m, maxSteps, s, u, k, t)
    ensures t in InitialStates(m, maxSteps)
  {
    var f, normal := SettleInitial(m, maxSteps), FlatMap(Normalize(m), ChoicesUpTo(m, |m.vars|));
    FlatMapHas(f, normal, t);
    NormalsAreExact(m, u);
    SettledInitial(m, maxSteps, s, u, k, t);
    assert f(u)[k] in f(u);
  }

  // ---------------------------------------------------------------------------
  // What stabilisation runs on
  // ---------------------------------------------------------------------------

  lemma {:induction false} IndexesAre(m: Model, ids: seq<Text>, i: nat)
    ensures i in IndexSeq(m, ids) <==> exists id :: id in ids && VarIndex(m, id) == Some(i)
  {
    if ids != [] {
      var n := |ids| - 1;
      IndexesAre(m, ids[..n], i);
      assert ids == ids[..n] + [ids[n]];
    }
  }

  /** Stabilisation runs on the internal transitions in index order, triggered by the variables they name and in conflict
      through the variables they declare to write. */
  lemma {:induction false} RulesListTheModel(m: Model, t: nat, i: nat)
    requires PlainGuards(m) && t < |m.transitions|
    ensures var rules, decl := RulesOf(m), m.transitions[t];
            && Stabilize.Ascending(rules.internal) && (t in rules.internal <==> decl.internal)
            && (i in rules.triggers(t) <==> exists id :: id in decl.triggeredBy && VarIndex(m, id) == Some(i))
            && (i in rules.commit(t).writes <==> exists id :: id in decl.declaredWrites && VarIndex(m, id) == Some(i))
            && rules.commit(t).phase == decl.phase
  {
    IndexesAre(m, m.transitions[t].triggeredBy, i);
    IndexesAre(m, m.transitions[t].declaredWrites, i);
  }

  /** An internal transition is enabled as at the top level, is applied with the round's start as pre-state and without
      a mount reset, and counts as changed what differs. */
  lemma {:induction false} RulesRunTheModel(m: Model, t: nat, start: State, s: State, u: State)
    requires PlainGuards(m) && t < |m.transitions|
    ensures var rules := RulesOf(m);
            && (rules.enabled(t, s) <==> Ready(m, s, t))
            && (u in rules.apply(t, start, s) <==> Meaning.Leads(m, m.transitions[t].effect, Context(Some(start), None), s, u))
            && DifferOn(s, u, rules.changed(s, u))
            && (|s| == |m.vars| ==> rules.key(s) == Canon.CanonicalKey(DomainsOf(m), s))
  {
    EnabledIsReady(m, s, t);
    Meaning.PostsAreLed(m, m.transitions[t].effect, Context(Some(start), None), s, u);
    DifferIsChanged(s, u, ChangedVars(s, u));
  }
}
