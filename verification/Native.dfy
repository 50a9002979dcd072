/** The transition system that the checker explores for a model: stabilised initial states, stabilised posts of the
    enabled transitions, canonical keys (crates/checker/src/search.rs, crates/checker/src/model.rs). */
module Native {
  import opened Bytes
  import opened Mapping
  import opened Values
  import opened Expr
  import opened Effects
  import opened Canon
  import opened Search
  import opened Wrappers
  import Ctl
  import Checker
  import Judging
  import Mount
  import Orders
  import Properties
  import Stabilize

  // ---------------------------------------------------------------------------
  // The compiled model
  // ---------------------------------------------------------------------------

  function DomainsOf(m: Model): (domains: seq<Domain>)
    ensures |domains| == |m.vars| && forall i | 0 <= i < |domains| :: domains[i] == m.vars[i].domain
  {
    seq(|m.vars|, i requires 0 <= i < |m.vars| => m.vars[i].domain)
  }

  function KeyOf(m: Model): State -> Key {
    s => if |s| == |m.vars| then CanonicalKey(DomainsOf(m), s) else []
  }

  /** The variables on which two states differ. */
  function ChangedVars(s: State, t: State): set<nat> {
    set i | 0 <= i < |s| && i < |t| && s[i] != t[i]
  }

  function IndexSeq(m: Model, ids: seq<Text>): seq<nat> {
    if ids == [] then [] else
    var n := |ids| - 1;
    var i := VarIndex(m, ids[n]);
    IndexSeq(m, ids[..n]) + if i.Some? then [i.value] else []
  }

  /** The internal transitions among the first `n`, in index order. */
  function InternalUpTo(m: Model, n: nat): (r: seq<nat>)
    requires n <= |m.transitions|
    ensures Stabilize.Ascending(r) && forall i: nat :: i in r <==> i < n && m.transitions[i].internal
  {
    if n == 0 then [] else
    var before := InternalUpTo(m, n - 1);
    assert forall i | 0 <= i < |before| :: before[i] in before;
    before + if m.transitions[n - 1].internal then [n - 1] else []
  }

  /** The internal transitions as stabilisation sees them. */
  function RulesOf(m: Model): Stabilize.Rules<State>
    requires PlainGuards(m)
  {
    Stabilize.Rules(
      InternalUpTo(m, |m.transitions|),
      (t: nat) => if t < |m.transitions| then IndexSeq(m, m.transitions[t].triggeredBy) else [],
      (t: nat) => if t < |m.transitions| then Orders.Commit(IndexSeq(m, m.transitions[t].declaredWrites), m.transitions[t].phase)
           else Orders.Commit([], None),
      (t: nat, s: State) => t < |m.transitions| && IsEnabled(m, s, t),
      (t: nat, start: State, s: State) => if t < |m.transitions| then ApplyEffect(m, s, m.transitions[t].effect, Some(start)) else [],
      ChangedVars,
      KeyOf(m))
  }

  // ---------------------------------------------------------------------------
  // Steps and initial states
  // ---------------------------------------------------------------------------

  /** The states that stabilising leaves; none when it fails. */
  function Settled(m: Model, maxSteps: nat, s: State, changed: set<nat>): seq<State>
    requires PlainGuards(m)
  {
    var r := Stabilize.Stabilized(RulesOf(m), Stabilize.Out(s, changed), maxSteps);
    if r.Ok? then r.value else []
  }

  function Branches(t: nat, raw: nat, states: seq<State>): (posts: seq<Post<State>>)
    ensures |posts| == |states| && forall k | 0 <= k < |posts| :: posts[k] == Post(t, raw, k, states[k])
  {
    seq(|states|, k requires 0 <= k < |states| => Post(t, raw, k, states[k]))
  }

  function UpTo(n: nat): (r: seq<nat>)
    ensures |r| == n && forall i | 0 <= i < n :: r[i] == i
  {
    seq(n, i => i)
  }

  /** What stabilising one raw post of a transition leaves. */
  function FromRaw(m: Model, maxSteps: nat, s: State, t: nat, raw: seq<State>): nat -> seq<Post<State>>
    requires PlainGuards(m)
  {
    (j: nat) => if j < |raw| then Branches(t, j, Settled(m, maxSteps, raw[j], ChangedVars(s, raw[j]))) else []
  }

  /** The stabilised posts of a transition, if it is enabled and not internal. */
  function FromTransition(m: Model, maxSteps: nat, s: State): nat -> seq<Post<State>>
    requires PlainGuards(m)
  {
    (t: nat) =>
      if t >= |m.transitions| || m.transitions[t].internal || !IsEnabled(m, s, t) then [] else
      var raw := ApplyEffect(m, s, m.transitions[t].effect, None);
      FlatMap(FromRaw(m, maxSteps, s, t, raw), UpTo(|raw|))
  }

  function Steps(m: Model, maxSteps: nat, s: State): seq<Post<State>>
    requires PlainGuards(m)
  {
    FlatMap(FromTransition(m, maxSteps, s), UpTo(|m.transitions|))
  }

  function Extended(initials: seq<Value>): State -> seq<State> {
    s => seq(|initials|, k requires 0 <= k < |initials| => s + [initials[k]])
  }

  /** Every choice of initial values for the first `n` variables. */
  function ChoicesUpTo(m: Model, n: nat): seq<State>
    requires n <= |m.vars|
  {
    if n == 0 then [[]] else FlatMap(Extended(m.vars[n - 1].initials), ChoicesUpTo(m, n - 1))
  }

  function Normalize(m: Model): State -> seq<State>
    requires PlainGuards(m)
  {
    s => Mount.ResetUpTo(MountVars(m), None, true, s, |m.vars|)
  }

  function AllVars(m: Model): set<nat> {
    set i {:trigger m.vars[i]} | 0 <= i < |m.vars|
  }

  /** Stabilising an initial state, every variable counting as changed. */
  function SettleInitial(m: Model, maxSteps: nat): State -> seq<State>
    requires PlainGuards(m)
  {
    s => Settled(m, maxSteps, s, AllVars(m))
  }

  function InitialStates(m: Model, maxSteps: nat): seq<State>
    requires PlainGuards(m)
  {
    FlatMap(SettleInitial(m, maxSteps), FlatMap(Normalize(m), ChoicesUpTo(m, |m.vars|)))
  }

  function SystemOf(m: Model, maxSteps: nat): System<State>
    requires PlainGuards(m)
  {
    System(InitialStates(m, maxSteps), s => Steps(m, maxSteps, s), KeyOf(m))
  }

  // ---------------------------------------------------------------------------
  // What every effect keeps, every run keeps
  // ---------------------------------------------------------------------------

  /** The posts of every transition's effect stay in `inv`, at the top level and while stabilising. */
  ghost predicate EffectsKeep(m: Model, inv: State -> bool)
    requires PlainGuards(m)
  {
    forall t: nat, s: State, pre: Option<State> {:trigger PostsWithin(m, inv, t, s, pre)} |
      t < |m.transitions| && inv(s) && (pre.Some? ==> inv(pre.value)) :: PostsWithin(m, inv, t, s, pre)
  }

  ghost predicate PostsWithin(m: Model, inv: State -> bool, t: nat, s: State, pre: Option<State>)
    requires PlainGuards(m) && t < |m.transitions|
  {
    forall u | u in ApplyEffect(m, s, m.transitions[t].effect, pre) :: inv(u)
  }

  ghost predicate PostsIn(inv: State -> bool, posts: seq<Post<State>>) {
    forall p | p in posts :: inv(p.state)
  }

  lemma {:induction false} SettledStaysIn(m: Model, inv: State -> bool, maxSteps: nat, s: State, changed: set<nat>)
    requires PlainGuards(m) && EffectsKeep(m, inv) && inv(s)
    ensures forall u | u in Settled(m, maxSteps, s, changed) :: inv(u)
  {
    forall t: nat, start, r, u | inv(start) && inv(r) && u in RulesOf(m).apply(t, start, r)
      ensures inv(u)
    {
      assert PostsWithin(m, inv, t, r, Some(start));
    }
    Stabilize.StabilizedKeeps(RulesOf(m), inv, Stabilize.Out(s, changed), 0, maxSteps);
  }

  lemma {:induction false} RawStaysIn(m: Model, inv: State -> bool, maxSteps: nat, s: State, t: nat, raw: seq<State>, j: nat)
    requires PlainGuards(m) && EffectsKeep(m, inv) && forall u | u in raw :: inv(u)
    ensures PostsIn(inv, FromRaw(m, maxSteps, s, t, raw)(j))
  {
    if j < |raw| {
      var u := raw[j];
      assert u in raw;
      SettledStaysIn(m, inv, maxSteps, u, ChangedVars(s, u));
    }
  }

  lemma {:induction false} TransitionStaysIn(m: Model, inv: State -> bool, maxSteps: nat, s: State, t: nat)
    requires PlainGuards(m) && EffectsKeep(m, inv) && inv(s)
    ensures PostsIn(inv, FromTransition(m, maxSteps, s)(t))
  {
    if t < |m.transitions| && !m.transitions[t].internal && IsEnabled(m, s, t) {
      var raw := ApplyEffect(m, s, m.transitions[t].effect, None);
      var f := FromRaw(m, maxSteps, s, t, raw);
      assert PostsWithin(m, inv, t, s, None);
      forall p: Post<State> | p in FlatMap(f, UpTo(|raw|))
        ensures inv(p.state)
      {
        FlatMapHas(f, UpTo(|raw|), p);
        var j :| j in UpTo(|raw|) && p in f(j);
        RawStaysIn(m, inv, maxSteps, s, t, raw, j);
      }
    }
  }

  lemma {:induction false} StepsStayIn(m: Model, inv: State -> bool, maxSteps: nat, s: State)
    requires PlainGuards(m) && EffectsKeep(m, inv) && inv(s)
    ensures PostsIn(inv, Steps(m, maxSteps, s))
  {
    var f := FromTransition(m, maxSteps, s);
    forall p | p in Steps(m, maxSteps, s)
      ensures inv(p.state)
    {
      FlatMapHas(f, UpTo(|m.transitions|), p);
      var t :| t in UpTo(|m.transitions|) && p in f(t);
      TransitionStaysIn(m, inv, maxSteps, s, t);
    }
  }

  lemma {:induction false} InitialStaysIn(m: Model, inv: State -> bool, maxSteps: nat)
    requires PlainGuards(m) && EffectsKeep(m, inv)
    requires forall s | s in FlatMap(Normalize(m), ChoicesUpTo(m, |m.vars|)) :: inv(s)
    ensures forall s | s in InitialStates(m, maxSteps) :: inv(s)
  {
    var normal := FlatMap(Normalize(m), ChoicesUpTo(m, |m.vars|));
    forall s | s in InitialStates(m, maxSteps)
      ensures inv(s)
    {
      FlatMapHas(SettleInitial(m, maxSteps), normal, s);
      var u :| u in normal && s in SettleInitial(m, maxSteps)(u);
      SettledStaysIn(m, inv, maxSteps, u, AllVars(m));
    }
  }

  /** What the normalised initial states satisfy and every effect keeps holds in every state that a run visits. */
  lemma {:induction false} EffectsKeepRuns(m: Model, inv: State -> bool, maxSteps: nat, s: State)
    requires PlainGuards(m) && EffectsKeep(m, inv) && Occurs(SystemOf(m, maxSteps), s)
    requires forall s | s in FlatMap(Normalize(m), ChoicesUpTo(m, |m.vars|)) :: inv(s)
    ensures inv(s)
  {
    var sys := SystemOf(m, maxSteps);
    InitialStaysIn(m, inv, maxSteps);
    forall r, t | inv(r) && IsStep(sys, r, t)
      ensures inv(t)
    {
      StepsStayIn(m, inv, maxSteps, r);
      var p :| p in sys.step(r) && p.state == t;
    }
    var n: nat :| OccursAt(sys, n, s);
    RunsKeep(sys, inv, n, s);
  }

  // ---------------------------------------------------------------------------
  // Models without tokens
  // ---------------------------------------------------------------------------

  /** Every state that a run visits is well-typed and exactly shaped. */
  ghost predicate WellTyped(m: Model, maxSteps: nat)
    requires PlainGuards(m)
  {
    forall s | Occurs(SystemOf(m, maxSteps), s) :: GoodState(DomainsOf(m), s)
  }

  ghost predicate NoTokenDomains(m: Model) {
    forall i | 0 <= i < |m.vars| :: TokenFree(m.vars[i].domain)
  }

  lemma {:induction false} SameKeySameState(m: Model, s: State, t: State)
    requires GoodState(DomainsOf(m), s) && GoodState(DomainsOf(m), t) && NoTokenDomains(m) && KeyOf(m)(s) == KeyOf(m)(t)
    ensures s == t
  {
    TokenFreeKeyIsInjective(DomainsOf(m), s, t);
  }

  /** Without token domains no two states of a well-typed model's runs share a canonical key. */
  lemma {:induction false} KeysAreInjective(m: Model, maxSteps: nat)
    requires PlainGuards(m) && WellTyped(m, maxSteps) && NoTokenDomains(m)
    ensures Judging.InjectiveKey(SystemOf(m, maxSteps))
  {
    var sys := SystemOf(m, maxSteps);
    forall s, t | Occurs(sys, s) && Occurs(sys, t) && sys.key(s) == sys.key(t)
      ensures s == t
    {
      SameKeySameState(m, s, t);
    }
  }

  /** Checking a model: what `CheckModel` promises where keys decide, promised for every property of the model. */
  ghost predicate Truthful<P(!new)>(sys: System<State>, properties: seq<Properties.Property<State, P>>,
                                    eval: (P, State) -> Result<bool>, verdicts: Properties.Verdicts<State>,
                                    exhaustive: bool, depth: nat)
  {
    && (exhaustive ==> Checker.TemporalTruth(sys, properties, eval, verdicts))
    && (forall d: nat | d <= depth || exhaustive :: StepsHold(sys, properties, verdicts, d) && ResponsesHold(sys, properties, verdicts, d))
  }

  /** A step property without a verdict passes on every step out of every state less than `d` steps away. */
  ghost predicate StepsHold<P>(sys: System<State>, properties: seq<Properties.Property<State, P>>,
                               verdicts: Properties.Verdicts<State>, d: nat)
  {
    forall p, s {:trigger Judging.StepsPass(sys, p, s)} |
      p in properties && p.AlwaysStep? && p.name !in verdicts && Judging.Nearby(sys, s, d) :: Judging.StepsPass(sys, p, s)
  }

  /** A bounded-response property with a name of its own has the verdict its runs deserve. */
  ghost predicate ResponsesHold<P>(sys: System<State>, properties: seq<Properties.Property<State, P>>,
                                   verdicts: Properties.Verdicts<State>, d: nat)
  {
    forall i {:trigger Checker.OwnName(properties, i)} |
      0 <= i < |properties| && properties[i].LeadsToWithin? && Checker.OwnName(properties, i) ::
      Judging.Responds(sys, properties[i], Checker.Found(verdicts, properties[i].name), d)
  }

  lemma {:induction false} InjectiveIsTruthful<P(!new)>(sys: System<State>, properties: seq<Properties.Property<State, P>>,
                                                        eval: (P, State) -> Result<bool>, verdicts: Properties.Verdicts<State>,
                                                        exhaustive: bool, depth: nat)
    requires Judging.InjectiveKey(sys)
    requires exhaustive && Checker.AtomsByKey(sys, eval) ==> Checker.TemporalTruth(sys, properties, eval, verdicts)
    requires forall d: nat | d <= depth || exhaustive ::
               Checker.StepTruth(sys, properties, verdicts, d) && Checker.ResponseTruth(sys, properties, verdicts, d)
    ensures Truthful(sys, properties, eval, verdicts, exhaustive, depth)
  {
    Checker.InjectiveKeys(sys, eval);
    forall d: nat | d <= depth || exhaustive
      ensures StepsHold(sys, properties, verdicts, d) && ResponsesHold(sys, properties, verdicts, d)
    {
      assert Checker.StepTruth(sys, properties, verdicts, d);
      forall p, s | p in properties && p.AlwaysStep? && p.name !in verdicts && Judging.Nearby(sys, s, d)
        ensures Judging.StepsPass(sys, p, s)
      {
        assert Judging.AllPass(sys, p, d);
        Judging.InjectiveJudges(sys, p);
      }
      forall i | 0 <= i < |properties| && properties[i].LeadsToWithin? && Checker.OwnName(properties, i)
        ensures Judging.Responds(sys, properties[i], Checker.Found(verdicts, properties[i].name), d)
      {
        Judging.InjectiveJudges(sys, properties[i]);
      }
    }
  }

  /** The whole check of a well-typed model without tokens: every assumption on keys is discharged. */
  method CheckNative<P(!new)>(m: Model, maxSteps: nat, properties: seq<Properties.Property<State, P>>,
                              eval: (P, State) -> Result<bool>, options: Properties.Options, maxDepth: nat,
                              workerCount: nat, shardOf: Key -> nat, shards: nat)
    returns (verdicts: Properties.Verdicts<State>, limit: Option<Properties.Limit>, exhaustive: bool, depth: nat)
    requires PlainGuards(m) && WellTyped(m, maxSteps) && NoTokenDomains(m) && forall k :: shardOf(k) < shards
    ensures limit.Some? ==> Checker.NothingPasses(SystemOf(m, maxSteps), properties, verdicts)
    ensures limit.None? ==> Truthful(SystemOf(m, maxSteps), properties, eval, verdicts, exhaustive, depth)
    ensures limit.None? && !exhaustive ==> forall name | name in verdicts :: verdicts[name] != Properties.Decided(Ctl.Verified)
    ensures depth <= maxDepth && (limit.None? && !exhaustive ==> depth == maxDepth)
    ensures limit.Some? ==> Properties.Names(options, limit.value)
  {
    var sys := SystemOf(m, maxSteps);
    KeysAreInjective(m, maxSteps);
    Checker.InjectiveKeys(sys, eval);
    var stored, edges;
    verdicts, limit, exhaustive, stored, edges, depth :=
      Checker.CheckModel(sys, properties, eval, options, maxDepth, workerCount, shardOf, shards);
    if limit.None? {
      InjectiveIsTruthful(sys, properties, eval, verdicts, exhaustive, depth);
    }
  }
}
