/** A static condition under which every state a model's runs visit is well-typed
    (crates/checker/src/effect.rs, crates/checker/src/domain.rs). */
module Typing {
  import opened Bytes
  import opened Mapping
  import opened Values
  import opened Enumerate
  import opened Expr
  import opened Effects
  import opened Canon
  import opened Search
  import opened Native
  import opened Wrappers
  import Checked
  import Mount
  import Stabilize

  // ---------------------------------------------------------------------------
  // Expressions and effects that respect domains
  // ---------------------------------------------------------------------------

  predicate GivesBool(op: Op) {
    op != Cond && op != Add && op != Sub && op != Mod
  }

  predicate IsVarOf(m: Model, id: Text, d: Domain) {
    var i := VarIndex(m, id);
    i.Some? && m.vars[i.value].domain == d
  }

  /** The expression has a value of the domain in every well-typed state. */
  ghost predicate Gives(m: Model, d: Domain, e: Expr) {
    match e
    case Lit(value) => Good(d, value)
    case Read(id, path) => path == [] && IsVarOf(m, id, d)
    case ReadPre(id, path) => path == [] && IsVarOf(m, id, d)
    case Apply(op, args) =>
      if op == Cond then |args| >= 3 && Gives(m, d, args[1]) && Gives(m, d, args[2]) else d.BoolD? && GivesBool(op)
    case TagIs(_, _) => d.BoolD?
    case TransitionEnabled(_) => d.BoolD?
    case TransitionEnabledPrefix(_) => d.BoolD?
    case LenCat(_) => d.LengthCatD?
    case _ => false
  }

  /** Whatever is stored under the domain's overflow policy is a number of the domain that can be encoded. */
  ghost predicate Clamps(d: Domain) {
    || (d.IntD? && -I63 <= d.min <= d.max < I63)
    || (d.IntSetD? && forall n | n in d.ints :: -I63 <= n < I63)
  }

  ghost predicate TypedEffect(m: Model, effect: Effect) {
    match effect
    case Assign(id, e) => var i := VarIndex(m, id); i.Some? ==> Gives(m, m.vars[i.value].domain, e) || Clamps(m.vars[i.value].domain)
    case Havoc(id) =>
      var i := VarIndex(m, id);
      i.Some? ==> forall v | v in EnumerateDomain(m.vars[i.value].domain) :: Sized(v)
    case Choose(id, among) =>
      var i := VarIndex(m, id);
      i.Some? ==> forall k | 0 <= k < |among| :: Gives(m, m.vars[i.value].domain, among[k])
    case If(_, onTrue, onFalse) => TypedEffect(m, onTrue) && TypedEffect(m, onFalse)
    case Seq(effects) => forall k | 0 <= k < |effects| :: TypedEffect(m, effects[k])
    case Enqueue(_, _, _, _) => false
    case Dequeue(queue, _) => var i := QueueIndex(m, queue); i.Some? ==> m.vars[i.value].domain.ListD?
    case Opaque => true
  }

  /** Initial values and effects respect the domains, and every variable has an initial value of its domain. */
  ghost predicate Typed(m: Model) {
    && PlainGuards(m)
    && (forall i | 0 <= i < |m.vars| :: Proper(m.vars[i].domain))
    && (forall i, v | 0 <= i < |m.vars| && v in m.vars[i].initials :: Good(m.vars[i].domain, v))
    && forall t | 0 <= t < |m.transitions| :: TypedEffect(m, m.transitions[t].effect)
  }

  ghost predicate Fine(m: Model, s: State) {
    GoodState(DomainsOf(m), s)
  }

  ghost predicate FineContext(m: Model, ctx: Context) {
    ctx.pre.Some? ==> Fine(m, ctx.pre.value)
  }

  // ---------------------------------------------------------------------------
  // Effects keep states well-typed
  // ---------------------------------------------------------------------------

  lemma {:induction false} VarIsGood(m: Model, s: State, id: Text, d: Domain)
    requires Fine(m, s) && IsVarOf(m, id, d)
    ensures Good(d, ReadVar(m, s, id, []))
  {
  }

  lemma {:induction false} GivesGood(m: Model, d: Domain, e: Expr, s: State, ctx: Context)
    requires PlainGuards(m) && Gives(m, d, e) && Fine(m, s) && FineContext(m, ctx)
    ensures Good(d, Eval(m, s, e, ctx, true))
    decreases e
  {
    if e.Apply? {
      var args := e.args;
      if e.op == Cond {
        GivesGood(m, d, args[1], s, ctx);
        GivesGood(m, d, args[2], s, ctx);
      }
      OperatorGives(m, d, e.op, args, s, ctx);
    } else {
      LeafGives(m, d, e, s, ctx);
    }
  }

  lemma {:induction false} OperatorGives(m: Model, d: Domain, op: Op, args: seq<Expr>, s: State, ctx: Context)
    requires PlainGuards(m) && Gives(m, d, Apply(op, args))
    requires op == Cond ==> Good(d, Eval(m, s, args[1], ctx, true)) && Good(d, Eval(m, s, args[2], ctx, true))
    ensures Good(d, Eval(m, s, Apply(op, args), ctx, true))
  {
    var vs := seq(|args|, i requires 0 <= i < |args| => Eval(m, s, args[i], ctx, true));
    if op == Cond {
      assert ApplyOp(op, vs) in {vs[1], vs[2]};
    } else {
      BoolIsGood(d, ApplyOp(op, vs));
    }
  }

  lemma {:induction false} LeafGives(m: Model, d: Domain, e: Expr, s: State, ctx: Context)
    requires PlainGuards(m) && Gives(m, d, e) && Fine(m, s) && FineContext(m, ctx) && !e.Apply?
    ensures Good(d, Eval(m, s, e, ctx, true))
  {
    match e
    case Read(id, path) => VarIsGood(m, s, id, d);
    case ReadPre(id, path) => VarIsGood(m, if ctx.pre.Some? then ctx.pre.value else s, id, d);
    case LenCat(arg) => LengthIsGood(d, Eval(m, s, arg, ctx, true));
    case TagIs(_, _) => BoolIsGood(d, Eval(m, s, e, ctx, true));
    case TransitionEnabled(_) => BoolIsGood(d, Eval(m, s, e, ctx, true));
    case TransitionEnabledPrefix(_) => BoolIsGood(d, Eval(m, s, e, ctx, true));
    case _ =>
  }

  lemma {:induction false} LengthIsGood(d: Domain, v: Value)
    requires d.LengthCatD?
    ensures Good(d, LengthOf(v))
  {
  }

  lemma {:induction false} BoolIsGood(d: Domain, v: Value)
    requires d.BoolD? && v.Bool?
    ensures Good(d, v)
  {
  }

  lemma {:induction false} StoredIsGood(d: Domain, raw: Value)
    requires Proper(d) && (Good(d, raw) || Clamps(d)) && Storable(d, raw).Some?
    ensures Good(d, Storable(d, raw).value)
  {
    if (d.IntD? || d.IntSetD?) && raw.Int? {
      NumericAssignStays(d, raw.n);
    }
  }

  lemma {:induction false} WithVarIsFine(m: Model, s: State, i: nat, v: Value)
    requires Fine(m, s) && i < |m.vars| && Good(m.vars[i].domain, v)
    ensures Fine(m, WithVar(s, i, v))
  {
  }

  ghost predicate AllFine(m: Model, states: seq<State>) {
    forall s | s in states :: Fine(m, s)
  }

  lemma {:induction false} EachIsFine(m: Model, s: State, i: nat, vs: seq<Value>)
    requires Fine(m, s) && i < |m.vars| && forall v | v in vs :: Good(m.vars[i].domain, v)
    ensures AllFine(m, WithEach(s, i, vs))
  {
    forall k | 0 <= k < |vs|
      ensures Fine(m, WithEach(s, i, vs)[k])
    {
      assert vs[k] in vs;
      WithVarIsFine(m, s, i, vs[k]);
    }
  }

  lemma {:induction false} AssignKeeps(m: Model, s: State, i: nat, e: Expr, ctx: Context)
    requires Typed(m) && Fine(m, s) && FineContext(m, ctx) && i < |m.vars|
    requires Gives(m, m.vars[i].domain, e) || Clamps(m.vars[i].domain)
    ensures var v := Storable(m.vars[i].domain, Eval(m, s, e, ctx, true)); v.Some? ==> Fine(m, WithVar(s, i, v.value))
  {
    var d, raw := m.vars[i].domain, Eval(m, s, e, ctx, true);
    if Gives(m, d, e) {
      GivesGood(m, d, e, s, ctx);
    }
    if Storable(d, raw).Some? {
      StoredIsGood(d, raw);
      WithVarIsFine(m, s, i, Storable(d, raw).value);
    }
  }

  lemma {:induction false} HavocKeeps(m: Model, s: State, i: nat)
    requires Typed(m) && Fine(m, s) && i < |m.vars| && forall v | v in EnumerateDomain(m.vars[i].domain) :: Sized(v)
    ensures AllFine(m, WithEach(s, i, EnumerateDomain(m.vars[i].domain)))
  {
    var d := m.vars[i].domain;
    forall v | v in EnumerateDomain(d)
      ensures Good(d, v)
    {
      EnumeratedIsValid(d, v);
    }
    EachIsFine(m, s, i, EnumerateDomain(d));
  }

  lemma {:induction false} ChooseKeeps(m: Model, s: State, i: nat, among: seq<Expr>, ctx: Context)
    requires Typed(m) && Fine(m, s) && FineContext(m, ctx) && i < |m.vars|
    requires forall k | 0 <= k < |among| :: Gives(m, m.vars[i].domain, among[k])
    ensures AllFine(m, WithEach(s, i, Checked.EvalAll(m, s, among, ctx)))
  {
    forall k | 0 <= k < |among|
      ensures Good(m.vars[i].domain, Checked.EvalAll(m, s, among, ctx)[k])
    {
      GivesGood(m, m.vars[i].domain, among[k], s, ctx);
    }
    EachIsFine(m, s, i, Checked.EvalAll(m, s, among, ctx));
  }

  lemma {:induction false} DequeueKeeps(m: Model, s: State, i: nat, index: nat)
    requires Typed(m) && Fine(m, s) && i < |m.vars| && m.vars[i].domain.ListD? && index < |Pending(s, i)|
    ensures Fine(m, WithVar(s, i, Arr(Pending(s, i)[..index] + Pending(s, i)[index + 1..])))
  {
    ShorterIsGood(m.vars[i].domain, s[i], index);
    WithVarIsFine(m, s, i, Arr(Pending(s, i)[..index] + Pending(s, i)[index + 1..]));
  }

  lemma {:induction false} AssignIsFine(m: Model, s: State, effect: Effect, ctx: Context)
    requires Typed(m) && TypedEffect(m, effect) && Fine(m, s) && FineContext(m, ctx) && effect.Assign?
    ensures ApplyInner(m, s, effect, ctx).Some? ==> AllFine(m, ApplyInner(m, s, effect, ctx).value)
  {
    var i := VarIndex(m, effect.id);
    if i.Some? {
      AssignKeeps(m, s, i.value, effect.expr, ctx);
    }
  }

  lemma {:induction false} HavocIsFine(m: Model, s: State, effect: Effect, ctx: Context)
    requires Typed(m) && TypedEffect(m, effect) && Fine(m, s) && FineContext(m, ctx) && effect.Havoc?
    ensures ApplyInner(m, s, effect, ctx).Some? ==> AllFine(m, ApplyInner(m, s, effect, ctx).value)
  {
    var i := VarIndex(m, effect.id);
    if i.Some? {
      HavocKeeps(m, s, i.value);
    }
  }

  lemma {:induction false} ChooseIsFine(m: Model, s: State, effect: Effect, ctx: Context)
    requires Typed(m) && TypedEffect(m, effect) && Fine(m, s) && FineContext(m, ctx) && effect.Choose?
    ensures ApplyInner(m, s, effect, ctx).Some? ==> AllFine(m, ApplyInner(m, s, effect, ctx).value)
  {
    var i := VarIndex(m, effect.id);
    if i.Some? {
      ChooseKeeps(m, s, i.value, effect.among, ctx);
    }
  }

  lemma {:induction false} DequeueIsFine(m: Model, s: State, effect: Effect, ctx: Context)
    requires Typed(m) && TypedEffect(m, effect) && Fine(m, s) && FineContext(m, ctx) && effect.Dequeue?
    ensures ApplyInner(m, s, effect, ctx).Some? ==> AllFine(m, ApplyInner(m, s, effect, ctx).value)
  {
    var i := QueueIndex(m, effect.queue);
    if i.Some? && effect.index < |Pending(s, i.value)| {
      DequeueKeeps(m, s, i.value, effect.index);
    }
  }

  lemma {:induction false} ShorterIsGood(d: Domain, v: Value, index: nat)
    requires d.ListD? && Good(d, v) && v.Arr? && index < |v.items|
    ensures Good(d, Arr(v.items[..index] + v.items[index + 1..]))
  {
    var rest := v.items[..index] + v.items[index + 1..];
    assert forall i | 0 <= i < |rest| :: rest[i] == v.items[if i < index then i else i + 1];
  }

  lemma {:induction false} EffectKeeps(m: Model, s: State, effect: Effect, ctx: Context)
    requires Typed(m) && TypedEffect(m, effect) && Fine(m, s) && FineContext(m, ctx)
    ensures ApplyInner(m, s, effect, ctx).Some? ==> AllFine(m, ApplyInner(m, s, effect, ctx).value)
    decreases effect, 1, 0
  {
    match effect
    case If(_, onTrue, onFalse) =>
      EffectKeeps(m, s, onTrue, ctx);
      EffectKeeps(m, s, onFalse, ctx);
    case Seq(effects) => SeqKeeps(m, effect, [s], effects, ctx.(opArgs := None));
    case Assign(_, _) => AssignIsFine(m, s, effect, ctx);
    case Havoc(_) => HavocIsFine(m, s, effect, ctx);
    case Choose(_, _) => ChooseIsFine(m, s, effect, ctx);
    case Dequeue(_, _) => DequeueIsFine(m, s, effect, ctx);
    case _ =>
  }

  lemma {:induction false} EachKeeps(m: Model, states: seq<State>, effect: Effect, ctx: Context)
    requires Typed(m) && TypedEffect(m, effect) && AllFine(m, states) && FineContext(m, ctx)
    ensures AllFine(m, ApplyEach(m, states, effect, ctx))
    decreases effect, 1, |states| + 1
  {
    if states != [] {
      var n := |states| - 1;
      EachKeeps(m, states[..n], effect, ctx);
      EffectKeeps(m, states[n], effect, ctx);
    }
  }

  lemma {:induction false} SeqKeeps(m: Model, parent: Effect, states: seq<State>, effects: seq<Effect>, ctx: Context)
    requires Typed(m) && (forall k | 0 <= k < |effects| :: effects[k] < parent && TypedEffect(m, effects[k]))
    requires AllFine(m, states) && FineContext(m, ctx)
    ensures AllFine(m, ApplySeq(m, parent, states, effects, ctx))
    decreases parent, 0, |effects|
  {
    if effects != [] {
      var next := Resolving(m, states, effects[0], ctx);
      EachKeeps(m, states, effects[0], next);
      SeqKeeps(m, parent, ApplyEach(m, states, effects[0], next), effects[1..], next);
    }
  }

  // ---------------------------------------------------------------------------
  // Resets, stabilisation and steps keep states well-typed
  // ---------------------------------------------------------------------------

  lemma {:induction false} ResetOneKeeps(m: Model, previous: Option<State>, preserve: bool, s: State, i: nat)
    requires Typed(m) && i < |m.vars| && Fine(m, s)
    ensures AllFine(m, Mount.ResetOne(MountVars(m)[i], previous, preserve, s, i))
  {
    var v := MountVars(m)[i];
    WithVarIsFine(m, s, i, UNMOUNTED);
    forall k | 0 <= k < |v.initials|
      ensures Fine(m, Mount.Choices(s, i, v.initials)[k])
    {
      assert v.initials[k] in m.vars[i].initials;
      WithVarIsFine(m, s, i, v.initials[k]);
    }
  }

  lemma {:induction false} ResetEachKeeps(m: Model, previous: Option<State>, preserve: bool, states: seq<State>, i: nat)
    requires Typed(m) && i < |m.vars| && AllFine(m, states)
    ensures AllFine(m, FlatMap(Mount.Resetter(MountVars(m)[i], previous, preserve, i), states))
  {
    var f := Mount.Resetter(MountVars(m)[i], previous, preserve, i);
    forall t | t in FlatMap(f, states)
      ensures Fine(m, t)
    {
      FlatMapHas(f, states, t);
      var u :| u in states && t in f(u);
      ResetOneKeeps(m, previous, preserve, u, i);
    }
  }

  lemma {:induction false} ResetKeeps(m: Model, previous: Option<State>, preserve: bool, s: State, n: nat)
    requires Typed(m) && n <= |m.vars| && Fine(m, s)
    ensures AllFine(m, Mount.ResetUpTo(MountVars(m), previous, preserve, s, n))
  {
    if n > 0 {
      ResetKeeps(m, previous, preserve, s, n - 1);
      ResetEachKeeps(m, previous, preserve, Mount.ResetUpTo(MountVars(m), previous, preserve, s, n - 1), n - 1);
    }
  }

  lemma {:induction false} PostsKeep(m: Model, s: State, effect: Effect, pre: Option<State>)
    requires Typed(m) && TypedEffect(m, effect) && Fine(m, s) && (pre.Some? ==> Fine(m, pre.value))
    ensures AllFine(m, ApplyEffect(m, s, effect, pre))
  {
    var ctx := Context(if pre.Some? then pre else Some(s), None);
    EffectKeeps(m, s, effect, ctx);
    var posts := ApplyInner(m, s, effect, ctx);
    if posts.Some? && pre.None? {
      forall t | t in ApplyEffect(m, s, effect, pre)
        ensures Fine(m, t)
      {
        FlatMapHas(MountReset(MountVars(m), s), posts.value, t);
        var u :| u in posts.value && t in MountReset(MountVars(m), s)(u);
        ResetKeeps(m, Some(s), false, u, |m.vars|);
      }
    }
  }

  ghost function FineStates(m: Model): State -> bool {
    s => Fine(m, s)
  }

  lemma {:induction false} ExtendedIsFine(m: Model, n: nat, u: State, s: State)
    requires Typed(m) && n < |m.vars| && GoodState(DomainsOf(m)[..n], u) && s in Extended(m.vars[n].initials)(u)
    ensures GoodState(DomainsOf(m)[..n + 1], s)
  {
    var initials := m.vars[n].initials;
    var k :| 0 <= k < |initials| && s == u + [initials[k]];
    assert initials[k] in initials;
  }

  lemma {:induction false} ChoicesAreFine(m: Model, n: nat, s: State)
    requires Typed(m) && n <= |m.vars| && s in ChoicesUpTo(m, n)
    ensures GoodState(DomainsOf(m)[..n], s)
  {
    if n > 0 {
      FlatMapHas(Extended(m.vars[n - 1].initials), ChoicesUpTo(m, n - 1), s);
      var u :| u in ChoicesUpTo(m, n - 1) && s in Extended(m.vars[n - 1].initials)(u);
      ChoicesAreFine(m, n - 1, u);
      ExtendedIsFine(m, n - 1, u, s);
    }
  }

  lemma {:induction false} NormalsAreFine(m: Model)
    requires Typed(m)
    ensures AllFine(m, FlatMap(Normalize(m), ChoicesUpTo(m, |m.vars|)))
  {
    var choices := ChoicesUpTo(m, |m.vars|);
    assert DomainsOf(m)[..|m.vars|] == DomainsOf(m);
    forall u | u in FlatMap(Normalize(m), choices)
      ensures Fine(m, u)
    {
      FlatMapHas(Normalize(m), choices, u);
      var s :| s in choices && u in Normalize(m)(s);
      ChoicesAreFine(m, |m.vars|, s);
      ResetKeeps(m, None, true, s, |m.vars|);
    }
  }

  lemma {:induction false} TypedEffectsKeep(m: Model)
    requires Typed(m)
    ensures EffectsKeep(m, FineStates(m))
  {
    var inv := FineStates(m);
    forall t: nat, s: State, pre: Option<State> | t < |m.transitions| && inv(s) && (pre.Some? ==> inv(pre.value))
      ensures PostsWithin(m, inv, t, s, pre)
    {
      PostsKeep(m, s, m.transitions[t].effect, pre);
    }
  }

  /** In a typed model every state that a run visits is well-typed and exactly shaped. */
  lemma {:induction false} TypedIsWellTyped(m: Model, maxSteps: nat)
    requires Typed(m)
    ensures WellTyped(m, maxSteps)
  {
    TypedEffectsKeep(m);
    NormalsAreFine(m);
    forall s | Occurs(SystemOf(m, maxSteps), s)
      ensures Fine(m, s)
    {
      EffectsKeepRuns(m, FineStates(m), maxSteps, s);
    }
  }
}
