/** Evaluation that refuses reads a property did not declare (crates/checker/src/expr.rs). */
module Checked {
  import opened Bytes
  import opened Values
  import opened Expr
  import opened Wrappers

  // ---------------------------------------------------------------------------
  // What deciding whether a transition is enabled reads
  // ---------------------------------------------------------------------------

  /** What the mount guards of the touched ones among the first `n` variables read. */
  ghost function MountReads(m: Model, touched: set<nat>, n: nat): set<Text>
    requires n <= |m.vars|
  {
    if n == 0 then {} else
    MountReads(m, touched, n - 1) +
      if m.vars[n - 1].guard.Some? && n - 1 in touched then ReadVars(m.vars[n - 1].guard.value) else {}
  }

  /** The reads of a transition's guard and of the mount guards of the locals it touches. */
  ghost function GuardSeeds(m: Model, i: nat): set<Text>
    requires i < |m.transitions|
  {
    ReadVars(m.transitions[i].guard) + MountReads(m, Touched(m, m.transitions[i]), |m.vars|)
  }

  ghost function EnabledVars(m: Model, i: nat): set<Text>
    requires i < |m.transitions|
  {
    CloseVars(m, GuardSeeds(m, i))
  }

  method EnablednessReadVars(m: Model, i: nat) returns (vars: set<Text>)
    requires i < |m.transitions|
    ensures vars == EnabledVars(m, i)
  {
    vars := ReadVars(m.transitions[i].guard);
    var touched := Touched(m, m.transitions[i]);
    for j := 0 to |m.vars|
      invariant vars == ReadVars(m.transitions[i].guard) + MountReads(m, touched, j)
    {
      if m.vars[j].guard.Some? && j in touched {
        vars := vars + ReadVars(m.vars[j].guard.value);
      }
    }
    vars := CloseByPasses(m, vars);
  }

  /** Repeat passes over the declarations until one adds nothing. */
  method CloseByPasses(m: Model, seeds: set<Text>) returns (vars: set<Text>)
    ensures vars == CloseVars(m, seeds)
  {
    vars := seeds;
    while true
      invariant CloseVars(m, seeds) == CloseVars(m, vars)
      decreases GuardReads(m) - vars
    {
      var before := vars;
      for j := 0 to |m.vars|
        invariant vars == Pass(m, before, j)
      {
        if m.vars[j].guard.Some? && m.vars[j].id in vars {
          vars := vars + ReadVars(m.vars[j].guard.value);
        }
      }
      if vars == before {
        return;
      }
    }
  }

  /** What a property may read: what it declares, and what deciding its transitions reads. */
  method AllowedReads(m: Model, declared: seq<Text>, transitions: seq<Text>) returns (allowed: set<Text>)
    ensures forall id :: id in allowed <==> id in declared || DecidedFor(m, transitions, |transitions|, id)
  {
    allowed := AsSet(declared);
    for k := 0 to |transitions|
      invariant forall id :: id in allowed <==> id in declared || DecidedFor(m, transitions, k, id)
    {
      var i := TransitionIndex(m, transitions[k]);
      if i.Some? {
        var vars := EnablednessReadVars(m, i.value);
        allowed := allowed + vars;
      }
    }
  }

  /** Deciding one of the first `n` listed transitions reads the variable. */
  ghost predicate DecidedFor(m: Model, transitions: seq<Text>, n: nat, id: Text)
    requires n <= |transitions|
  {
    n > 0 &&
      (DecidedFor(m, transitions, n - 1, id) ||
       (TransitionIndex(m, transitions[n - 1]).Some? && id in EnabledVars(m, TransitionIndex(m, transitions[n - 1]).value)))
  }

  /** Mount guards of variables in the set read only variables in the set. */
  ghost predicate ClosedUnderGuards(m: Model, vars: set<Text>) {
    forall j | 0 <= j < |m.vars| && m.vars[j].guard.Some? && m.vars[j].id in vars :: ReadVars(m.vars[j].guard.value) <= vars
  }

  lemma {:induction false} PassStays(m: Model, vars: set<Text>, n: nat)
    requires n <= |m.vars| && Pass(m, vars, |m.vars|) == vars
    ensures Pass(m, vars, n) == vars
    decreases |m.vars| - n
  {
    if n < |m.vars| {
      PassStays(m, vars, n + 1);
    }
  }

  lemma {:induction false} PassWithin(m: Model, vars: set<Text>, closed: set<Text>, n: nat)
    requires n <= |m.vars| && vars <= closed && ClosedUnderGuards(m, closed)
    ensures Pass(m, vars, n) <= closed
  {
    if n > 0 {
      PassWithin(m, vars, closed, n - 1);
    }
  }

  /** The passes reach the least set that contains the seeds and is closed under mount guards. */
  lemma {:induction false} CloseIsLeast(m: Model, seeds: set<Text>, closed: set<Text>)
    ensures seeds <= CloseVars(m, seeds) && ClosedUnderGuards(m, CloseVars(m, seeds))
    ensures seeds <= closed && ClosedUnderGuards(m, closed) ==> CloseVars(m, seeds) <= closed
    decreases GuardReads(m) - seeds
  {
    var next := Pass(m, seeds, |m.vars|);
    if next != seeds {
      CloseIsLeast(m, next, closed);
    } else {
      forall j | 0 <= j < |m.vars| && m.vars[j].guard.Some? && m.vars[j].id in seeds
        ensures ReadVars(m.vars[j].guard.value) <= seeds
      {
        PassStays(m, seeds, j);
        PassStays(m, seeds, j + 1);
      }
    }
    if seeds <= closed && ClosedUnderGuards(m, closed) {
      PassWithin(m, seeds, closed, |m.vars|);
    }
  }

  // ---------------------------------------------------------------------------
  // Checked evaluation
  // ---------------------------------------------------------------------------

  datatype Outcome = Got(value: Value) | Undeclared(id: Text) | NoPreState | NoStep

  /** What a step predicate sees besides the state: the pre-state and the arguments of the step's operation. */
  datatype StepContext = StepContext(pre: Option<State>, step: Option<Option<seq<Entry>>>)

  /** The same context for unchecked evaluation. */
  function Unchecked(ctx: StepContext): Context {
    Context(ctx.pre, if ctx.step.Some? then ctx.step.value else None)
  }

  /** Some variable outside the allowed ones, if there is any. */
  ghost function Forbidden(vars: set<Text>, allowed: set<Text>): Option<Text> {
    if vars <= allowed then None else
    var id :| id in vars && id !in allowed;
    Some(id)
  }

  ghost function EvalChecked(m: Model, s: State, e: Expr, ctx: StepContext, allowed: set<Text>): Outcome
    requires PlainGuards(m)
    decreases e, 0
  {
    match e
    case Lit(value) => Got(value)
    case Read(id, path) => if id !in allowed then Undeclared(id) else Got(ReadVar(m, s, id, path))
    case Apply(And, args) => AllTrue(m, s, e, args, ctx, allowed)
    case Apply(Or, args) => AnyTrue(m, s, e, args, ctx, allowed)
    case Apply(Cond, args) =>
      var cond := CheckedArg(m, s, e, args, 0, ctx, allowed);
      if !cond.Got? then cond
      else CheckedArg(m, s, e, args, if IsTrue(cond.value) then 1 else 2, ctx, allowed)
    case Apply(Not, args) =>
      var x := CheckedArg(m, s, e, args, 0, ctx, allowed);
      if !x.Got? then x else Got(ApplyOp(Not, [x.value]))
    case Apply(op, args) =>
      var l := CheckedArg(m, s, e, args, 0, ctx, allowed);
      if !l.Got? then l else
      var r := CheckedArg(m, s, e, args, 1, ctx, allowed);
      if !r.Got? then r else Got(ApplyOp(op, [l.value, r.value]))
    case UpdateField(target, path, field) =>
      var t := EvalChecked(m, s, target, ctx, allowed);
      if !t.Got? then t else
      var v := EvalChecked(m, s, field, ctx, allowed);
      if !v.Got? then v else Got(WritePath(t.value, path, v.value))
    case TagIs(arg, tag) =>
      var x := EvalChecked(m, s, arg, ctx, allowed);
      if !x.Got? then x else Got(HasTag(m, arg, x.value, tag))
    case LenCat(arg) =>
      var x := EvalChecked(m, s, arg, ctx, allowed);
      if !x.Got? then x else Got(LengthOf(x.value))
    case FreshToken(id) =>
      if id !in allowed then Undeclared(id) else
      var t := FreshTokenOf(m, s, id);
      Got(if t.Some? then Str(t.value) else Null)
    case TransitionEnabled(id) =>
      var i := TransitionIndex(m, id);
      if i.None? then Got(Bool(false)) else
      var bad := Forbidden(EnabledVars(m, i.value), allowed);
      if bad.Some? then Undeclared(bad.value) else Got(Bool(IsEnabled(m, s, i.value)))
    case TransitionEnabledPrefix(prefix) =>
      var bad := ForbiddenPrefix(m, prefix, |m.transitions|, allowed);
      if bad.Some? then Undeclared(bad.value)
      else Got(Bool(exists i | 0 <= i < |m.transitions| :: prefix <= m.transitions[i].id && IsEnabled(m, s, i)))
    case ReadPre(id, path) =>
      if ctx.pre.None? then NoPreState
      else if id !in allowed then Undeclared(id)
      else Got(ReadVar(m, ctx.pre.value, id, path))
    case ReadOpArg(name) =>
      if ctx.step.None? then NoStep else
      var x := if ctx.step.value.Some? then Get(ctx.step.value.value, name) else None;
      Got(if x.Some? then x.value else Null)
  }

  /** A variable outside the allowed ones that deciding one of the first `n` matching transitions reads. */
  ghost function ForbiddenPrefix(m: Model, prefix: Text, n: nat, allowed: set<Text>): Option<Text>
    requires n <= |m.transitions|
  {
    if n == 0 then None else
    var bad := ForbiddenPrefix(m, prefix, n - 1, allowed);
    if bad.Some? || !(prefix <= m.transitions[n - 1].id) then bad else Forbidden(EnabledVars(m, n - 1), allowed)
  }

  /** An argument, null when it is missing. */
  ghost function CheckedArg(m: Model, s: State, e: Expr, args: seq<Expr>, i: nat, ctx: StepContext, allowed: set<Text>): Outcome
    requires PlainGuards(m) && forall k | 0 <= k < |args| :: args[k] < e
    decreases e, 0, |args|
  {
    if i < |args| then EvalChecked(m, s, args[i], ctx, allowed) else Got(Null)
  }

  ghost function AllTrue(m: Model, s: State, e: Expr, args: seq<Expr>, ctx: StepContext, allowed: set<Text>): Outcome
    requires PlainGuards(m) && forall k | 0 <= k < |args| :: args[k] < e
    decreases e, 0, |args|
  {
    if args == [] then Got(Bool(true)) else
    var x := EvalChecked(m, s, args[0], ctx, allowed);
    if !x.Got? then x else if !IsTrue(x.value) then Got(Bool(false)) else AllTrue(m, s, e, args[1..], ctx, allowed)
  }

  ghost function AnyTrue(m: Model, s: State, e: Expr, args: seq<Expr>, ctx: StepContext, allowed: set<Text>): Outcome
    requires PlainGuards(m) && forall k | 0 <= k < |args| :: args[k] < e
    decreases e, 0, |args|
  {
    if args == [] then Got(Bool(false)) else
    var x := EvalChecked(m, s, args[0], ctx, allowed);
    if !x.Got? then x else if IsTrue(x.value) then Got(Bool(true)) else AnyTrue(m, s, e, args[1..], ctx, allowed)
  }

  // ---------------------------------------------------------------------------
  // Checked evaluation is evaluation
  // ---------------------------------------------------------------------------

  function EvalAll(m: Model, s: State, args: seq<Expr>, ctx: Context): (vs: seq<Value>)
    requires PlainGuards(m)
    ensures |vs| == |args| && forall i | 0 <= i < |args| :: vs[i] == Eval(m, s, args[i], ctx, true)
  {
    seq(|args|, i requires 0 <= i < |args| => Eval(m, s, args[i], ctx, true))
  }

  /** Whenever checked evaluation gives a value, evaluation gives that value. */
  lemma {:induction false} CheckedIsEval(m: Model, s: State, e: Expr, ctx: StepContext, allowed: set<Text>)
    requires PlainGuards(m)
    ensures EvalChecked(m, s, e, ctx, allowed).Got? ==>
              EvalChecked(m, s, e, ctx, allowed).value == Eval(m, s, e, Unchecked(ctx), true)
    decreases e, 1
  {
    match e
    case Apply(op, args) =>
      forall k | 0 <= k < |args|
        ensures EvalChecked(m, s, args[k], ctx, allowed).Got? ==>
                  EvalChecked(m, s, args[k], ctx, allowed).value == Eval(m, s, args[k], Unchecked(ctx), true)
      {
        CheckedIsEval(m, s, args[k], ctx, allowed);
      }
      ApplyIsEval(m, s, e, op, args, ctx, allowed);
    case UpdateField(target, _, field) =>
      CheckedIsEval(m, s, target, ctx, allowed);
      CheckedIsEval(m, s, field, ctx, allowed);
    case TagIs(arg, _) => CheckedIsEval(m, s, arg, ctx, allowed);
    case LenCat(arg) => CheckedIsEval(m, s, arg, ctx, allowed);
    case _ =>
  }

  lemma {:induction false} ApplyIsEval(m: Model, s: State, e: Expr, op: Op, args: seq<Expr>, ctx: StepContext, allowed: set<Text>)
    requires PlainGuards(m) && e == Apply(op, args)
    requires forall k | 0 <= k < |args| :: EvalChecked(m, s, args[k], ctx, allowed).Got? ==>
               EvalChecked(m, s, args[k], ctx, allowed).value == Eval(m, s, args[k], Unchecked(ctx), true)
    ensures EvalChecked(m, s, e, ctx, allowed).Got? ==>
              EvalChecked(m, s, e, ctx, allowed).value == ApplyOp(op, EvalAll(m, s, args, Unchecked(ctx)))
    ensures Eval(m, s, e, Unchecked(ctx), true) == ApplyOp(op, EvalAll(m, s, args, Unchecked(ctx)))
  {
    var vs := EvalAll(m, s, args, Unchecked(ctx));
    assert vs == seq(|args|, i requires 0 <= i < |args| => Eval(m, s, args[i], Unchecked(ctx), true));
    if op == And {
      AllTrueIsEval(m, s, e, args, ctx, allowed);
    } else if op == Or {
      AnyTrueIsEval(m, s, e, args, ctx, allowed);
    }
  }

  lemma {:induction false} AllTrueIsEval(m: Model, s: State, e: Expr, args: seq<Expr>, ctx: StepContext, allowed: set<Text>)
    requires PlainGuards(m) && forall k | 0 <= k < |args| :: args[k] < e
    requires forall k | 0 <= k < |args| :: EvalChecked(m, s, args[k], ctx, allowed).Got? ==>
               EvalChecked(m, s, args[k], ctx, allowed).value == Eval(m, s, args[k], Unchecked(ctx), true)
    ensures var r := AllTrue(m, s, e, args, ctx, allowed);
            r.Got? ==> r.value == Bool(forall i | 0 <= i < |args| :: IsTrue(Eval(m, s, args[i], Unchecked(ctx), true)))
    decreases |args|
  {
    if args != [] {
      AllTrueIsEval(m, s, e, args[1..], ctx, allowed);
    }
  }

  lemma {:induction false} AnyTrueIsEval(m: Model, s: State, e: Expr, args: seq<Expr>, ctx: StepContext, allowed: set<Text>)
    requires PlainGuards(m) && forall k | 0 <= k < |args| :: args[k] < e
    requires forall k | 0 <= k < |args| :: EvalChecked(m, s, args[k], ctx, allowed).Got? ==>
               EvalChecked(m, s, args[k], ctx, allowed).value == Eval(m, s, args[k], Unchecked(ctx), true)
    ensures var r := AnyTrue(m, s, e, args, ctx, allowed);
            r.Got? ==> r.value == Bool(exists i | 0 <= i < |args| :: IsTrue(Eval(m, s, args[i], Unchecked(ctx), true)))
    decreases |args|
  {
    if args != [] {
      AnyTrueIsEval(m, s, e, args[1..], ctx, allowed);
      assert forall i | 1 <= i < |args| :: args[i] == args[1..][i - 1];
    }
  }

  // ---------------------------------------------------------------------------
  // Non-interference
  // ---------------------------------------------------------------------------

  /** The states hold the same values in these variables. */
  ghost predicate AgreeOn(m: Model, vars: set<Text>, s: State, t: State) {
    |s| == |t| && forall i | 0 <= i < |m.vars| && i < |s| && m.vars[i].id in vars :: s[i] == t[i]
  }

  /** The variables that validation finds in an expression: of a negation only the first argument counts. */
  ghost function WalkVars(e: Expr): (r: set<Text>)
    ensures r <= ReadVars(e)
  {
    match e
    case Read(id, _) => {id}
    case Apply(Not, args) => if args == [] then {} else WalkVars(args[0])
    case Apply(_, args) => set i, id | 0 <= i < |args| && id in WalkVars(args[i]) :: id
    case UpdateField(target, _, field) => WalkVars(target) + WalkVars(field)
    case TagIs(arg, _) => WalkVars(arg)
    case LenCat(arg) => WalkVars(arg)
    case _ => {}
  }

  /** A plain expression depends only on the variables validation finds in it. */
  lemma {:induction false} PlainReadsOnly(m: Model, e: Expr, s: State, t: State, ctx: Context, ctx': Context, deep: bool)
    requires Plain(e) && AgreeOn(m, WalkVars(e), s, t) && (deep ==> PlainGuards(m))
    ensures Eval(m, s, e, ctx, deep) == Eval(m, t, e, ctx', deep)
    decreases e
  {
    match e
    case Apply(op, args) =>
      var x := seq(|args|, i requires 0 <= i < |args| => Eval(m, s, args[i], ctx, deep));
      var y := seq(|args|, i requires 0 <= i < |args| => Eval(m, t, args[i], ctx', deep));
      forall k | 0 <= k < |args| && (op != Not || k == 0)
        ensures x[k] == y[k]
      {
        assert WalkVars(args[k]) <= WalkVars(e);
        PlainReadsOnly(m, args[k], s, t, ctx, ctx', deep);
      }
      SameResult(op, x, y);
    case UpdateField(target, _, field) =>
      PlainReadsOnly(m, target, s, t, ctx, ctx', deep);
      PlainReadsOnly(m, field, s, t, ctx, ctx', deep);
    case TagIs(arg, _) => PlainReadsOnly(m, arg, s, t, ctx, ctx', deep);
    case LenCat(arg) => PlainReadsOnly(m, arg, s, t, ctx, ctx', deep);
    case _ =>
  }

  lemma {:induction false} SameResult(op: Op, x: seq<Value>, y: seq<Value>)
    requires |x| == |y| && forall k | 0 <= k < |x| && (op != Not || k == 0) :: x[k] == y[k]
    ensures ApplyOp(op, x) == ApplyOp(op, y)
  {
    if op != Not {
      assert x == y;
    }
  }

  lemma {:induction false} MountReadsHas(m: Model, touched: set<nat>, n: nat, j: nat)
    requires j < n <= |m.vars| && m.vars[j].guard.Some? && j in touched
    ensures ReadVars(m.vars[j].guard.value) <= MountReads(m, touched, n)
    decreases n
  {
    if j < n - 1 {
      MountReadsHas(m, touched, n - 1, j);
    }
  }

  /** Whether a transition is enabled depends only on its enabledness variables. */
  lemma {:induction false} EnabledReadsOnly(m: Model, i: nat, s: State, t: State)
    requires PlainGuards(m) && i < |m.transitions| && AgreeOn(m, EnabledVars(m, i), s, t)
    ensures IsEnabled(m, s, i) == IsEnabled(m, t, i)
  {
    CloseIsLeast(m, GuardSeeds(m, i), {});
    var touched := Touched(m, m.transitions[i]);
    PlainReadsOnly(m, m.transitions[i].guard, s, t, NO_CONTEXT, NO_CONTEXT, false);
    forall j | 0 <= j < |m.vars| && m.vars[j].guard.Some? && j in touched
      ensures GuardHolds(m, s, m.vars[j].guard.value) == GuardHolds(m, t, m.vars[j].guard.value)
    {
      MountReadsHas(m, touched, |m.vars|, j);
      PlainReadsOnly(m, m.vars[j].guard.value, s, t, NO_CONTEXT, NO_CONTEXT, false);
    }
  }

  /** The expression nowhere asks for an unused token. */
  ghost predicate NoFreshToken(e: Expr) {
    match e
    case FreshToken(_) => false
    case Apply(_, args) => forall i | 0 <= i < |args| :: NoFreshToken(args[i])
    case UpdateField(target, _, field) => NoFreshToken(target) && NoFreshToken(field)
    case TagIs(arg, _) => NoFreshToken(arg)
    case LenCat(arg) => NoFreshToken(arg)
    case _ => true
  }

  /** The contexts have pre-states that agree, and the same step. */
  ghost predicate AgreeInContext(m: Model, allowed: set<Text>, ctx: StepContext, ctx': StepContext) {
    && ctx.step == ctx'.step && (ctx.pre.Some? <==> ctx'.pre.Some?)
    && (ctx.pre.Some? ==> AgreeOn(m, allowed, ctx.pre.value, ctx'.pre.value))
  }

  lemma {:induction false} PrefixReadsOnly(m: Model, prefix: Text, n: nat, allowed: set<Text>, s: State, t: State, i: nat)
    requires PlainGuards(m) && i < n <= |m.transitions| && prefix <= m.transitions[i].id
    requires ForbiddenPrefix(m, prefix, n, allowed).None? && AgreeOn(m, allowed, s, t)
    ensures IsEnabled(m, s, i) == IsEnabled(m, t, i)
    decreases n
  {
    if i < n - 1 {
      PrefixReadsOnly(m, prefix, n - 1, allowed, s, t, i);
    } else {
      EnabledReadsOnly(m, i, s, t);
    }
  }

  /** Checked evaluation is non-interfering: what lies outside the allowed variables, in the state or the
      pre-state, changes neither the value nor the error. */
  lemma {:induction false} CheckedReadsOnly(m: Model, e: Expr, s: State, t: State, ctx: StepContext, ctx': StepContext, allowed: set<Text>)
    requires PlainGuards(m) && NoFreshToken(e)
    requires AgreeOn(m, allowed, s, t) && AgreeInContext(m, allowed, ctx, ctx')
    ensures EvalChecked(m, s, e, ctx, allowed) == EvalChecked(m, t, e, ctx', allowed)
    decreases e, 1
  {
    match e
    case Apply(op, args) =>
      forall k | 0 <= k < |args|
        ensures EvalChecked(m, s, args[k], ctx, allowed) == EvalChecked(m, t, args[k], ctx', allowed)
      {
        CheckedReadsOnly(m, args[k], s, t, ctx, ctx', allowed);
      }
      ListsReadOnly(m, e, args, s, t, ctx, ctx', allowed);
    case UpdateField(target, _, field) =>
      CheckedReadsOnly(m, target, s, t, ctx, ctx', allowed);
      CheckedReadsOnly(m, field, s, t, ctx, ctx', allowed);
    case TagIs(arg, _) => CheckedReadsOnly(m, arg, s, t, ctx, ctx', allowed);
    case LenCat(arg) => CheckedReadsOnly(m, arg, s, t, ctx, ctx', allowed);
    case TransitionEnabled(id) =>
      var i := TransitionIndex(m, id);
      if i.Some? && EnabledVars(m, i.value) <= allowed {
        EnabledReadsOnly(m, i.value, s, t);
      }
    case TransitionEnabledPrefix(prefix) =>
      if ForbiddenPrefix(m, prefix, |m.transitions|, allowed).None? {
        forall i | 0 <= i < |m.transitions| && prefix <= m.transitions[i].id
          ensures IsEnabled(m, s, i) == IsEnabled(m, t, i)
        {
          PrefixReadsOnly(m, prefix, |m.transitions|, allowed, s, t, i);
        }
      }
    case _ =>
  }

  lemma {:induction false} ListsReadOnly(m: Model, e: Expr, args: seq<Expr>, s: State, t: State, ctx: StepContext, ctx': StepContext, allowed: set<Text>)
    requires PlainGuards(m) && forall k | 0 <= k < |args| :: args[k] < e
    requires forall k | 0 <= k < |args| :: EvalChecked(m, s, args[k], ctx, allowed) == EvalChecked(m, t, args[k], ctx', allowed)
    ensures AllTrue(m, s, e, args, ctx, allowed) == AllTrue(m, t, e, args, ctx', allowed)
    ensures AnyTrue(m, s, e, args, ctx, allowed) == AnyTrue(m, t, e, args, ctx', allowed)
    decreases |args|
  {
    if args != [] {
      ListsReadOnly(m, e, args[1..], s, t, ctx, ctx', allowed);
    }
  }

  /** A transition touches the variables it declares to read or write, those its guard reads, and what the mount guards
      of these read in turn. */
  lemma {:induction false} TouchedIsExact(m: Model, t: Transition, i: nat)
    ensures i in Touched(m, t) <==>
            i < |m.vars| && (m.vars[i].id in t.declaredWrites ||
              forall closed | ClosedUnderGuards(m, closed) && AsSet(t.declaredReads) + ReadVars(t.guard) <= closed :: m.vars[i].id in closed)
  {
    var seeds := AsSet(t.declaredReads) + ReadVars(t.guard);
    CloseIsLeast(m, seeds, {});
    forall closed | ClosedUnderGuards(m, closed) && seeds <= closed
      ensures CloseVars(m, seeds) <= closed
    {
      CloseIsLeast(m, seeds, closed);
    }
    if i < |m.vars| && m.vars[i].id in t.declaredWrites {
      var k :| 0 <= k < |t.declaredWrites| && t.declaredWrites[k] == m.vars[i].id;
      assert t.declaredWrites[k] in AsSet(t.declaredWrites);
    }
  }
}
