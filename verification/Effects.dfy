/** The effect language: what effects do, and how far they reach
    (crates/checker/src/effect.rs, crates/checker/src/domain.rs). */
module Effects {
  import opened Bytes
  import opened Mapping
  import opened Values
  import opened Enumerate
  import opened Expr
  import opened Checked
  import Mount
  import opened Wrappers

  // ---------------------------------------------------------------------------
  // Applying effects
  // ---------------------------------------------------------------------------

  function WithEach(s: State, i: nat, vs: seq<Value>): (r: seq<State>)
    ensures |r| == |vs| && forall k | 0 <= k < |r| :: r[k] == WithVar(s, i, vs[k])
  {
    seq(|vs|, k requires 0 <= k < |vs| => WithVar(s, i, vs[k]))
  }

  /** The value stored by an assignment, or none when it does not fit. */
  function Storable(d: Domain, raw: Value): Option<Value> {
    if d.IntD? || d.IntSetD? then
      if !raw.Int? then None else
      var n := ApplyNumericAssign(d, raw.n);
      if n.Some? then Some(Int(n.value)) else None
    else if d.ListD? && !Validate(d, raw) then None
    else Some(raw)
  }

  predicate IsQueue(m: Model, i: nat) {
    i < |m.vars| && m.vars[i].role == PendingQueue
  }

  /** The queue variables among the first `n`. */
  function QueuesUpTo(m: Model, n: nat): (r: seq<nat>)
    requires n <= |m.vars|
    ensures forall k | 0 <= k < |r| :: r[k] < n
  {
    if n == 0 then [] else
    QueuesUpTo(m, n - 1) + if IsQueue(m, n - 1) then [n - 1] else []
  }

  /** The queue an operation works on: the named one, or the only one. */
  function QueueIndex(m: Model, queue: Option<Text>): (r: Option<nat>)
    ensures r.Some? ==> 0 <= r.value < |m.vars|
  {
    if queue.Some? then
      var i := VarIndex(m, queue.value);
      if i.Some? && IsQueue(m, i.value) then i else None
    else
      var queues := QueuesUpTo(m, |m.vars|);
      if |queues| == 1 then Some(queues[0]) else None
  }

  function Pending(s: State, i: nat): seq<Value> {
    if i < |s| && s[i].Arr? then s[i].items else []
  }

  function PutArgs(args: seq<Entry>): seq<Entry> {
    if args == [] then [] else
    var n := |args| - 1;
    Put(PutArgs(args[..n]), args[n].name, args[n].value)
  }

  const ARGS: Text := Ascii("args")
  const CONTINUATION: Text := Ascii("continuation")
  const OP_ID: Text := Ascii("opId")

  function Operation(op: Text, continuation: Text, args: seq<Entry>): Value {
    Obj([Entry(ARGS, Obj(PutArgs(args))), Entry(CONTINUATION, Str(continuation)), Entry(OP_ID, Str(op))])
  }

  /** The arguments of the pending operation at an index. */
  function OpArgsAt(m: Model, s: State, queue: Option<Text>, index: nat): Option<seq<Entry>> {
    var i := QueueIndex(m, queue);
    if i.None? || index >= |Pending(s, i.value)| || !Pending(s, i.value)[index].Obj? then None else
    var args := Get(Pending(s, i.value)[index].entries, ARGS);
    if args.Some? && args.value.Obj? then Some(args.value.entries) else None
  }

  /** The posts of an effect on a state; none at all when a token or a queue is missing. */
  function ApplyInner(m: Model, s: State, effect: Effect, ctx: Context): Option<seq<State>>
    requires PlainGuards(m)
    decreases effect, 1, 0
  {
    match effect
    case Assign(id, expr) =>
      var i := VarIndex(m, id);
      if i.None? || (expr.FreshToken? && FreshTokenOf(m, s, expr.domainOf).None?) then None else
      var v := Storable(m.vars[i.value].domain, Eval(m, s, expr, ctx, true));
      Some(if v.Some? then [WithVar(s, i.value, v.value)] else [])
    case Havoc(id) =>
      var i := VarIndex(m, id);
      if i.None? then None else Some(WithEach(s, i.value, EnumerateDomain(m.vars[i.value].domain)))
    case Choose(id, among) =>
      var i := VarIndex(m, id);
      if i.None? then None else Some(WithEach(s, i.value, EvalAll(m, s, among, ctx)))
    case If(cond, onTrue, onFalse) =>
      if IsTrue(Eval(m, s, cond, ctx, true)) then ApplyInner(m, s, onTrue, ctx) else ApplyInner(m, s, onFalse, ctx)
    case Seq(effects) => Some(ApplySeq(m, effect, [s], effects, ctx.(opArgs := None)))
    case Enqueue(queue, op, continuation, args) =>
      var i := QueueIndex(m, queue);
      if i.None? then None
      else if |Pending(s, i.value)| >= m.maxPending then Some([])
      else Some([WithVar(s, i.value, Arr(Pending(s, i.value) + [Operation(op, continuation, EvalArgs(m, s, args, ctx))]))])
    case Dequeue(queue, index) =>
      var i := QueueIndex(m, queue);
      if i.None? then None else
      var pending := Pending(s, i.value);
      Some([if index >= |pending| then s else WithVar(s, i.value, Arr(pending[..index] + pending[index + 1..]))])
    case Opaque => None
  }

  function EvalArgs(m: Model, s: State, args: seq<Arg>, ctx: Context): (r: seq<Entry>)
    requires PlainGuards(m)
    ensures |r| == |args| && forall k | 0 <= k < |args| :: r[k] == Entry(args[k].name, Eval(m, s, args[k].expr, ctx, true))
  {
    seq(|args|, k requires 0 <= k < |args| => Entry(args[k].name, Eval(m, s, args[k].expr, ctx, true)))
  }

  /** One effect on each state in turn; a failure contributes nothing. */
  function ApplyEach(m: Model, states: seq<State>, effect: Effect, ctx: Context): seq<State>
    requires PlainGuards(m)
    decreases effect, 1, |states| + 1
  {
    if states == [] then [] else
    var n := |states| - 1;
    var posts := ApplyInner(m, states[n], effect, ctx);
    ApplyEach(m, states[..n], effect, ctx) + if posts.Some? then posts.value else []
  }

  /** What `readOpArg` sees once an effect of a sequence is reached. */
  function Resolving(m: Model, states: seq<State>, effect: Effect, ctx: Context): Context {
    if !effect.Dequeue? || states == [] then ctx else
    var args := OpArgsAt(m, states[0], effect.queue, effect.index);
    if args.Some? then ctx.(opArgs := args) else ctx
  }

  /** The effects one after the other, starting from all of these states. */
  function ApplySeq(m: Model, ghost parent: Effect, states: seq<State>, effects: seq<Effect>, ctx: Context): seq<State>
    requires PlainGuards(m) && forall k | 0 <= k < |effects| :: effects[k] < parent
    decreases parent, 0, |effects|
  {
    if effects == [] then states else
    var next := Resolving(m, states, effects[0], ctx);
    ApplySeq(m, parent, ApplyEach(m, states, effects[0], next), effects[1..], next)
  }

  /** Effects run in place: a sequence keeps the list of states reached so far and the arguments in force. */
  method ApplyEffectInner(m: Model, s: State, effect: Effect, ctx: Context) returns (r: Option<seq<State>>)
    requires PlainGuards(m)
    ensures r == ApplyInner(m, s, effect, ctx)
    decreases effect, 1, 0
  {
    match effect {
      case If(cond, onTrue, onFalse) =>
        if IsTrue(Eval(m, s, cond, ctx, true)) {
          r := ApplyEffectInner(m, s, onTrue, ctx);
        } else {
          r := ApplyEffectInner(m, s, onFalse, ctx);
        }
      case Seq(effects) =>
        var states, options := [s], ctx.(opArgs := None);
        for k := 0 to |effects|
          invariant ApplySeq(m, effect, [s], effects, ctx.(opArgs := None)) == ApplySeq(m, effect, states, effects[k..], options)
        {
          ghost var rest := effects[k..];
          assert rest[0] == effects[k] && rest[1..] == effects[k + 1..];
          options := Resolving(m, states, effects[k], options);
          states := ApplyToEach(m, states, effects[k], options);
        }
        r := Some(states);
      case _ => r := ApplyInner(m, s, effect, ctx);
    }
  }

  method ApplyToEach(m: Model, states: seq<State>, effect: Effect, ctx: Context) returns (next: seq<State>)
    requires PlainGuards(m)
    ensures next == ApplyEach(m, states, effect, ctx)
    decreases effect, 1, |states| + 1
  {
    next := [];
    for k := 0 to |states|
      invariant next == ApplyEach(m, states[..k], effect, ctx)
    {
      assert states[..k + 1][..k] == states[..k];
      var posts := ApplyEffectInner(m, states[k], effect, ctx);
      next := next + if posts.Some? then posts.value else [];
    }
    assert states[..|states|] == states;
  }

  // ---------------------------------------------------------------------------
  // What effects write
  // ---------------------------------------------------------------------------

  function OneOf(i: Option<nat>): set<nat> {
    if i.Some? then {i.value} else {}
  }

  function Writes(m: Model, effect: Effect): set<nat>
    decreases effect
  {
    match effect
    case Assign(id, _) => OneOf(VarIndex(m, id))
    case Havoc(id) => OneOf(VarIndex(m, id))
    case Choose(id, _) => OneOf(VarIndex(m, id))
    case If(_, onTrue, onFalse) => Writes(m, onTrue) + Writes(m, onFalse)
    case Seq(effects) => set k, i | 0 <= k < |effects| && i in Writes(m, effects[k]) :: i
    case Enqueue(queue, _, _, _) => OneOf(QueueIndex(m, queue))
    case Dequeue(queue, _) => OneOf(QueueIndex(m, queue))
    case Opaque => {}
  }

  /** The states differ at most on these variables. */
  ghost predicate SameOutside(w: set<nat>, s: State, t: State) {
    |s| == |t| && forall i | 0 <= i < |s| && i !in w :: s[i] == t[i]
  }

  /** Every post differs from the state at most on what the effect writes. */
  lemma {:induction false} FrameOfEffect(m: Model, s: State, effect: Effect, ctx: Context, w: set<nat>)
    requires PlainGuards(m) && Writes(m, effect) <= w
    ensures ApplyInner(m, s, effect, ctx).Some? ==>
              forall t | t in ApplyInner(m, s, effect, ctx).value :: SameOutside(w, s, t)
    decreases effect, 1, 0
  {
    match effect
    case If(_, onTrue, onFalse) =>
      FrameOfEffect(m, s, onTrue, ctx, w);
      FrameOfEffect(m, s, onFalse, ctx, w);
    case Seq(effects) =>
      forall k | 0 <= k < |effects|
        ensures Writes(m, effects[k]) <= w
      {
        assert Writes(m, effects[k]) <= Writes(m, effect);
      }
      FrameOfSeq(m, s, effect, [s], effects, ctx.(opArgs := None), w);
    case _ =>
  }

  lemma {:induction false} FrameOfEach(m: Model, s: State, states: seq<State>, effect: Effect, ctx: Context, w: set<nat>)
    requires PlainGuards(m) && Writes(m, effect) <= w && forall t | t in states :: SameOutside(w, s, t)
    ensures forall t | t in ApplyEach(m, states, effect, ctx) :: SameOutside(w, s, t)
    decreases effect, 1, |states| + 1
  {
    if states != [] {
      var n := |states| - 1;
      FrameOfEach(m, s, states[..n], effect, ctx, w);
      FrameOfEffect(m, states[n], effect, ctx, w);
      assert SameOutside(w, s, states[n]);
    }
  }

  lemma {:induction false} FrameOfSeq(m: Model, s: State, parent: Effect, states: seq<State>, effects: seq<Effect>, ctx: Context, w: set<nat>)
    requires PlainGuards(m) && forall k | 0 <= k < |effects| :: effects[k] < parent
    requires (forall k | 0 <= k < |effects| :: Writes(m, effects[k]) <= w) && forall t | t in states :: SameOutside(w, s, t)
    ensures forall t | t in ApplySeq(m, parent, states, effects, ctx) :: SameOutside(w, s, t)
    decreases parent, 0, |effects|
  {
    if effects != [] {
      var next := Resolving(m, states, effects[0], ctx);
      FrameOfEach(m, s, states, effects[0], next, w);
      FrameOfSeq(m, s, parent, ApplyEach(m, states, effects[0], next), effects[1..], next, w);
    }
  }

  /** Havoc branches over the whole domain: to every mounted, exactly shaped valid value, and only to valid ones. */
  lemma {:induction false} HavocCoversDomain(m: Model, s: State, id: Text, i: nat, v: Value, ctx: Context)
    requires PlainGuards(m) && |s| == |m.vars| && VarIndex(m, id) == Some(i) && Proper(m.vars[i].domain) && Mounted(v)
    ensures ApplyInner(m, s, Havoc(id), ctx).Some?
    ensures s[i := v] in ApplyInner(m, s, Havoc(id), ctx).value <==> Validate(m.vars[i].domain, v) && Exact(m.vars[i].domain, v)
  {
    var d := m.vars[i].domain;
    var values := EnumerateDomain(d);
    var posts := WithEach(s, i, values);
    if Validate(d, v) && Exact(d, v) {
      ValidIsEnumerated(d, v);
      var k :| 0 <= k < |values| && values[k] == v;
      assert posts[k] == s[i := v];
    }
    if s[i := v] in posts {
      var k :| 0 <= k < |posts| && posts[k] == s[i := v];
      assert posts[k][i] == values[k];
      EnumeratedIsValid(d, v);
    }
  }

  /** An assignment to a numeric or list variable stores a value of its domain, or has no post. */
  lemma {:induction false} AssignStaysInDomain(m: Model, s: State, id: Text, expr: Expr, i: nat, ctx: Context, t: State)
    requires PlainGuards(m) && |s| == |m.vars| && VarIndex(m, id) == Some(i)
    requires var d := m.vars[i].domain; d.ListD? || d.IntSetD? || (d.IntD? && d.min <= d.max)
    requires ApplyInner(m, s, Assign(id, expr), ctx).Some? && t in ApplyInner(m, s, Assign(id, expr), ctx).value
    ensures |t| == |s| && Validate(m.vars[i].domain, t[i]) && t == s[i := t[i]]
  {
    var d, raw := m.vars[i].domain, Eval(m, s, expr, ctx, true);
    if !d.ListD? && raw.Int? {
      NumericAssignStays(d, raw.n);
    }
  }

  // ---------------------------------------------------------------------------
  // What effects depend on
  // ---------------------------------------------------------------------------

  predicate PlainEffect(effect: Effect) {
    match effect
    case Assign(_, expr) => Plain(expr)
    case Choose(_, among) => forall k | 0 <= k < |among| :: Plain(among[k])
    case If(cond, onTrue, onFalse) => Plain(cond) && PlainEffect(onTrue) && PlainEffect(onFalse)
    case Seq(effects) => forall k | 0 <= k < |effects| :: PlainEffect(effects[k])
    case Enqueue(_, _, _, args) => forall k | 0 <= k < |args| :: Plain(args[k].expr)
    case _ => true
  }

  /** The variables that validation finds an effect to read. */
  ghost function EffectReads(effect: Effect): set<Text> {
    match effect
    case Assign(_, expr) => WalkVars(expr)
    case Choose(_, among) => set k, id | 0 <= k < |among| && id in WalkVars(among[k]) :: id
    case If(cond, onTrue, onFalse) => WalkVars(cond) + EffectReads(onTrue) + EffectReads(onFalse)
    case Seq(effects) => set k, id | 0 <= k < |effects| && id in EffectReads(effects[k]) :: id
    case Enqueue(_, _, _, args) => set k, id | 0 <= k < |args| && id in WalkVars(args[k].expr) :: id
    case _ => {}
  }

  /** `s` on the variables of `f`, `t` elsewhere. */
  ghost function Overlay(s: State, t: State, f: set<nat>): (r: State)
    requires |s| == |t|
    ensures |r| == |t| && forall i | 0 <= i < |r| :: r[i] == if i in f then s[i] else t[i]
  {
    seq(|t|, i requires 0 <= i < |t| => if i in f then s[i] else t[i])
  }

  ghost predicate Wide(states: seq<State>, n: nat) {
    forall k | 0 <= k < |states| :: |states[k]| == n
  }

  ghost function OverlayAll(states: seq<State>, t: State, f: set<nat>): (r: seq<State>)
    requires Wide(states, |t|)
    ensures |r| == |states| && forall k | 0 <= k < |r| :: r[k] == Overlay(states[k], t, f)
  {
    seq(|states|, k requires 0 <= k < |states| => Overlay(states[k], t, f))
  }

  /** The variables of `f` cover what the effect reads and writes. */
  ghost predicate Spans(m: Model, effect: Effect, f: set<nat>) {
    IndexesOf(m, EffectReads(effect)) <= f && Writes(m, effect) <= f
  }

  lemma {:induction false} OverlayAgrees(m: Model, vars: set<Text>, s: State, t: State, f: set<nat>)
    requires |s| == |t| && IndexesOf(m, vars) <= f
    ensures AgreeOn(m, vars, s, Overlay(s, t, f))
  {
  }

  lemma {:induction false} OverlayWrite(s: State, t: State, f: set<nat>, i: nat, v: Value)
    requires |s| == |t| && i in f
    ensures Overlay(WithVar(s, i, v), t, f) == WithVar(Overlay(s, t, f), i, v)
  {
    assert Overlay(WithVar(s, i, v), t, f) == WithVar(Overlay(s, t, f), i, v);
  }

  lemma {:induction false} OverlayWrites(s: State, t: State, f: set<nat>, i: nat, vs: seq<Value>)
    requires |s| == |t| && i in f
    ensures OverlayAll(WithEach(s, i, vs), t, f) == WithEach(Overlay(s, t, f), i, vs)
  {
    forall k | 0 <= k < |vs|
      ensures OverlayAll(WithEach(s, i, vs), t, f)[k] == WithEach(Overlay(s, t, f), i, vs)[k]
    {
      OverlayWrite(s, t, f, i, vs[k]);
    }
  }

  lemma {:induction false} EvalOverlay(m: Model, e: Expr, s: State, t: State, f: set<nat>, ctx: Context, ctx': Context, vars: set<Text>)
    requires PlainGuards(m) && Plain(e) && |s| == |t| && WalkVars(e) <= vars && IndexesOf(m, vars) <= f
    ensures Eval(m, Overlay(s, t, f), e, ctx', true) == Eval(m, s, e, ctx, true)
  {
    OverlayAgrees(m, vars, s, t, f);
    PlainReadsOnly(m, e, s, Overlay(s, t, f), ctx, ctx', true);
  }

  /** The effect does the same to `s` and to `s` overlaid on `t`. */
  ghost predicate ActsLocally(x: Option<seq<State>>, y: Option<seq<State>>, t: State, f: set<nat>) {
    && (x.Some? <==> y.Some?)
    && (x.Some? ==> Wide(x.value, |t|) && y.value == OverlayAll(x.value, t, f))
  }

  lemma {:induction false} AssignIsLocal(m: Model, s: State, t: State, f: set<nat>, effect: Effect, ctx: Context, ctx': Context)
    requires PlainGuards(m) && |s| == |t| && effect.Assign? && PlainEffect(effect) && Spans(m, effect, f)
    ensures ActsLocally(ApplyInner(m, s, effect, ctx), ApplyInner(m, Overlay(s, t, f), effect, ctx'), t, f)
  {
    var i := VarIndex(m, effect.id);
    if i.Some? {
      EvalOverlay(m, effect.expr, s, t, f, ctx, ctx', WalkVars(effect.expr));
      var v := Storable(m.vars[i.value].domain, Eval(m, s, effect.expr, ctx, true));
      if v.Some? {
        OverlayWrite(s, t, f, i.value, v.value);
      }
    }
  }

  lemma {:induction false} ChoiceIsLocal(m: Model, s: State, t: State, f: set<nat>, effect: Effect, ctx: Context, ctx': Context)
    requires PlainGuards(m) && |s| == |t| && (effect.Choose? || effect.Havoc?) && PlainEffect(effect) && Spans(m, effect, f)
    ensures ActsLocally(ApplyInner(m, s, effect, ctx), ApplyInner(m, Overlay(s, t, f), effect, ctx'), t, f)
  {
    var i := VarIndex(m, effect.id);
    if i.Some? {
      if effect.Havoc? {
        OverlayWrites(s, t, f, i.value, EnumerateDomain(m.vars[i.value].domain));
      } else {
        forall k | 0 <= k < |effect.among|
          ensures Eval(m, Overlay(s, t, f), effect.among[k], ctx', true) == Eval(m, s, effect.among[k], ctx, true)
        {
          assert WalkVars(effect.among[k]) <= EffectReads(effect);
          EvalOverlay(m, effect.among[k], s, t, f, ctx, ctx', EffectReads(effect));
        }
        assert EvalAll(m, Overlay(s, t, f), effect.among, ctx') == EvalAll(m, s, effect.among, ctx);
        OverlayWrites(s, t, f, i.value, EvalAll(m, s, effect.among, ctx));
      }
    }
  }

  lemma {:induction false} QueueIsLocal(m: Model, s: State, t: State, f: set<nat>, effect: Effect, ctx: Context, ctx': Context)
    requires PlainGuards(m) && |s| == |t| && (effect.Enqueue? || effect.Dequeue?) && PlainEffect(effect) && Spans(m, effect, f)
    ensures ActsLocally(ApplyInner(m, s, effect, ctx), ApplyInner(m, Overlay(s, t, f), effect, ctx'), t, f)
  {
    var i := QueueIndex(m, effect.queue);
    if i.Some? {
      var pending := Pending(s, i.value);
      assert Pending(Overlay(s, t, f), i.value) == pending;
      if effect.Enqueue? {
        forall k | 0 <= k < |effect.opArgs|
          ensures Eval(m, Overlay(s, t, f), effect.opArgs[k].expr, ctx', true) == Eval(m, s, effect.opArgs[k].expr, ctx, true)
        {
          assert WalkVars(effect.opArgs[k].expr) <= EffectReads(effect);
          EvalOverlay(m, effect.opArgs[k].expr, s, t, f, ctx, ctx', EffectReads(effect));
        }
        assert EvalArgs(m, Overlay(s, t, f), effect.opArgs, ctx') == EvalArgs(m, s, effect.opArgs, ctx);
        OverlayWrite(s, t, f, i.value, Arr(pending + [Operation(effect.op, effect.continuation, EvalArgs(m, s, effect.opArgs, ctx))]));
      } else if effect.index < |pending| {
        OverlayWrite(s, t, f, i.value, Arr(pending[..effect.index] + pending[effect.index + 1..]));
      }
    }
  }

  /** An effect over plain expressions acts only on what it reads and writes: laying any other state
      around that part commutes with applying it. */
  lemma {:induction false} EffectIsLocal(m: Model, s: State, t: State, f: set<nat>, effect: Effect, ctx: Context, ctx': Context)
    requires PlainGuards(m) && |s| == |t| && PlainEffect(effect) && Spans(m, effect, f)
    ensures ActsLocally(ApplyInner(m, s, effect, ctx), ApplyInner(m, Overlay(s, t, f), effect, ctx'), t, f)
    decreases effect, 1, 0
  {
    match effect
    case Assign(_, _) => AssignIsLocal(m, s, t, f, effect, ctx, ctx');
    case Havoc(_) => ChoiceIsLocal(m, s, t, f, effect, ctx, ctx');
    case Choose(_, _) => ChoiceIsLocal(m, s, t, f, effect, ctx, ctx');
    case Enqueue(_, _, _, _) => QueueIsLocal(m, s, t, f, effect, ctx, ctx');
    case Dequeue(_, _) => QueueIsLocal(m, s, t, f, effect, ctx, ctx');
    case If(cond, onTrue, onFalse) =>
      EvalOverlay(m, cond, s, t, f, ctx, ctx', EffectReads(effect));
      EffectIsLocal(m, s, t, f, onTrue, ctx, ctx');
      EffectIsLocal(m, s, t, f, onFalse, ctx, ctx');
    case Seq(effects) =>
      forall k | 0 <= k < |effects|
        ensures PlainEffect(effects[k]) && Spans(m, effects[k], f)
      {
        assert EffectReads(effects[k]) <= EffectReads(effect) && Writes(m, effects[k]) <= Writes(m, effect);
      }
      assert OverlayAll([s], t, f) == [Overlay(s, t, f)];
      SeqIsLocal(m, t, f, effect, [s], effects, ctx.(opArgs := None), ctx'.(opArgs := None));
    case Opaque =>
  }

  lemma {:induction false} EachIsLocal(m: Model, t: State, f: set<nat>, states: seq<State>, effect: Effect, ctx: Context, ctx': Context)
    requires PlainGuards(m) && Wide(states, |t|) && PlainEffect(effect) && Spans(m, effect, f)
    ensures Wide(ApplyEach(m, states, effect, ctx), |t|)
    ensures ApplyEach(m, OverlayAll(states, t, f), effect, ctx') == OverlayAll(ApplyEach(m, states, effect, ctx), t, f)
    decreases effect, 1, |states| + 1
  {
    if states != [] {
      var n := |states| - 1;
      EachIsLocal(m, t, f, states[..n], effect, ctx, ctx');
      EffectIsLocal(m, states[n], t, f, effect, ctx, ctx');
      assert OverlayAll(states, t, f)[..n] == OverlayAll(states[..n], t, f);
    }
  }

  lemma {:induction false} SeqIsLocal(m: Model, t: State, f: set<nat>, parent: Effect, states: seq<State>, effects: seq<Effect>, ctx: Context, ctx': Context)
    requires PlainGuards(m) && Wide(states, |t|) && forall k | 0 <= k < |effects| :: effects[k] < parent
    requires forall k | 0 <= k < |effects| :: PlainEffect(effects[k]) && Spans(m, effects[k], f)
    ensures Wide(ApplySeq(m, parent, states, effects, ctx), |t|)
    ensures ApplySeq(m, parent, OverlayAll(states, t, f), effects, ctx') == OverlayAll(ApplySeq(m, parent, states, effects, ctx), t, f)
    decreases parent, 0, |effects|
  {
    if effects != [] {
      var next := Resolving(m, states, effects[0], ctx);
      var next' := Resolving(m, OverlayAll(states, t, f), effects[0], ctx');
      EachIsLocal(m, t, f, states, effects[0], next, next');
      SeqIsLocal(m, t, f, parent, ApplyEach(m, states, effects[0], next), effects[1..], next, next');
    }
  }

  // ---------------------------------------------------------------------------
  // Effects of transitions
  // ---------------------------------------------------------------------------

  /** The variables as the mount reset sees them. */
  function MountVars(m: Model): (vars: seq<Mount.Variable>)
    requires PlainGuards(m)
    ensures |vars| == |m.vars|
    ensures forall i | 0 <= i < |vars| :: vars[i].initials == m.vars[i].initials && (vars[i].guard.Some? <==> m.vars[i].guard.Some?)
    ensures forall i, s | 0 <= i < |vars| ::
              Mount.Active(vars[i], s) <==> m.vars[i].guard.Some? && GuardHolds(m, s, m.vars[i].guard.value)
  {
    seq(|m.vars|, i requires 0 <= i < |m.vars| => MountVar(m, i))
  }

  function MountVar(m: Model, i: nat): Mount.Variable
    requires PlainGuards(m) && i < |m.vars|
  {
    var decl := m.vars[i];
    Mount.Variable(decl.initials, if decl.guard.Some? then Some(s => GuardHolds(m, s, decl.guard.value)) else None)
  }

  function MountReset(vars: seq<Mount.Variable>, before: State): State -> seq<State> {
    s => Mount.ResetUpTo(vars, Some(before), false, s, |vars|)
  }

  /** The posts of an effect: with a pre-state given, as part of a larger step, the effect alone;
      otherwise followed by the mount reset. */
  function ApplyEffect(m: Model, s: State, effect: Effect, pre: Option<State>): seq<State>
    requires PlainGuards(m)
  {
    var posts := ApplyInner(m, s, effect, Context(if pre.Some? then pre else Some(s), None));
    if posts.None? then [] else if pre.Some? then posts.value else FlatMap(MountReset(MountVars(m), s), posts.value)
  }

  /** Mount guards read only globals and locals declared earlier. */
  ghost predicate GuardsLookBack(m: Model) {
    forall i, j | 0 <= i < |m.vars| && m.vars[i].guard.Some? && 0 <= j < |m.vars| &&
      m.vars[j].id in WalkVars(m.vars[i].guard.value) :: j < i || m.vars[j].guard.None?
  }

  lemma {:induction false} LookingBackIsLayered(m: Model)
    requires PlainGuards(m) && GuardsLookBack(m)
    ensures Mount.Layered(MountVars(m))
  {
    var vars := MountVars(m);
    forall i, s, t | 0 <= i < |vars| && Mount.AgreeBelow(vars, i, s, t)
      ensures Mount.GuardAgrees(vars, i, s, t)
    {
      if m.vars[i].guard.Some? {
        var guard := m.vars[i].guard.value;
        assert AgreeOn(m, WalkVars(guard), s, t);
        PlainReadsOnly(m, guard, s, t, NO_CONTEXT, NO_CONTEXT, false);
      }
    }
  }

  /** A transition's posts are exactly the complete mount resets of what its effect leaves. */
  lemma {:induction false} PostsAreReset(m: Model, s: State, effect: Effect, t: State)
    requires PlainGuards(m) && GuardsLookBack(m) && |s| == |m.vars|
    ensures t in ApplyEffect(m, s, effect, None) <==>
            exists u :: |u| == |m.vars| && Leaves(m, s, effect, u) && Mount.IsReset(MountVars(m), Some(s), false, u, t)
  {
    var vars := MountVars(m);
    LookingBackIsLayered(m);
    FrameOfEffect(m, s, effect, Context(Some(s), None), Writes(m, effect));
    var posts := ApplyInner(m, s, effect, Context(Some(s), None));
    if posts.Some? {
      FlatMapHas(MountReset(vars, s), posts.value, t);
      forall u | |u| == |m.vars|
        ensures t in MountReset(vars, s)(u) <==> Mount.IsReset(vars, Some(s), false, u, t)
      {
        Mount.ResetIsExact(vars, Some(s), false, u, t);
      }
      forall u | u in posts.value
        ensures |u| == |m.vars| && Leaves(m, s, effect, u)
      {
        assert SameOutside(Writes(m, effect), s, u);
      }
    }
  }

  /** The effect alone leads from `s` to `u`. */
  ghost predicate Leaves(m: Model, s: State, effect: Effect, u: State)
    requires PlainGuards(m)
  {
    var posts := ApplyInner(m, s, effect, Context(Some(s), None));
    posts.Some? && u in posts.value
  }

  ghost predicate NoLocals(m: Model) {
    forall i | 0 <= i < |m.vars| :: m.vars[i].guard.None?
  }

  lemma {:induction false} NothingToReset(vars: seq<Mount.Variable>, previous: Option<State>, s: State, n: nat)
    requires n <= |vars| && forall i | 0 <= i < |vars| :: vars[i].guard.None?
    ensures Mount.ResetUpTo(vars, previous, false, s, n) == [s]
    decreases n
  {
    if n > 0 {
      NothingToReset(vars, previous, s, n - 1);
      FlatMapOne(Mount.Resetter(vars[n - 1], previous, false, n - 1), s);
    }
  }

  /** Without mount-scoped variables the posts are the effect's own. */
  lemma {:induction false} NoLocalsNoReset(vars: seq<Mount.Variable>, before: State, posts: seq<State>)
    requires forall i | 0 <= i < |vars| :: vars[i].guard.None?
    ensures FlatMap(MountReset(vars, before), posts) == posts
  {
    forall u
      ensures MountReset(vars, before)(u) == [u]
    {
      NothingToReset(vars, Some(before), u, |vars|);
    }
    FlatMapSame(MountReset(vars, before), posts);
  }
}
