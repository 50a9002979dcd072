/** What effects mean: a step relation on states, and the laws of the pending queue
    (crates/checker/src/effect.rs). */
module Meaning {
  import opened Bytes
  import opened Mapping
  import opened Values
  import opened Enumerate
  import opened Expr
  import opened Effects
  import opened Wrappers
  import Checked

  // ---------------------------------------------------------------------------
  // The step relation
  // ---------------------------------------------------------------------------

  /** `u` is `s` with the value of variable `i` replaced. */
  ghost predicate Sets(s: State, u: State, i: nat, v: Value) {
    && |u| == |s|
    && (i < |s| ==> u[i] == v)
    && forall j | 0 <= j < |s| && j != i :: u[j] == s[j]
  }

  /** Assigning `raw` to a variable of the domain stores `v`. */
  ghost predicate Stores(d: Domain, raw: Value, v: Value) {
    match d
    case IntD(_, _, _) => raw.Int? && v.Int? && ApplyNumericAssign(d, raw.n) == Some(v.n)
    case IntSetD(_, _) => raw.Int? && v.Int? && ApplyNumericAssign(d, raw.n) == Some(v.n)
    case ListD(_, _) => Validate(d, raw) && v == raw
    case _ => v == raw
  }

  ghost predicate Assigns(m: Model, id: Text, e: Expr, ctx: Context, s: State, u: State)
    requires PlainGuards(m)
  {
    var i := VarIndex(m, id);
    && i.Some? && (e.FreshToken? ==> FreshTokenOf(m, s, e.domainOf).Some?)
    && exists v :: Stores(m.vars[i.value].domain, Eval(m, s, e, ctx, true), v) && Sets(s, u, i.value, v)
  }

  /** Some listed value is stored. */
  ghost predicate SetsOneOf(m: Model, id: Text, vs: seq<Value>, s: State, u: State) {
    var i := VarIndex(m, id);
    i.Some? && exists v :: v in vs && Sets(s, u, i.value, v)
  }

  /** One operation with these arguments is added at the end of a queue that is not full. */
  ghost predicate Enqueues(m: Model, i: nat, op: Text, continuation: Text, args: seq<Entry>, s: State, u: State) {
    && |Pending(s, i)| < m.maxPending
    && exists entry :: IsOperation(entry, op, continuation, args) && Sets(s, u, i, Arr(Pending(s, i) + [entry]))
  }

  /** An operation record: its id, its continuation and, by name, its arguments. */
  ghost predicate IsOperation(entry: Value, op: Text, continuation: Text, args: seq<Entry>) {
    && entry.Obj? && NamesOf(entry.entries) == [ARGS, CONTINUATION, OP_ID]
    && entry.entries[1].value == Str(continuation) && entry.entries[2].value == Str(op)
    && entry.entries[0].value == Obj(PutArgs(args))
  }

  /** Entry `index` is removed from the queue; nothing happens where there is none. */
  ghost predicate Dequeues(i: nat, index: nat, s: State, u: State) {
    if index >= |Pending(s, i)| then u == s
    else exists rest :: IsWithout(Pending(s, i), index, rest) && Sets(s, u, i, Arr(rest))
  }

  ghost predicate IsWithout(items: seq<Value>, index: nat, rest: seq<Value>) {
    && index < |items| && |rest| == |items| - 1
    && forall k | 0 <= k < |rest| :: rest[k] == items[if k < index then k else k + 1]
  }

  /** The effect leads from `s` to `u`. */
  ghost predicate Leads(m: Model, effect: Effect, ctx: Context, s: State, u: State)
    requires PlainGuards(m)
    decreases effect, 1, 0
  {
    match effect
    case Assign(id, e) => Assigns(m, id, e, ctx, s, u)
    case Havoc(id) =>
      var i := VarIndex(m, id);
      i.Some? && SetsOneOf(m, id, EnumerateDomain(m.vars[i.value].domain), s, u)
    case Choose(id, among) => exists k :: 0 <= k < |among| && SetsOneOf(m, id, [Eval(m, s, among[k], ctx, true)], s, u)
    case If(cond, onTrue, onFalse) =>
      if Eval(m, s, cond, ctx, true) == Bool(true) then Leads(m, onTrue, ctx, s, u) else Leads(m, onFalse, ctx, s, u)
    case Seq(effects) => LeadsThrough(m, effect, effects, Context(ctx.pre, None), [s], s, u)
    case Enqueue(queue, op, continuation, args) =>
      var i := QueueIndex(m, queue);
      i.Some? && Enqueues(m, i.value, op, continuation, EvalArgs(m, s, args, ctx), s, u)
    case Dequeue(queue, index) =>
      var i := QueueIndex(m, queue);
      i.Some? && Dequeues(i.value, index, s, u)
    case Opaque => false
  }

  /** The effects lead one after the other from `s` to `u`; `states` lists what is reached by now on all branches,
      whose first decides the arguments in force. */
  ghost predicate LeadsThrough(m: Model, parent: Effect, effects: seq<Effect>, ctx: Context, states: seq<State>, s: State, u: State)
    requires PlainGuards(m) && forall k | 0 <= k < |effects| :: effects[k] < parent
    decreases parent, 0, |effects|
  {
    if effects == [] then u == s else
    var next := Resolving(m, states, effects[0], ctx);
    exists t :: Leads(m, effects[0], next, s, t) &&
      LeadsThrough(m, parent, effects[1..], next, ApplyEach(m, states, effects[0], next), t, u)
  }

  // ---------------------------------------------------------------------------
  // The posts are what the relation leads to
  // ---------------------------------------------------------------------------

  ghost predicate IsPost(m: Model, effect: Effect, ctx: Context, s: State, u: State)
    requires PlainGuards(m)
  {
    var posts := ApplyInner(m, s, effect, ctx);
    posts.Some? && u in posts.value
  }

  lemma {:induction false} SetsIsWithVar(s: State, u: State, i: nat, v: Value)
    ensures Sets(s, u, i, v) <==> u == WithVar(s, i, v)
  {
  }

  lemma {:induction false} StoresIsStorable(d: Domain, raw: Value, v: Value)
    ensures Stores(d, raw, v) <==> Storable(d, raw) == Some(v)
  {
  }

  lemma {:induction false} EachIsSets(m: Model, id: Text, vs: seq<Value>, s: State, u: State)
    requires VarIndex(m, id).Some?
    ensures u in WithEach(s, VarIndex(m, id).value, vs) <==> SetsOneOf(m, id, vs, s, u)
  {
    var i := VarIndex(m, id).value;
    if v :| v in vs && Sets(s, u, i, v) {
      SetsIsWithVar(s, u, i, v);
      var k :| 0 <= k < |vs| && vs[k] == v;
      assert WithEach(s, i, vs)[k] == u;
    }
    if u in WithEach(s, i, vs) {
      var k :| 0 <= k < |vs| && WithEach(s, i, vs)[k] == u;
      SetsIsWithVar(s, u, i, vs[k]);
      assert vs[k] in vs;
    }
  }

  lemma {:induction false} AssignLeads(m: Model, id: Text, e: Expr, ctx: Context, s: State, u: State)
    requires PlainGuards(m)
    ensures IsPost(m, Assign(id, e), ctx, s, u) <==> Assigns(m, id, e, ctx, s, u)
  {
    var i := VarIndex(m, id);
    if i.Some? {
      var d, raw := m.vars[i.value].domain, Eval(m, s, e, ctx, true);
      forall v
        ensures Stores(d, raw, v) && Sets(s, u, i.value, v) <==> Storable(d, raw) == Some(v) && u == WithVar(s, i.value, v)
      {
        StoresIsStorable(d, raw, v);
        SetsIsWithVar(s, u, i.value, v);
      }
    }
  }

  lemma {:induction false} ChooseLeads(m: Model, id: Text, among: seq<Expr>, ctx: Context, s: State, u: State)
    requires PlainGuards(m)
    ensures IsPost(m, Choose(id, among), ctx, s, u) <==>
            exists k :: 0 <= k < |among| && SetsOneOf(m, id, [Eval(m, s, among[k], ctx, true)], s, u)
  {
    var i := VarIndex(m, id);
    if i.Some? {
      var vs := Checked.EvalAll(m, s, among, ctx);
      EachIsSets(m, id, vs, s, u);
      if v :| v in vs && Sets(s, u, i.value, v) {
        var k :| 0 <= k < |vs| && vs[k] == v;
        assert SetsOneOf(m, id, [Eval(m, s, among[k], ctx, true)], s, u);
      }
      if k :| 0 <= k < |among| && SetsOneOf(m, id, [Eval(m, s, among[k], ctx, true)], s, u) {
        assert vs[k] in vs;
      }
    }
  }

  lemma {:induction false} OperationIsIt(op: Text, continuation: Text, args: seq<Entry>, entry: Value)
    ensures IsOperation(entry, op, continuation, args) <==> entry == Operation(op, continuation, args)
  {
    var made := Operation(op, continuation, args);
    assert NamesOf(made.entries) == [ARGS, CONTINUATION, OP_ID];
    if IsOperation(entry, op, continuation, args) {
      assert |NamesOf(entry.entries)| == 3;
      assert forall k | 0 <= k < 3 :: NamesOf(entry.entries)[k] == entry.entries[k].name;
      assert entry.entries == made.entries;
    }
  }

  lemma {:induction false} EnqueueLeads(m: Model, queue: Option<Text>, op: Text, continuation: Text, args: seq<Arg>,
                                        ctx: Context, s: State, u: State)
    requires PlainGuards(m) && QueueIndex(m, queue).Some?
    ensures IsPost(m, Enqueue(queue, op, continuation, args), ctx, s, u) <==>
            Enqueues(m, QueueIndex(m, queue).value, op, continuation, EvalArgs(m, s, args, ctx), s, u)
  {
    var i, values := QueueIndex(m, queue).value, EvalArgs(m, s, args, ctx);
    var entry := Operation(op, continuation, values);
    OperationIsIt(op, continuation, values, entry);
    SetsIsWithVar(s, u, i, Arr(Pending(s, i) + [entry]));
    if x :| IsOperation(x, op, continuation, values) && Sets(s, u, i, Arr(Pending(s, i) + [x])) {
      OperationIsIt(op, continuation, values, x);
    }
  }

  lemma {:induction false} WithoutIsIt(items: seq<Value>, index: nat, rest: seq<Value>)
    requires index < |items|
    ensures IsWithout(items, index, rest) <==> rest == items[..index] + items[index + 1..]
  {
  }

  lemma {:induction false} DequeueLeads(m: Model, queue: Option<Text>, index: nat, ctx: Context, s: State, u: State)
    requires PlainGuards(m) && QueueIndex(m, queue).Some?
    ensures IsPost(m, Dequeue(queue, index), ctx, s, u) <==> Dequeues(QueueIndex(m, queue).value, index, s, u)
  {
    var i := QueueIndex(m, queue).value;
    var pending := Pending(s, i);
    if index < |pending| {
      var rest := pending[..index] + pending[index + 1..];
      WithoutIsIt(pending, index, rest);
      SetsIsWithVar(s, u, i, Arr(rest));
      if x :| IsWithout(pending, index, x) && Sets(s, u, i, Arr(x)) {
        WithoutIsIt(pending, index, x);
      }
    }
  }

  /** The posts of an effect are exactly the states it leads to. */
  lemma {:induction false} PostsAreLed(m: Model, effect: Effect, ctx: Context, s: State, u: State)
    requires PlainGuards(m)
    ensures IsPost(m, effect, ctx, s, u) <==> Leads(m, effect, ctx, s, u)
    decreases effect, 1, 0
  {
    match effect
    case Assign(id, e) => AssignLeads(m, id, e, ctx, s, u);
    case Havoc(id) =>
      if VarIndex(m, id).Some? {
        EachIsSets(m, id, EnumerateDomain(m.vars[VarIndex(m, id).value].domain), s, u);
      }
    case Choose(id, among) => ChooseLeads(m, id, among, ctx, s, u);
    case If(_, onTrue, onFalse) =>
      PostsAreLed(m, onTrue, ctx, s, u);
      PostsAreLed(m, onFalse, ctx, s, u);
    case Seq(effects) => SeqIsLed(m, effect, effects, ctx.(opArgs := None), [s], u);
    case Enqueue(queue, op, continuation, args) =>
      if QueueIndex(m, queue).Some? {
        EnqueueLeads(m, queue, op, continuation, args, ctx, s, u);
      }
    case Dequeue(queue, index) =>
      if QueueIndex(m, queue).Some? {
        DequeueLeads(m, queue, index, ctx, s, u);
      }
    case Opaque =>
  }

  /** One effect on many states leads where it leads from one of them. */
  lemma {:induction false} EachIsLed(m: Model, states: seq<State>, effect: Effect, ctx: Context, u: State)
    requires PlainGuards(m)
    ensures u in ApplyEach(m, states, effect, ctx) <==> exists s :: s in states && Leads(m, effect, ctx, s, u)
    decreases effect, 1, |states| + 1
  {
    if states != [] {
      var n := |states| - 1;
      EachIsLed(m, states[..n], effect, ctx, u);
      PostsAreLed(m, effect, ctx, states[n], u);
      assert states == states[..n] + [states[n]];
    }
  }

  ghost predicate SomeLeads(m: Model, parent: Effect, effects: seq<Effect>, ctx: Context, states: seq<State>, from: seq<State>, u: State)
    requires PlainGuards(m) && forall k | 0 <= k < |effects| :: effects[k] < parent
  {
    exists s :: s in from && LeadsThrough(m, parent, effects, ctx, states, s, u)
  }

  lemma {:induction false} FirstStep(m: Model, parent: Effect, effects: seq<Effect>, ctx: Context, states: seq<State>, s: State, u: State)
    returns (t: State)
    requires PlainGuards(m) && (forall k | 0 <= k < |effects| :: effects[k] < parent) && effects != []
    requires LeadsThrough(m, parent, effects, ctx, states, s, u)
    ensures var next := Resolving(m, states, effects[0], ctx);
            Leads(m, effects[0], next, s, t) &&
            LeadsThrough(m, parent, effects[1..], next, ApplyEach(m, states, effects[0], next), t, u)
  {
    var next := Resolving(m, states, effects[0], ctx);
    t :| Leads(m, effects[0], next, s, t) &&
      LeadsThrough(m, parent, effects[1..], next, ApplyEach(m, states, effects[0], next), t, u);
  }

  lemma {:induction false} SeqIsLed(m: Model, parent: Effect, effects: seq<Effect>, ctx: Context, states: seq<State>, u: State)
    requires PlainGuards(m) && forall k | 0 <= k < |effects| :: effects[k] < parent
    ensures u in ApplySeq(m, parent, states, effects, ctx) <==> SomeLeads(m, parent, effects, ctx, states, states, u)
    decreases parent, 0, |effects|
  {
    if effects != [] {
      var next := Resolving(m, states, effects[0], ctx);
      var after := ApplyEach(m, states, effects[0], next);
      SeqIsLed(m, parent, effects[1..], next, after, u);
      forall t
        ensures t in after <==> exists s :: s in states && Leads(m, effects[0], next, s, t)
      {
        EachIsLed(m, states, effects[0], next, t);
      }
      if t :| t in after && LeadsThrough(m, parent, effects[1..], next, after, t, u) {
        var s :| s in states && Leads(m, effects[0], next, s, t);
        assert LeadsThrough(m, parent, effects, ctx, states, s, u);
      }
      if s :| s in states && LeadsThrough(m, parent, effects, ctx, states, s, u) {
        var t := FirstStep(m, parent, effects, ctx, states, s, u);
        assert t in after;
      }
    }
  }

  // ---------------------------------------------------------------------------
  // The pending queue
  // ---------------------------------------------------------------------------

  /** A named queue is a variable of that name in the queue role; an unnamed one is the only variable in that role. */
  lemma {:induction false} QueueIsTheOne(m: Model, queue: Option<Text>, i: nat)
    ensures QueueIndex(m, queue) == Some(i) <==>
            match queue
            case Some(id) => VarIndex(m, id) == Some(i) && m.vars[i].role == PendingQueue
            case None => i < |m.vars| && forall j | 0 <= j < |m.vars| :: m.vars[j].role == PendingQueue <==> j == i
  {
    QueuesHave(m, |m.vars|);
    var queues := QueuesUpTo(m, |m.vars|);
    if queue.None? {
      if |queues| == 1 && queues[0] == i {
        forall j | 0 <= j < |m.vars|
          ensures m.vars[j].role == PendingQueue <==> j == i
        {
          assert j in queues <==> j == queues[0];
        }
      }
      if i < |m.vars| && forall j | 0 <= j < |m.vars| :: m.vars[j].role == PendingQueue <==> j == i {
        OnlyQueue(m, i, |m.vars|);
      }
    }
  }

  lemma {:induction false} QueuesHave(m: Model, n: nat)
    requires n <= |m.vars|
    ensures forall j: nat :: j in QueuesUpTo(m, n) <==> j < n && m.vars[j].role == PendingQueue
  {
    if n > 0 {
      QueuesHave(m, n - 1);
    }
  }

  lemma {:induction false} OnlyQueue(m: Model, i: nat, n: nat)
    requires n <= |m.vars| && i < |m.vars| && forall j | 0 <= j < |m.vars| :: m.vars[j].role == PendingQueue <==> j == i
    ensures QueuesUpTo(m, n) == if i < n then [i] else []
  {
    if n > 0 {
      OnlyQueue(m, i, n - 1);
    }
  }

  /** An enqueue leads to exactly one state: the queue with one operation more, at its end. */
  lemma {:induction false} EnqueueAdds(m: Model, queue: Option<Text>, op: Text, continuation: Text, args: seq<Arg>,
                                       ctx: Context, s: State, u: State, i: nat)
    requires PlainGuards(m) && QueueIndex(m, queue) == Some(i) && |s| == |m.vars|
    requires Leads(m, Enqueue(queue, op, continuation, args), ctx, s, u)
    ensures |u| == |s| && |Pending(u, i)| == |Pending(s, i)| + 1 <= m.maxPending && Pending(s, i) <= Pending(u, i)
    ensures IsOperation(Pending(u, i)[|Pending(s, i)|], op, continuation, EvalArgs(m, s, args, ctx))
    ensures forall j | 0 <= j < |s| && j != i :: u[j] == s[j]
  {
  }

  /** What one operation adds, dequeuing its position takes away: the queue is as before. */
  lemma {:induction false} EnqueueThenDequeue(m: Model, queue: Option<Text>, op: Text, continuation: Text, args: seq<Arg>,
                                              ctx: Context, ctx': Context, s: State, u: State, v: State, i: nat)
    requires PlainGuards(m) && QueueIndex(m, queue) == Some(i) && |s| == |m.vars|
    requires Leads(m, Enqueue(queue, op, continuation, args), ctx, s, u)
    requires Leads(m, Dequeue(queue, |Pending(s, i)|), ctx', u, v)
    ensures Pending(v, i) == Pending(s, i) && forall j | 0 <= j < |s| && j != i :: v[j] == s[j]
    ensures s[i].Arr? ==> v == s
  {
    EnqueueAdds(m, queue, op, continuation, args, ctx, s, u, i);
    var n := |Pending(s, i)|;
    var rest :| IsWithout(Pending(u, i), n, rest) && Sets(u, v, i, Arr(rest));
    assert rest == Pending(s, i);
  }

  /** The value of an argument: that of the last argument of its name. */
  lemma {:induction false} ArgsAreStored(args: seq<Entry>, name: Text, k: nat)
    requires k < |args| && args[k].name == name && forall j | k < j < |args| :: args[j].name != name
    ensures Rising(NamesOf(PutArgs(args))) && Get(PutArgs(args), name) == Some(args[k].value)
  {
    var n := |args| - 1;
    var before := PutArgs(args[..n]);
    PutArgsRises(args[..n]);
    PutSets(before, args[n].name, args[n].value);
    if k < n {
      ArgsAreStored(args[..n], name, k);
      var i := Find(NamesOf(before), name).value;
      assert before[i] in before && before[i] == Entry(name, args[k].value);
    }
    GetMember(PutArgs(args), name, args[k].value);
  }

  lemma {:induction false} PutArgsRises(args: seq<Entry>)
    ensures Rising(NamesOf(PutArgs(args)))
  {
    if args != [] {
      var n := |args| - 1;
      PutArgsRises(args[..n]);
      PutSets(PutArgs(args[..n]), args[n].name, args[n].value);
    }
  }

  lemma {:induction false} ArgsAreFound(entries: seq<Entry>)
    requires NamesOf(entries) == [ARGS, CONTINUATION, OP_ID]
    ensures Get(entries, ARGS) == Some(entries[0].value)
  {
    var names := NamesOf(entries);
    assert ARGS[0] == 97 && CONTINUATION[0] == 99 && OP_ID[0] == 111;
    assert names[..2] == [ARGS, CONTINUATION] && names[..2][..1] == [ARGS];
    assert Find(names, ARGS) == Find(names[..2], ARGS) == Find(names[..2][..1], ARGS) == Some(0);
  }

  /** Reaching a dequeue puts the arguments of the operation it takes in force, seen from the first state;
      any other effect leaves those in force before. */
  lemma {:induction false} DequeuePutsInForce(m: Model, states: seq<State>, effect: Effect, ctx: Context,
                                              op: Text, continuation: Text, args: seq<Entry>)
    ensures !effect.Dequeue? ==> Resolving(m, states, effect, ctx) == ctx
    ensures effect.Dequeue? && states != [] && QueueIndex(m, effect.queue).Some? ==>
              var pending := Pending(states[0], QueueIndex(m, effect.queue).value);
              effect.index < |pending| && IsOperation(pending[effect.index], op, continuation, args) ==>
              Resolving(m, states, effect, ctx) == Context(ctx.pre, Some(PutArgs(args)))
  {
    if effect.Dequeue? && states != [] && QueueIndex(m, effect.queue).Some? {
      var pending := Pending(states[0], QueueIndex(m, effect.queue).value);
      if effect.index < |pending| && IsOperation(pending[effect.index], op, continuation, args) {
        OperationIsIt(op, continuation, args, pending[effect.index]);
        ArgsAreFound(pending[effect.index].entries);
      }
    }
  }

  // ---------------------------------------------------------------------------
  // Reading what was assigned
  // ---------------------------------------------------------------------------

  /** After an assignment the variable reads, along any path, as the value stored; every other variable reads as before. */
  lemma {:induction false} AssignThenRead(m: Model, id: Text, e: Expr, ctx: Context, s: State, u: State, i: nat, v: Value,
                                          other: Text, path: seq<Text>, later: Context)
    requires PlainGuards(m) && |s| == |m.vars| && VarIndex(m, id) == Some(i)
    requires Leads(m, Assign(id, e), ctx, s, u) && Stores(m.vars[i].domain, Eval(m, s, e, ctx, true), v)
    ensures Eval(m, u, Read(id, path), later, true) == ReadPath(Some(v), path)
    ensures other != id ==> Eval(m, u, Read(other, path), later, true) == Eval(m, s, Read(other, path), later, true)
    ensures later.pre == Some(s) ==> Eval(m, u, ReadPre(id, path), later, true) == Eval(m, s, Read(id, path), later, true)
  {
    var d, raw := m.vars[i].domain, Eval(m, s, e, ctx, true);
    var w :| Stores(d, raw, w) && Sets(s, u, i, w);
    StoresIsStorable(d, raw, v);
    StoresIsStorable(d, raw, w);
  }
}
