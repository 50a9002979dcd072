/** The expression language and its evaluation
    (crates/checker/src/model.rs, crates/checker/src/state.rs, crates/checker/src/expr.rs). */
module Expr {
  import opened Bytes
  import opened Values
  import Enumerate
  import opened Wrappers

  datatype Op = Eq | Neq | And | Or | Not | Cond | Lt | Lte | Gt | Gte | Add | Sub | Mod

  datatype Expr =
    | Lit(value: Value)
    | Read(id: Text, path: seq<Text>)
    | Apply(op: Op, args: seq<Expr>)
    | UpdateField(target: Expr, path: seq<Text>, field: Expr)
    | TagIs(arg: Expr, tag: Text)
    | LenCat(arg: Expr)
    | FreshToken(domainOf: Text)
    | TransitionEnabled(transition: Text)
    | TransitionEnabledPrefix(prefix: Text)
    | ReadPre(id: Text, path: seq<Text>)
    | ReadOpArg(name: Text)

  datatype Effect =
    | Assign(id: Text, expr: Expr)
    | Havoc(id: Text)
    | Choose(id: Text, among: seq<Expr>)
    | If(cond: Expr, onTrue: Effect, onFalse: Effect)
    | Seq(effects: seq<Effect>)
    | Enqueue(queue: Option<Text>, op: Text, continuation: Text, opArgs: seq<Arg>)
    | Dequeue(queue: Option<Text>, index: nat)
    | Opaque

  datatype Arg = Arg(name: Text, expr: Expr)

  datatype Role = NoRole | PendingQueue | LocationCurrent | LocationHistory | OtherRole

  datatype VarDecl = VarDecl(id: Text, domain: Domain, initials: seq<Value>, guard: Option<Expr>, role: Role)

  datatype Transition = Transition(id: Text, internal: bool, guard: Expr, effect: Effect,
                                   declaredReads: seq<Text>, declaredWrites: seq<Text>, triggeredBy: seq<Text>,
                                   phase: Option<nat>)

  datatype Model = Model(vars: seq<VarDecl>, transitions: seq<Transition>, maxPending: nat)

  // ---------------------------------------------------------------------------
  // Variables and paths
  // ---------------------------------------------------------------------------

  function VarIds(m: Model): (ids: seq<Text>)
    ensures |ids| == |m.vars| && forall i | 0 <= i < |ids| :: ids[i] == m.vars[i].id
  {
    seq(|m.vars|, i requires 0 <= i < |m.vars| => m.vars[i].id)
  }

  function VarIndex(m: Model, id: Text): (r: Option<nat>)
    ensures r.Some? ==> 0 <= r.value < |m.vars| && m.vars[r.value].id == id
  {
    Find(VarIds(m), id)
  }

  /** A segment as an index: decimal digits after an optional plus sign, zero otherwise. */
  function IndexOf(segment: Text): nat {
    var digits := if segment != [] && segment[0] == 43 then segment[1..] else segment;
    if AllDigits(digits) then Number(digits) else 0
  }

  predicate AllDigits(t: Text) {
    forall i | 0 <= i < |t| :: 48 <= t[i] <= 57
  }

  function Number(t: Text): nat
    requires AllDigits(t)
  {
    if t == [] then 0 else 10 * Number(t[..|t| - 1]) + (t[|t| - 1] as int - 48)
  }

  /** The value at a path, null where the path leads nowhere. */
  function ReadPath(v: Option<Value>, path: seq<Text>): Value
    decreases |path|
  {
    if path == [] then (if v.Some? then v.value else Null)
    else if v.None? then Null
    else match v.value
      case Arr(items) => ReadPath(if IndexOf(path[0]) < |items| then Some(items[IndexOf(path[0])]) else None, path[1..])
      case Obj(entries) => ReadPath(Get(entries, path[0]), path[1..])
      case _ => Null
  }

  function Padded(items: seq<Value>, n: nat): (r: seq<Value>)
    ensures |r| == if n < |items| then |items| else n
  {
    if n <= |items| then items else items + seq(n - |items|, i => Null)
  }

  /** The value with the part at a path replaced; missing containers are created as objects. */
  function WritePath(target: Value, path: seq<Text>, value: Value): Value
    decreases |path|
  {
    if path == [] then value else
    match target
    case Arr(items) =>
      var k := IndexOf(path[0]);
      var existing := if k < |items| then items[k] else Null;
      Arr(Padded(items, k + 1)[k := WritePath(existing, path[1..], value)])
    case Obj(entries) =>
      var existing := Get(entries, path[0]);
      Obj(Put(entries, path[0], WritePath(if existing.Some? then existing.value else Null, path[1..], value)))
    case _ => Obj([Entry(path[0], WritePath(Null, path[1..], value))])
  }

  /** Objects list their entries by ascending name, at every level. */
  ghost predicate Ordered(v: Value) {
    match v
    case Arr(items) => forall i | 0 <= i < |items| :: Ordered(items[i])
    case Obj(entries) => Rising(NamesOf(entries)) && forall i | 0 <= i < |entries| :: Ordered(entries[i].value)
    case _ => true
  }

  lemma {:induction false} GetOrdered(entries: seq<Entry>, name: Text)
    requires Ordered(Obj(entries)) && Get(entries, name).Some?
    ensures Ordered(Get(entries, name).value)
  {
  }

  /** What is written at a path is read back from it. */
  lemma {:induction false} WriteThenRead(target: Value, path: seq<Text>, value: Value)
    requires Ordered(target)
    ensures ReadPath(Some(WritePath(target, path, value)), path) == value
    decreases |path|
  {
    if path != [] {
      var name, rest := path[0], path[1..];
      match target
      case Arr(items) =>
        var k := IndexOf(name);
        WriteThenRead(if k < |items| then items[k] else Null, rest, value);
      case Obj(entries) =>
        var existing := Get(entries, name);
        if existing.Some? {
          GetOrdered(entries, name);
        }
        WriteThenRead(if existing.Some? then existing.value else Null, rest, value);
        var inner := WritePath(if existing.Some? then existing.value else Null, rest, value);
        Enumerate.PutSets(entries, name, inner);
        Enumerate.GetMember(Put(entries, name, inner), name, inner);
      case _ =>
        WriteThenRead(Null, rest, value);
        GetAt([Entry(name, WritePath(Null, rest, value))], 0);
    }
  }

  /** Writing at a name leaves an object's other entries alone. */
  lemma {:induction false} WriteKeepsOthers(entries: seq<Entry>, path: seq<Text>, value: Value, other: Text)
    requires Rising(NamesOf(entries)) && path != [] && other != path[0]
    ensures WritePath(Obj(entries), path, value).Obj?
    ensures Get(WritePath(Obj(entries), path, value).entries, other) == Get(entries, other)
  {
    var existing := Get(entries, path[0]);
    var inner := WritePath(if existing.Some? then existing.value else Null, path[1..], value);
    var after := Put(entries, path[0], inner);
    Enumerate.PutSets(entries, path[0], inner);
    Enumerate.NamedEntry(entries, other);
    Enumerate.NamedEntry(after, other);
    if Get(entries, other).Some? {
      var i := Find(NamesOf(entries), other).value;
      assert entries[i] in entries;
      Enumerate.GetMember(after, other, entries[i].value);
    }
  }

  function ReadVar(m: Model, s: State, id: Text, path: seq<Text>): Value {
    var i := VarIndex(m, id);
    ReadPath(if i.Some? && i.value < |s| then Some(s[i.value]) else None, path)
  }

  // ---------------------------------------------------------------------------
  // Operators
  // ---------------------------------------------------------------------------

  predicate IsTrue(v: Value) {
    v == Bool(true)
  }

  function ArgAt(vs: seq<Value>, i: nat): Value {
    if i < |vs| then vs[i] else Null
  }

  function ApplyOp(op: Op, vs: seq<Value>): Value {
    var l, r := ArgAt(vs, 0), ArgAt(vs, 1);
    match op
    case Eq => Bool(l == r)
    case Neq => Bool(l != r)
    case And => Bool(forall i | 0 <= i < |vs| :: IsTrue(vs[i]))
    case Or => Bool(exists i | 0 <= i < |vs| :: IsTrue(vs[i]))
    case Not => Bool(!IsTrue(l))
    case Cond => if IsTrue(l) then r else ArgAt(vs, 2)
    case Lt => Bool(l.Int? && r.Int? && l.n < r.n)
    case Lte => Bool(l.Int? && r.Int? && l.n <= r.n)
    case Gt => Bool(l.Int? && r.Int? && l.n > r.n)
    case Gte => Bool(l.Int? && r.Int? && l.n >= r.n)
    case Add => if l.Int? && r.Int? then Int(l.n + r.n) else Null
    case Sub => if l.Int? && r.Int? then Int(l.n - r.n) else Null
    case Mod => if l.Int? && r.Int? && r.n != 0 then Int(l.n % r.n) else Null
  }

  function LengthOf(v: Value): Value {
    Str(if v.Arr? && |v.items| == 1 then LENGTHS[1] else if v.Arr? && |v.items| > 1 then LENGTHS[2] else LENGTHS[0])
  }

  /** The domain at a path, with options seen through. */
  function DomainAtPath(d: Domain, path: seq<Text>): Option<Domain>
    decreases |path|, d
  {
    if path == [] then Some(d) else
    match d
    case OptionD(inner) => DomainAtPath(inner, path)
    case RecordD(fields) =>
      var k := Find(FieldNames(fields), path[0]);
      if k.Some? then DomainAtPath(fields[k.value].domain, path[1..]) else None
    case ListD(inner, maxLen) =>
      if path[0] != [] && AllDigits(path[0]) && IndexOf(path[0]) < maxLen then DomainAtPath(inner, path[1..]) else None
    case TaggedD(tag, variants) =>
      if path[0] == tag then DomainAtPath(EnumD(FieldNames(variants)), path[1..]) else None
    case _ => None
  }

  /** The tagged domain an expression is declared in, if any. */
  function TaggedDomainOf(m: Model, e: Expr): (r: Option<Domain>)
    ensures r.Some? ==> r.value.TaggedD?
  {
    match e
    case Read(id, path) =>
      var i := VarIndex(m, id);
      var d := if i.Some? then DomainAtPath(m.vars[i.value].domain, path) else None;
      if d.Some? && d.value.TaggedD? then d else None
    case Apply(Cond, args) =>
      if |args| < 3 then None else
      var d := TaggedDomainOf(m, args[1]);
      if d == TaggedDomainOf(m, args[2]) then d else None
    case UpdateField(target, _, _) => TaggedDomainOf(m, target)
    case _ => None
  }

  function HasTag(m: Model, arg: Expr, v: Value, tag: Text): Value {
    var d := TaggedDomainOf(m, arg);
    Bool(d.Some? && v.Obj? && Get(v.entries, d.value.tag) == Some(Str(tag)))
  }

  predicate Mentions(v: Value, name: Text) {
    match v
    case Str(s) => s == name
    case Arr(items) => exists i | 0 <= i < |items| :: Mentions(items[i], name)
    case Obj(entries) => exists i | 0 <= i < |entries| :: Mentions(entries[i].value, name)
    case _ => false
  }

  function FirstUnused(names: seq<Text>, s: State): Option<Text> {
    if names == [] then None
    else if forall i | 0 <= i < |s| :: !Mentions(s[i], names[0]) then Some(names[0])
    else FirstUnused(names[1..], s)
  }

  /** The first token of a tokens variable's domain that the state does not use. */
  function FreshTokenOf(m: Model, s: State, id: Text): Option<Text> {
    var i := VarIndex(m, id);
    if i.Some? && m.vars[i.value].domain.TokensD?
    then FirstUnused(TokenNames(m.vars[i.value].domain.count, m.vars[i.value].domain.names), s) else None
  }

  // ---------------------------------------------------------------------------
  // Evaluation
  // ---------------------------------------------------------------------------

  /** What `readPre` and `readOpArg` see. */
  datatype Context = Context(pre: Option<State>, opArgs: Option<seq<Entry>>)

  const NO_CONTEXT: Context := Context(None, None)

  /** Only literals, state reads and operators. */
  predicate Plain(e: Expr) {
    match e
    case Lit(_) => true
    case Read(_, _) => true
    case Apply(_, args) => forall i | 0 <= i < |args| :: Plain(args[i])
    case UpdateField(target, _, field) => Plain(target) && Plain(field)
    case TagIs(arg, _) => Plain(arg)
    case LenCat(arg) => Plain(arg)
    case _ => false
  }

  predicate PlainGuards(m: Model) {
    && (forall i | 0 <= i < |m.vars| && m.vars[i].guard.Some? :: Plain(m.vars[i].guard.value))
    && forall i | 0 <= i < |m.transitions| :: Plain(m.transitions[i].guard)
  }

  /** The value of an expression; `deep` allows asking whether transitions are enabled. */
  function Eval(m: Model, s: State, e: Expr, ctx: Context, deep: bool): Value
    requires if deep then PlainGuards(m) else Plain(e)
    decreases deep, 1, e
  {
    match e
    case Lit(value) => value
    case Read(id, path) => ReadVar(m, s, id, path)
    case Apply(op, args) => ApplyOp(op, seq(|args|, i requires 0 <= i < |args| => Eval(m, s, args[i], ctx, deep)))
    case UpdateField(target, path, field) =>
      WritePath(Eval(m, s, target, ctx, deep), path, Eval(m, s, field, ctx, deep))
    case TagIs(arg, tag) => HasTag(m, arg, Eval(m, s, arg, ctx, deep), tag)
    case LenCat(arg) => LengthOf(Eval(m, s, arg, ctx, deep))
    case FreshToken(id) => var t := FreshTokenOf(m, s, id); if t.Some? then Str(t.value) else Null
    case TransitionEnabled(id) =>
      if !deep then Null else
      var i := TransitionIndex(m, id);
      Bool(i.Some? && IsEnabled(m, s, i.value))
    case TransitionEnabledPrefix(prefix) =>
      if !deep then Null else
      Bool(exists i | 0 <= i < |m.transitions| :: prefix <= m.transitions[i].id && IsEnabled(m, s, i))
    case ReadPre(id, path) => ReadVar(m, if ctx.pre.Some? then ctx.pre.value else s, id, path)
    case ReadOpArg(name) =>
      var x := if ctx.opArgs.Some? then Get(ctx.opArgs.value, name) else None;
      if x.Some? then x.value else Null
  }

  function TransitionIds(m: Model): (ids: seq<Text>)
    ensures |ids| == |m.transitions| && forall i | 0 <= i < |ids| :: ids[i] == m.transitions[i].id
  {
    seq(|m.transitions|, i requires 0 <= i < |m.transitions| => m.transitions[i].id)
  }

  function TransitionIndex(m: Model, id: Text): (r: Option<nat>)
    ensures r.Some? ==> 0 <= r.value < |m.transitions|
  {
    Find(TransitionIds(m), id)
  }

  /** A guard or mount guard, evaluated without context. */
  predicate GuardHolds(m: Model, s: State, guard: Expr)
    requires Plain(guard)
    decreases false, 2
  {
    IsTrue(Eval(m, s, guard, NO_CONTEXT, false))
  }

  predicate LocalsMounted(m: Model, s: State, i: nat)
    requires PlainGuards(m) && i < |m.transitions|
    decreases false, 3
  {
    forall j | 0 <= j < |m.vars| && m.vars[j].guard.Some? && j in Touched(m, m.transitions[i]) ::
      GuardHolds(m, s, m.vars[j].guard.value)
  }

  predicate IsEnabled(m: Model, s: State, i: nat)
    requires PlainGuards(m) && i < |m.transitions|
    decreases false, 4
  {
    LocalsMounted(m, s, i) && GuardHolds(m, s, m.transitions[i].guard)
  }

  // ---------------------------------------------------------------------------
  // Variables read
  // ---------------------------------------------------------------------------

  /** The state variables an expression names. */
  function ReadVars(e: Expr): set<Text> {
    match e
    case Read(id, _) => {id}
    case Apply(_, args) => set i, id | 0 <= i < |args| && id in ReadVars(args[i]) :: id
    case UpdateField(target, _, field) => ReadVars(target) + ReadVars(field)
    case TagIs(arg, _) => ReadVars(arg)
    case LenCat(arg) => ReadVars(arg)
    case FreshToken(id) => {id}
    case _ => {}
  }

  function AsSet(ids: seq<Text>): set<Text> {
    set i | 0 <= i < |ids| :: ids[i]
  }

  /** One pass over the declarations: mount guards of variables in the set add what they read. */
  function Pass(m: Model, vars: set<Text>, n: nat): (r: set<Text>)
    requires n <= |m.vars|
    ensures vars <= r <= vars + GuardReads(m)
  {
    if n == 0 then vars else
    var before := Pass(m, vars, n - 1);
    var decl := m.vars[n - 1];
    if decl.guard.Some? && decl.id in before then before + ReadVars(decl.guard.value) else before
  }

  /** Everything that mount guards read. */
  function GuardReads(m: Model): set<Text> {
    set i, id | 0 <= i < |m.vars| && m.vars[i].guard.Some? && id in ReadVars(m.vars[i].guard.value) :: id
  }

  /** Passes until nothing is added. */
  function CloseVars(m: Model, vars: set<Text>): (r: set<Text>)
    decreases GuardReads(m) - vars
  {
    var next := Pass(m, vars, |m.vars|);
    if next == vars then vars else CloseVars(m, next)
  }

  function IndexesOf(m: Model, ids: set<Text>): set<nat> {
    set i | 0 <= i < |m.vars| && m.vars[i].id in ids :: i
  }

  /** The variables a transition reads: declared reads and the guard's, closed under mount guards. */
  function CompiledReads(m: Model, t: Transition): set<nat> {
    IndexesOf(m, CloseVars(m, AsSet(t.declaredReads) + ReadVars(t.guard)))
  }

  function Touched(m: Model, t: Transition): set<nat> {
    CompiledReads(m, t) + IndexesOf(m, AsSet(t.declaredWrites))
  }
}
