/** When two transitions are independent (crates/checker/src/por.rs, crates/checker/src/model.rs). */
module Por {
  import opened Bytes
  import opened Values
  import opened Expr
  import opened Checked
  import opened Effects
  import opened Wrappers

  // ---------------------------------------------------------------------------
  // Footprints
  // ---------------------------------------------------------------------------

  datatype Term = PreTerm | OpArgTerm | FreshTerm

  /** The expression contains such a term. */
  predicate Uses(term: Term, e: Expr) {
    match e
    case ReadPre(_, _) => term.PreTerm?
    case ReadOpArg(_) => term.OpArgTerm?
    case FreshToken(_) => term.FreshTerm?
    case Apply(_, args) => exists i | 0 <= i < |args| :: Uses(term, args[i])
    case UpdateField(target, _, field) => Uses(term, target) || Uses(term, field)
    case TagIs(arg, _) => Uses(term, arg)
    case LenCat(arg) => Uses(term, arg)
    case _ => false
  }

  predicate EffectUses(term: Term, effect: Effect) {
    match effect
    case Assign(_, expr) => Uses(term, expr)
    case Choose(_, among) => exists i | 0 <= i < |among| :: Uses(term, among[i])
    case If(cond, onTrue, onFalse) => Uses(term, cond) || EffectUses(term, onTrue) || EffectUses(term, onFalse)
    case Seq(effects) => exists i | 0 <= i < |effects| :: EffectUses(term, effects[i])
    case Enqueue(_, _, _, args) => exists i | 0 <= i < |args| :: Uses(term, args[i].expr)
    case _ => false
  }

  predicate HavocLike(effect: Effect) {
    match effect
    case Havoc(_) => true
    case Choose(_, _) => true
    case Opaque => true
    case If(_, onTrue, onFalse) => HavocLike(onTrue) || HavocLike(onFalse)
    case Seq(effects) => exists i | 0 <= i < |effects| :: HavocLike(effects[i])
    case _ => false
  }

  predicate MayBranch(effect: Effect) {
    match effect
    case Choose(_, _) => true
    case If(_, _, _) => true
    case Seq(effects) => exists i | 0 <= i < |effects| :: MayBranch(effects[i])
    case _ => false
  }

  predicate TouchesQueue(effect: Effect) {
    match effect
    case Enqueue(_, _, _, _) => true
    case Dequeue(_, _) => true
    case If(_, onTrue, onFalse) => TouchesQueue(onTrue) || TouchesQueue(onFalse)
    case Seq(effects) => exists i | 0 <= i < |effects| :: TouchesQueue(effects[i])
    case _ => false
  }

  /** The queues that an effect names. */
  function QueueNames(effect: Effect): set<Text> {
    match effect
    case Enqueue(queue, _, _, _) => if queue.Some? then {queue.value} else {}
    case Dequeue(queue, _) => if queue.Some? then {queue.value} else {}
    case If(_, onTrue, onFalse) => QueueNames(onTrue) + QueueNames(onFalse)
    case Seq(effects) => set i, id | 0 <= i < |effects| && id in QueueNames(effects[i]) :: id
    case _ => {}
  }

  /** The queue variables a transition works on: those its effect names and, if it works on any, the declared ones
      and an only one. */
  function QueuesTouched(m: Model, t: Transition): set<nat> {
    var queues := QueuesUpTo(m, |m.vars|);
    IndexesOf(m, QueueNames(t.effect)) +
      if !TouchesQueue(t.effect) then {}
      else (set i | 0 <= i < |queues| && queues[i] in Touched(m, t) :: queues[i]) + if |queues| == 1 then {queues[0]} else {}
  }

  /** Without a queue operation no queue variable counts as touched, declared or not. */
  lemma {:induction false} QueueFlagIsScan(m: Model, t: Transition)
    ensures QueuesTouched(m, t) != {} ==> TouchesQueue(t.effect)
  {
    NamesNeedOperations(t.effect);
  }

  lemma {:induction false} NamesNeedOperations(effect: Effect)
    ensures QueueNames(effect) != {} ==> TouchesQueue(effect)
    decreases effect
  {
    match effect
    case If(_, onTrue, onFalse) =>
      NamesNeedOperations(onTrue);
      NamesNeedOperations(onFalse);
    case Seq(effects) =>
      forall i | 0 <= i < |effects|
        ensures QueueNames(effects[i]) != {} ==> TouchesQueue(effects[i])
      {
        NamesNeedOperations(effects[i]);
      }
    case _ =>
  }

  datatype Footprint = Footprint(readSet: set<nat>, writeSet: set<nat>, triggers: set<nat>,
                                 queue: bool, route: bool, mountLocal: bool, readPre: bool, readOpArg: bool,
                                 freshToken: bool, havocLike: bool, branch: bool)

  function FootprintOf(m: Model, t: Transition): Footprint {
    var touched := Touched(m, t);
    Footprint(CompiledReads(m, t), IndexesOf(m, AsSet(t.declaredWrites)), IndexesOf(m, AsSet(t.triggeredBy)),
              TouchesQueue(t.effect) || QueuesTouched(m, t) != {},
              exists i | 0 <= i < |m.vars| :: i in touched && m.vars[i].role in {LocationCurrent, LocationHistory},
              exists i | 0 <= i < |m.vars| :: i in touched && m.vars[i].guard.Some?,
              EffectUses(PreTerm, t.effect), EffectUses(OpArgTerm, t.effect), EffectUses(FreshTerm, t.effect),
              HavocLike(t.effect), MayBranch(t.effect))
  }

  // ---------------------------------------------------------------------------
  // Classification
  // ---------------------------------------------------------------------------

  datatype Reason = Unsupported | Visible | QueueReason | RouteReason | MountReason | ContextReason |
                    Nondeterministic | ReadWrite | WriteWrite | TriggeredByReason

  datatype Relation = Independent | Dependent(reason: Reason)

  predicate Barrier(f: Footprint) {
    f.queue || f.route || f.mountLocal || f.readPre || f.readOpArg || f.freshToken || f.havocLike || f.branch
  }

  function BarrierReason(f: Footprint): Reason {
    if f.queue then QueueReason
    else if f.route then RouteReason
    else if f.mountLocal then MountReason
    else if f.readPre || f.readOpArg then ContextReason
    else if f.freshToken || f.havocLike || f.branch then Nondeterministic
    else Unsupported
  }

  function Classify(m: Model, visible: set<nat>, left: nat, right: nat): Relation
    requires left < |m.transitions| && right < |m.transitions|
  {
    var l, r := FootprintOf(m, m.transitions[left]), FootprintOf(m, m.transitions[right]);
    if left == right then Dependent(Unsupported)
    else if left in visible || right in visible then Dependent(Visible)
    else if m.transitions[left].internal || m.transitions[right].internal then Dependent(Unsupported)
    else if Barrier(l) then Dependent(BarrierReason(l))
    else if Barrier(r) then Dependent(BarrierReason(r))
    else if l.readSet * r.writeSet != {} then Dependent(ReadWrite)
    else if r.readSet * l.writeSet != {} then Dependent(ReadWrite)
    else if l.writeSet * r.writeSet != {} then Dependent(WriteWrite)
    else if l.triggers * r.writeSet != {} || r.triggers * l.writeSet != {} then Dependent(TriggeredByReason)
    else Independent
  }

  // ---------------------------------------------------------------------------
  // Independent transitions commute
  // ---------------------------------------------------------------------------

  /** What validation checks: the effect reads and writes only what the transition declares. */
  ghost predicate Validated(m: Model, t: Transition) {
    EffectReads(t.effect) <= AsSet(t.declaredReads) && Writes(m, t.effect) <= IndexesOf(m, AsSet(t.declaredWrites))
  }

  /** The posts of a transition's effect before stabilisation. */
  ghost function RawPosts(m: Model, t: Transition, s: State): seq<State>
    requires PlainGuards(m)
  {
    ApplyEffect(m, s, t.effect, None)
  }

  ghost function PostsOfEach(m: Model, t: Transition, states: seq<State>): seq<State>
    requires PlainGuards(m)
  {
    if states == [] then [] else
    PostsOfEach(m, t, states[..|states| - 1]) + RawPosts(m, t, states[|states| - 1])
  }

  /** Only assignments, in sequence. */
  ghost predicate Straight(effect: Effect) {
    match effect
    case Assign(_, _) => true
    case Seq(effects) => forall i | 0 <= i < |effects| :: Straight(effects[i])
    case _ => false
  }

  lemma {:induction false} NoBarrierIsStraight(effect: Effect)
    requires !HavocLike(effect) && !MayBranch(effect) && !TouchesQueue(effect)
    ensures Straight(effect)
    decreases effect
  {
    if effect.Seq? {
      forall i | 0 <= i < |effect.effects|
        ensures Straight(effect.effects[i])
      {
        NoBarrierIsStraight(effect.effects[i]);
      }
    }
  }

  /** A straight effect has at most one post. */
  lemma {:induction false} StraightIsSingle(m: Model, s: State, effect: Effect, ctx: Context)
    requires PlainGuards(m) && Straight(effect)
    ensures ApplyInner(m, s, effect, ctx).Some? ==> |ApplyInner(m, s, effect, ctx).value| <= 1
    decreases effect, 1, 0
  {
    if effect.Seq? {
      SeqIsSingle(m, effect, [s], effect.effects, ctx.(opArgs := None));
    }
  }

  lemma {:induction false} SeqIsSingle(m: Model, parent: Effect, states: seq<State>, effects: seq<Effect>, ctx: Context)
    requires PlainGuards(m) && (forall k | 0 <= k < |effects| :: effects[k] < parent && Straight(effects[k])) && |states| <= 1
    ensures |ApplySeq(m, parent, states, effects, ctx)| <= 1
    decreases parent, 0, |effects|
  {
    if effects != [] {
      var next := Resolving(m, states, effects[0], ctx);
      if states != [] {
        assert states[..0] == [] && ApplyEach(m, states[..0], effects[0], next) == [];
        StraightIsSingle(m, states[0], effects[0], next);
      }
      SeqIsSingle(m, parent, ApplyEach(m, states, effects[0], next), effects[1..], next);
    }
  }

  /** The footprint spans the effect. */
  lemma {:induction false} FootprintSpans(m: Model, t: Transition)
    requires Validated(m, t)
    ensures Spans(m, t.effect, Touched(m, t))
    ensures IndexesOf(m, EffectReads(t.effect)) <= CompiledReads(m, t)
    ensures IndexesOf(m, ReadVars(t.guard)) <= CompiledReads(m, t)
  {
    CloseIsLeast(m, AsSet(t.declaredReads) + ReadVars(t.guard), {});
  }

  lemma {:induction false} RawIsInner(m: Model, t: Transition, s: State)
    requires PlainGuards(m) && NoLocals(m)
    ensures var r := ApplyInner(m, s, t.effect, Context(Some(s), None));
            RawPosts(m, t, s) == if r.Some? then r.value else []
  {
    var r := ApplyInner(m, s, t.effect, Context(Some(s), None));
    if r.Some? {
      NoLocalsNoReset(MountVars(m), s, r.value);
    }
  }

  /** Where two states differ only on what one transition writes, the other behaves the same. */
  lemma {:induction false} Undisturbed(m: Model, t: Transition, s: State, p: State, w: set<nat>)
    requires PlainGuards(m) && NoLocals(m) && Validated(m, t) && PlainEffect(t.effect) && Plain(t.guard) && |s| == |m.vars|
    requires SameOutside(w, s, p) && w * Touched(m, t) == {}
    ensures GuardHolds(m, p, t.guard) == GuardHolds(m, s, t.guard)
    ensures Wide(RawPosts(m, t, s), |p|) && RawPosts(m, t, p) == OverlayAll(RawPosts(m, t, s), p, Touched(m, t))
  {
    var f := Touched(m, t);
    FootprintSpans(m, t);
    RawIsInner(m, t, s);
    RawIsInner(m, t, p);
    forall i | 0 <= i < |s| && i in f
      ensures s[i] == p[i]
    {
      assert i !in w * f;
    }
    forall i | 0 <= i < |s| && m.vars[i].id in WalkVars(t.guard)
      ensures s[i] == p[i]
    {
      assert i in IndexesOf(m, ReadVars(t.guard));
    }
    PlainReadsOnly(m, t.guard, s, p, NO_CONTEXT, NO_CONTEXT, false);
    assert Overlay(s, p, f) == p;
    EffectIsLocal(m, s, p, f, t.effect, Context(Some(s), None), Context(Some(p), None));
  }

  lemma {:induction false} OneThen(m: Model, t: Transition, states: seq<State>)
    requires PlainGuards(m) && |states| <= 1
    ensures PostsOfEach(m, t, states) == if states == [] then [] else RawPosts(m, t, states[0])
  {
    if states != [] {
      assert states[..0] == [] && PostsOfEach(m, t, states[..0]) == [];
    }
  }

  /** What independence says about the two footprints. */
  ghost predicate Apart(m: Model, l: Transition, r: Transition) {
    && Straight(l.effect) && Straight(r.effect)
    && IndexesOf(m, AsSet(l.declaredWrites)) * Touched(m, r) == {}
    && IndexesOf(m, AsSet(r.declaredWrites)) * Touched(m, l) == {}
  }

  lemma {:induction false} IndependentIsApart(m: Model, visible: set<nat>, left: nat, right: nat)
    requires left < |m.transitions| && right < |m.transitions| && Classify(m, visible, left, right) == Independent
    ensures Apart(m, m.transitions[left], m.transitions[right])
  {
    NoBarrierIsStraight(m.transitions[left].effect);
    NoBarrierIsStraight(m.transitions[right].effect);
  }

  lemma {:induction false} OverlaysMeet(m: Model, l: Transition, r: Transition, s: State, p: State, q: State)
    requires Apart(m, l, r) && SameOutside(IndexesOf(m, AsSet(l.declaredWrites)), s, p)
    requires SameOutside(IndexesOf(m, AsSet(r.declaredWrites)), s, q)
    ensures Overlay(q, p, Touched(m, r)) == Overlay(p, q, Touched(m, l))
  {
    var x, y := Overlay(q, p, Touched(m, r)), Overlay(p, q, Touched(m, l));
    forall i | 0 <= i < |s|
      ensures x[i] == y[i]
    {
      assert i !in IndexesOf(m, AsSet(l.declaredWrites)) * Touched(m, r);
      assert i !in IndexesOf(m, AsSet(r.declaredWrites)) * Touched(m, l);
    }
  }

  /** Independence implies the diamond: neither transition changes the other's guard, and running the two
      effects in either order gives the same posts. */
  lemma {:induction false} IndependentCommute(m: Model, visible: set<nat>, left: nat, right: nat, s: State)
    requires PlainGuards(m) && NoLocals(m) && |s| == |m.vars| && left < |m.transitions| && right < |m.transitions|
    requires forall t | t in {m.transitions[left], m.transitions[right]} :: PlainEffect(t.effect) && Plain(t.guard) && Validated(m, t)
    requires Classify(m, visible, left, right) == Independent
    ensures var l, r := m.transitions[left], m.transitions[right];
            && (forall p | p in RawPosts(m, l, s) :: GuardHolds(m, p, r.guard) == GuardHolds(m, s, r.guard))
            && (forall q | q in RawPosts(m, r, s) :: GuardHolds(m, q, l.guard) == GuardHolds(m, s, l.guard))
            && PostsOfEach(m, r, RawPosts(m, l, s)) == PostsOfEach(m, l, RawPosts(m, r, s))
  {
    var l, r := m.transitions[left], m.transitions[right];
    IndependentIsApart(m, visible, left, right);
    OneSide(m, l, r, s);
    OneSide(m, r, l, s);
    BothOrders(m, l, r, s);
    forall p | p in RawPosts(m, l, s)
      ensures GuardHolds(m, p, r.guard) == GuardHolds(m, s, r.guard)
    {
      assert Follows(m, l, r, s, p);
    }
    forall q | q in RawPosts(m, r, s)
      ensures GuardHolds(m, q, l.guard) == GuardHolds(m, s, l.guard)
    {
      assert Follows(m, r, l, s, q);
    }
  }

  lemma {:induction false} BothOrders(m: Model, l: Transition, r: Transition, s: State)
    requires PlainGuards(m) && Apart(m, l, r)
    requires |RawPosts(m, l, s)| <= 1 && |RawPosts(m, r, s)| <= 1
    requires forall p {:trigger Follows(m, l, r, s, p)} | p in RawPosts(m, l, s) :: Follows(m, l, r, s, p)
    requires forall q {:trigger Follows(m, r, l, s, q)} | q in RawPosts(m, r, s) :: Follows(m, r, l, s, q)
    ensures PostsOfEach(m, r, RawPosts(m, l, s)) == PostsOfEach(m, l, RawPosts(m, r, s))
  {
    var ps, qs := RawPosts(m, l, s), RawPosts(m, r, s);
    OneThen(m, r, ps);
    OneThen(m, l, qs);
    if ps != [] {
      assert Follows(m, l, r, s, ps[0]);
      if qs != [] {
        assert Follows(m, r, l, s, qs[0]);
        OverlayOne(qs, ps[0], Touched(m, r));
        OverlayOne(ps, qs[0], Touched(m, l));
        OverlaysMeet(m, l, r, s, ps[0], qs[0]);
      } else {
        OverlayNone(ps[0], Touched(m, r));
      }
    } else if qs != [] {
      assert Follows(m, r, l, s, qs[0]);
      OverlayNone(qs[0], Touched(m, l));
    }
  }

  lemma {:induction false} OverlayOne(states: seq<State>, t: State, f: set<nat>)
    requires |states| == 1 && Wide(states, |t|)
    ensures OverlayAll(states, t, f) == [Overlay(states[0], t, f)]
  {
  }

  lemma {:induction false} OverlayNone(t: State, f: set<nat>)
    ensures OverlayAll([], t, f) == []
  {
  }

  /** After post `p` of `l`, transition `r` does what it does to `s`, laid over what `l` left. */
  ghost predicate Follows(m: Model, l: Transition, r: Transition, s: State, p: State)
    requires PlainGuards(m)
  {
    && SameOutside(IndexesOf(m, AsSet(l.declaredWrites)), s, p)
    && (Plain(r.guard) ==> GuardHolds(m, p, r.guard) == GuardHolds(m, s, r.guard))
    && Wide(RawPosts(m, r, s), |p|) && RawPosts(m, r, p) == OverlayAll(RawPosts(m, r, s), p, Touched(m, r))
  }

  /** Running `r` after `l` has at most one post: what `r` does to `s`, laid over what `l` left. */
  lemma {:induction false} OneSide(m: Model, l: Transition, r: Transition, s: State)
    requires PlainGuards(m) && NoLocals(m) && |s| == |m.vars|
    requires Validated(m, l) && PlainEffect(r.effect) && Plain(r.guard) && Validated(m, r)
    requires Apart(m, l, r)
    ensures |RawPosts(m, l, s)| <= 1
    ensures forall p {:trigger Follows(m, l, r, s, p)} | p in RawPosts(m, l, s) :: Follows(m, l, r, s, p)
  {
    var w := IndexesOf(m, AsSet(l.declaredWrites));
    RawIsInner(m, l, s);
    StraightIsSingle(m, s, l.effect, Context(Some(s), None));
    FrameOfEffect(m, s, l.effect, Context(Some(s), None), w);
    forall p | p in RawPosts(m, l, s)
      ensures Follows(m, l, r, s, p)
    {
      assert SameOutside(w, s, p);
      Undisturbed(m, r, s, p, w);
    }
  }

  // ---------------------------------------------------------------------------
  // What independence says
  // ---------------------------------------------------------------------------

  /** A sequence of assignments without pre-state, argument or fresh-token terms, that touches neither the route, its
      history, nor a mount-scoped variable. */
  ghost predicate Unbarred(m: Model, t: Transition) {
    && Straight(t.effect)
    && !EffectUses(PreTerm, t.effect) && !EffectUses(OpArgTerm, t.effect) && !EffectUses(FreshTerm, t.effect)
    && forall i | 0 <= i < |m.vars| && i in Touched(m, t) ::
         m.vars[i].guard.None? && m.vars[i].role != LocationCurrent && m.vars[i].role != LocationHistory
  }

  lemma {:induction false} StraightHasNoBarrier(effect: Effect)
    requires Straight(effect)
    ensures !HavocLike(effect) && !MayBranch(effect) && !TouchesQueue(effect)
    decreases effect
  {
    if effect.Seq? {
      forall i | 0 <= i < |effect.effects|
        ensures !HavocLike(effect.effects[i]) && !MayBranch(effect.effects[i]) && !TouchesQueue(effect.effects[i])
      {
        StraightHasNoBarrier(effect.effects[i]);
      }
    }
  }

  lemma {:induction false} BarrierIsExact(m: Model, t: Transition)
    ensures Barrier(FootprintOf(m, t)) <==> !Unbarred(m, t)
  {
    QueueFlagIsScan(m, t);
    if Straight(t.effect) {
      StraightHasNoBarrier(t.effect);
    } else if !HavocLike(t.effect) && !MayBranch(t.effect) && !TouchesQueue(t.effect) {
      NoBarrierIsStraight(t.effect);
    }
  }

  /** No variable is in both sets. */
  ghost predicate Disjoint(a: set<nat>, b: set<nat>) {
    forall i :: !(i in a && i in b)
  }

  /** The pair is independent exactly when the transitions differ, are invisible and not internal, carry no barrier,
      and neither writes what the other reads, writes or is triggered by. */
  lemma {:induction false} IndependenceIsExact(m: Model, visible: set<nat>, left: nat, right: nat)
    requires left < |m.transitions| && right < |m.transitions|
    ensures Classify(m, visible, left, right) == Independent <==>
            var l, r := m.transitions[left], m.transitions[right];
            var lw, rw := IndexesOf(m, AsSet(l.declaredWrites)), IndexesOf(m, AsSet(r.declaredWrites));
            && left != right && left !in visible && right !in visible && !l.internal && !r.internal
            && Unbarred(m, l) && Unbarred(m, r)
            && Disjoint(rw, Touched(m, l)) && Disjoint(lw, Touched(m, r))
            && Disjoint(rw, IndexesOf(m, AsSet(l.triggeredBy))) && Disjoint(lw, IndexesOf(m, AsSet(r.triggeredBy)))
  {
    BarrierIsExact(m, m.transitions[left]);
    BarrierIsExact(m, m.transitions[right]);
    forall a: set<nat>, b: set<nat>
      ensures a * b == {} <==> Disjoint(a, b)
    {
      DisjointIsEmpty(a, b);
    }
  }

  lemma {:induction false} DisjointIsEmpty(a: set<nat>, b: set<nat>)
    ensures a * b == {} <==> Disjoint(a, b)
  {
    forall i | i in a && i in b
      ensures i in a * b
    {
    }
    assert forall i :: i in a * b ==> i in a && i in b;
  }
}
