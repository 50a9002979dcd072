/** From what is observed on the edges of stored states to what is true of every run
    (crates/checker/src/property.rs). */
module Judging {
  import opened Bytes
  import opened Visited
  import opened Properties
  import opened Search
  import opened Levels
  import LeadsTo
  import Ctl
  import opened Wrappers

  // ---------------------------------------------------------------------------
  // Steps out of one key
  // ---------------------------------------------------------------------------

  /** The property finds the same on both steps. */
  ghost predicate SameFinding<S, P>(p: Property<S, P>, s: S, q: Post<S>, t: S, r: Post<S>) {
    && (Passes(p, s, q.transition, q.state) <==> Passes(p, t, r.transition, r.state))
    && (Fires(p, s, q.transition, q.state) <==> Fires(p, t, r.transition, r.state))
  }

  /** Every step out of `s` has a step out of `t`, to the same key, that is judged alike. */
  ghost predicate JudgedAlike<S(!new), P>(sys: System<S>, p: Property<S, P>, s: S, t: S) {
    forall q | q in sys.step(s) :: HasTwin(sys, p, s, q, t)
  }

  ghost predicate HasTwin<S(!new), P>(sys: System<S>, p: Property<S, P>, s: S, q: Post<S>, t: S) {
    exists r :: r in sys.step(t) && sys.key(r.state) == sys.key(q.state) && SameFinding(p, s, q, t, r)
  }

  /** States of runs that have one key have steps that are judged alike. */
  ghost predicate JudgesByKey<S(!new), P>(sys: System<S>, p: Property<S, P>) {
    forall s, t {:trigger JudgedAlike(sys, p, s, t)} | Occurs(sys, s) && Occurs(sys, t) && sys.key(s) == sys.key(t) ::
      JudgedAlike(sys, p, s, t)
  }

  /** Some run visits `s`, and its key is less than `d` steps from the start. */
  ghost predicate Nearby<S(!new)>(sys: System<S>, s: S, d: nat) {
    Occurs(sys, s) && exists n: nat :: n < d && IsDistance(sys, n, sys.key(s))
  }

  /** Keys less than `d` steps away are stored, and no longer in the frontier of level `d`. */
  lemma {:induction false} NearerIsDone<S(!new)>(sys: System<S>, st: Store<S>, frontier: seq<nat>, d: nat, n: nat, k: Key)
    requires AtLevel(sys, st, frontier, d) && IsDistance(sys, n, k) && n < d
    ensures k in st.ids && st.ids[k] !in frontier
  {
    assert ReachWithin(sys, d, k);
    if st.ids[k] in frontier {
      var i :| 0 <= i < |frontier| && frontier[i] == st.ids[k];
      assert InFrontier(st, frontier, k);
      DistanceUnique(sys, n, d, k);
    }
  }

  /** Every step out of a state near enough has an observed edge, to the same key, that is judged alike. */
  lemma {:induction false} ObservedTwin<S(!new), P>(sys: System<S>, p: Property<S, P>, st: Store<S>, frontier: seq<nat>, d: nat,
                                                    observed: seq<Edge<S>>, s: S, q: Post<S>) returns (id: nat, r: Post<S>)
    requires AtLevel(sys, st, frontier, d) && GenuineForest(sys, st) && Expanded(sys, st, frontier, observed)
    requires JudgesByKey(sys, p) && Nearby(sys, s, d) && q in sys.step(s)
    ensures id < |st.states| && r in sys.step(st.states[id]) && EdgeOf(sys, st, id, r) in observed
    ensures sys.key(r.state) == sys.key(q.state) && SameFinding(p, s, q, st.states[id], r)
  {
    var n: nat :| n < d && IsDistance(sys, n, sys.key(s));
    NearerIsDone(sys, st, frontier, d, n, sys.key(s));
    id := st.ids[sys.key(s)];
    StoredOccurs(sys, st, id);
    assert JudgedAlike(sys, p, s, st.states[id]);
    assert HasTwin(sys, p, s, q, st.states[id]);
    r :| r in sys.step(st.states[id]) && sys.key(r.state) == sys.key(q.state) && SameFinding(p, s, q, st.states[id], r);
  }

  // ---------------------------------------------------------------------------
  // Step properties
  // ---------------------------------------------------------------------------

  /** Every step out of `s` passes. */
  ghost predicate StepsPass<S, P>(sys: System<S>, p: Property<S, P>, s: S) {
    forall q | q in sys.step(s) :: Passes(p, s, q.transition, q.state)
  }

  /** A shortest run of `n` steps ends in a state with this key all of whose steps pass. */
  ghost predicate PassesAt<S(!new), P>(sys: System<S>, p: Property<S, P>, n: nat, k: Key) {
    exists s :: OccursAt(sys, n, s) && sys.key(s) == k && StepsPass(sys, p, s)
  }

  /** The property passes on a visited state of every key less than `d` steps away, and, where keys decide its
      judgements, on every step out of every such state that any run visits. */
  ghost predicate AllPass<S(!new), P>(sys: System<S>, p: Property<S, P>, d: nat) {
    && (forall n: nat, k {:trigger PassesAt(sys, p, n, k)} | n < d && IsDistance(sys, n, k) :: PassesAt(sys, p, n, k))
    && (JudgesByKey(sys, p) ==> forall s {:trigger Nearby(sys, s, d)} | Nearby(sys, s, d) :: StepsPass(sys, p, s))
  }

  /** A step property without a verdict passes on every step out of the levels already expanded. */
  lemma {:induction false} ClearedPasses<S(!new), P>(sys: System<S>, properties: seq<Property<S, P>>, st: Store<S>, frontier: seq<nat>,
                                                     d: nat, observed: seq<Edge<S>>, verdicts: Verdicts<S>, p: Property<S, P>)
    requires AtLevel(sys, st, frontier, d) && GenuineForest(sys, st) && Expanded(sys, st, frontier, observed)
    requires Cleared(properties, observed, verdicts) && p in properties && p.name !in verdicts
    ensures AllPass(sys, p, d)
  {
    forall n: nat, k | n < d && IsDistance(sys, n, k)
      ensures PassesAt(sys, p, n, k)
    {
      StoredPasses(sys, properties, st, frontier, d, observed, verdicts, p, n, k);
    }
    if JudgesByKey(sys, p) {
      forall s, q | Nearby(sys, s, d) && q in sys.step(s)
        ensures Passes(p, s, q.transition, q.state)
      {
        var id, r := ObservedTwin(sys, p, st, frontier, d, observed, s, q);
        var e := EdgeOf(sys, st, id, r);
        assert Passes(p, e.preState, e.transition, e.post);
      }
    }
  }

  lemma {:induction false} StoredPasses<S(!new), P>(sys: System<S>, properties: seq<Property<S, P>>, st: Store<S>, frontier: seq<nat>,
                                                    d: nat, observed: seq<Edge<S>>, verdicts: Verdicts<S>, p: Property<S, P>,
                                                    n: nat, k: Key)
    requires AtLevel(sys, st, frontier, d) && GenuineForest(sys, st) && Expanded(sys, st, frontier, observed)
    requires Cleared(properties, observed, verdicts) && p in properties && p.name !in verdicts
    requires IsDistance(sys, n, k) && n < d
    ensures PassesAt(sys, p, n, k)
  {
    NearerIsDone(sys, st, frontier, d, n, k);
    var id := st.ids[k];
    StoredOccursAt(sys, st, n, k);
    forall q | q in sys.step(st.states[id])
      ensures Passes(p, st.states[id], q.transition, q.state)
    {
      var e := EdgeOf(sys, st, id, q);
      assert e in observed;
      assert Passes(p, e.preState, e.transition, e.post);
    }
    assert StepsPass(sys, p, st.byCanon[k]);
  }

  // ---------------------------------------------------------------------------
  // Bounded response
  // ---------------------------------------------------------------------------

  ghost function Runs<S(!new)>(sys: System<S>): S -> bool {
    s => Occurs(sys, s)
  }

  function SchedulerFor<S, P>(sys: System<S>, p: Property<S, P>): LeadsTo.Scheduler<S>
    requires p.LeadsToWithin?
  {
    LeadsTo.SchedulerOf(sys, p.allows, p.goal)
  }

  /** Keys decide which steps set off the property and how its scheduler goes on. */
  ghost predicate RespondsByKey<S(!new), P>(sys: System<S>, p: Property<S, P>)
    requires p.LeadsToWithin?
  {
    JudgesByKey(sys, p) && LeadsTo.KeyDecides(SchedulerFor(sys, p), Runs(sys))
  }

  /** A step out of a state that some run visits sets off the property. */
  ghost predicate SetsOff<S(!new), P>(sys: System<S>, p: Property<S, P>, s: S, q: Post<S>) {
    Occurs(sys, s) && q in sys.step(s) && p.LeadsToWithin? && p.trigger(s, q.transition, q.state) == Ok(true)
  }

  /** `m` is, up to the key of its end, a step that sets off the property. */
  ghost predicate IsTrigger<S(!new), P>(sys: System<S>, p: Property<S, P>, m: Move<S>) {
    && Occurs(sys, m.post)
    && exists q :: SetsOff(sys, p, m.pre, q) && q.transition == m.transition && sys.key(q.state) == sys.key(m.post)
  }

  /** The suffix is, up to keys, a full scheduler run after the trigger on which the goal stays false,
      and where keys are injective it is that run. */
  ghost predicate FailsAfter<S(!new), P>(sys: System<S>, p: Property<S, P>, m: Move<S>, suffix: seq<Move<S>>)
    requires p.LeadsToWithin?
  {
    && (exists run :: LeadsTo.Fails(SchedulerFor(sys, p), m.post, run, p.budget) && LeadsTo.SameRun(SchedulerFor(sys, p), suffix, run))
    && (InjectiveKey(sys) ==> LeadsTo.Fails(SchedulerFor(sys, p), m.post, suffix, p.budget))
  }

  /** Every full scheduler run after a step that sets off the property, out of a state less than `d` steps away,
      meets the goal. */
  ghost predicate AlwaysAnswered<S(!new), P>(sys: System<S>, p: Property<S, P>, d: nat)
    requires p.LeadsToWithin?
  {
    forall s, q {:trigger SetsOff(sys, p, s, q)} | Nearby(sys, s, d) && SetsOff(sys, p, s, q) ::
      LeadsTo.AllMeet(SchedulerFor(sys, p), q.state, p.budget)
  }

  ghost predicate NeverSetOff<S(!new), P>(sys: System<S>, p: Property<S, P>, d: nat) {
    forall s, q {:trigger SetsOff(sys, p, s, q)} | Nearby(sys, s, d) :: !SetsOff(sys, p, s, q)
  }

  /** What the verdict on a bounded-response property, or its absence, says about the system's runs. */
  ghost predicate Responds<S(!new), P>(sys: System<S>, p: Property<S, P>, v: Option<Verdict<S>>, d: nat)
    requires p.LeadsToWithin?
  {
    match v
    case None => AlwaysAnswered(sys, p, d) && exists m :: IsTrigger(sys, p, m)
    case Some(Decided(status)) => status == Ctl.VacuousWarning && NeverSetOff(sys, p, d)
    case Some(ResponseViolation(m, suffix)) => IsTrigger(sys, p, m) && FailsAfter(sys, p, m, suffix)
    case Some(Failure(message)) =>
      exists m :: IsTrigger(sys, p, m) && LeadsTo.Stumbles(SchedulerFor(sys, p), m.post, p.budget, message)
    case Some(StepViolation(_, _, _)) => false
  }

  /** How a response is reported. */
  function Reported<S>(v: LeadsTo.Response<S>): Option<Verdict<S>> {
    match v
    case Vacuous => Some(Decided(Ctl.VacuousWarning))
    case Unrefuted => None
    case Missed(m, suffix) => Some(ResponseViolation(m, suffix))
    case Stumbled(message) => Some(Failure(message))
  }

  /** Only the property itself carries its name. */
  ghost predicate OnlyNamed<S, P>(properties: seq<Property<S, P>>, p: Property<S, P>) {
    p in properties && forall p' | p' in properties && p'.name == p.name :: p' == p
  }

  /** A trigger edge was observed, and set off the property. */
  lemma {:induction false} TriggerEdge<S(!new), P>(properties: seq<Property<S, P>>, p: Property<S, P>, st: Store<S>,
                                                   observed: seq<Edge<S>>, m: Move<S>) returns (e: Edge<S>)
    requires OnlyNamed(properties, p) && p.LeadsToWithin?
    requires m in LeadsTo.ResolveTriggerEdges(st.byCanon, RecordCompact(properties, [], observed), p.name)
    ensures e in observed && Fires(p, e.preState, e.transition, e.post) && e.pre in st.byCanon && e.postKey in st.byCanon
    ensures m == Move(st.byCanon[e.pre], e.transition, st.byCanon[e.postKey])
  {
    var compact := RecordCompact(properties, [], observed);
    LeadsTo.ResolvedHas(st.byCanon, compact, p.name, m);
    var c :| c in compact && p.name in c.triggered && c.pre in st.byCanon && c.post in st.byCanon &&
             m == Move(st.byCanon[c.pre], c.transition, st.byCanon[c.post]);
    CompactHas(properties, observed, c);
    e :| e in observed && c == CompactOf(properties, e);
    TriggeredHas(properties, e, p.name);
  }

  /** Trigger edges are steps between stored states that set off the property, up to the key of their ends. */
  lemma {:induction false} TriggersAreReal<S(!new), P>(sys: System<S>, properties: seq<Property<S, P>>, p: Property<S, P>, st: Store<S>,
                                                       observed: seq<Edge<S>>, m: Move<S>)
    requires st.Valid(sys.key) && GenuineForest(sys, st) && ObservedStored(sys, st, observed)
    requires OnlyNamed(properties, p) && p.LeadsToWithin?
    requires m in LeadsTo.ResolveTriggerEdges(st.byCanon, RecordCompact(properties, [], observed), p.name)
    ensures IsTrigger(sys, p, m)
  {
    var e := TriggerEdge(properties, p, st, observed, m);
    assert StoredEdge(sys, st, e);
    var q :| q in sys.step(st.states[e.preId]) && e == EdgeOf(sys, st, e.preId, q);
    StoredOccurs(sys, st, e.preId);
    StoredOccurs(sys, st, st.ids[e.postKey]);
    assert SetsOff(sys, p, m.pre, q);
  }

  /** Every step that sets off the property, out of a state near enough, is answered for by a trigger edge
      to the same key. */
  lemma {:induction false} TriggersCover<S(!new), P>(sys: System<S>, properties: seq<Property<S, P>>, p: Property<S, P>, st: Store<S>,
                                                     frontier: seq<nat>, d: nat, observed: seq<Edge<S>>, s: S, q: Post<S>)
    returns (m: Move<S>)
    requires AtLevel(sys, st, frontier, d) && GenuineForest(sys, st) && Expanded(sys, st, frontier, observed)
    requires p in properties && p.LeadsToWithin? && JudgesByKey(sys, p) && Nearby(sys, s, d) && SetsOff(sys, p, s, q)
    ensures m in LeadsTo.ResolveTriggerEdges(st.byCanon, RecordCompact(properties, [], observed), p.name)
    ensures Occurs(sys, m.post) && Occurs(sys, q.state) && sys.key(m.post) == sys.key(q.state)
  {
    var id, r := ObservedTwin(sys, p, st, frontier, d, observed, s, q);
    var e := EdgeOf(sys, st, id, r);
    var c := CompactOf(properties, e);
    CompactHas(properties, observed, c);
    TriggeredHas(properties, e, p.name);
    PostIsStored(sys, st, frontier, d, s, q);
    m := Move(st.byCanon[c.pre], c.transition, st.byCanon[c.post]);
    LeadsTo.ResolvedHas(st.byCanon, RecordCompact(properties, [], observed), p.name, m);
    StoredOccurs(sys, st, st.ids[c.post]);
    assert IsStep(sys, s, q.state);
    OccursNext(sys, s, q.state);
  }

  lemma {:induction false} PostIsStored<S(!new)>(sys: System<S>, st: Store<S>, frontier: seq<nat>, d: nat, s: S, q: Post<S>)
    requires AtLevel(sys, st, frontier, d) && Nearby(sys, s, d) && q in sys.step(s)
    ensures sys.key(q.state) in st.ids
  {
    var n: nat :| n < d && IsDistance(sys, n, sys.key(s));
    assert StepsTo(sys, s, sys.key(q.state));
    assert KeyStep(sys, sys.key(s), sys.key(q.state));
    assert ReachIn(sys, n + 1, sys.key(q.state));
    assert ReachWithin(sys, d, sys.key(q.state));
  }

  /** The scheduler of a system whose successors are runs' states stays among them. */
  lemma {:induction false} SchedulerStaysIn<S(!new), P>(sys: System<S>, p: Property<S, P>)
    requires p.LeadsToWithin?
    ensures LeadsTo.StaysIn(SchedulerFor(sys, p), Runs(sys))
  {
    forall s, m | Runs(sys)(s) && m in SchedulerFor(sys, p).moves(s)
      ensures Runs(sys)(m.pre) && Runs(sys)(m.post)
    {
      LeadsTo.MovesAreSteps(sys, p.allows, p.goal, s, m);
      assert IsStep(sys, s, m.post);
      OccursNext(sys, s, m.post);
    }
  }

  /** Meeting the goal on every run depends on the key alone. */
  lemma {:induction false} AnsweredByKey<S(!new), P>(sys: System<S>, p: Property<S, P>, s: S, t: S)
    requires p.LeadsToWithin? && RespondsByKey(sys, p)
    requires Occurs(sys, s) && Occurs(sys, t) && sys.key(s) == sys.key(t)
    requires LeadsTo.AllMeet(SchedulerFor(sys, p), s, p.budget)
    ensures LeadsTo.AllMeet(SchedulerFor(sys, p), t, p.budget)
  {
    var sched := SchedulerFor(sys, p);
    LeadsTo.SchedulerIsWellFormed(sys, p.allows, p.goal);
    LeadsTo.PlainByKey(sched, Runs(sys), s, t, p.budget);
    LeadsTo.NoneIsAllMeet(sched, s, p.budget);
    LeadsTo.NoneIsAllMeet(sched, t, p.budget);
  }

  lemma {:induction false} MissedFails<S(!new), P>(sys: System<S>, p: Property<S, P>, m: Move<S>, suffix: seq<Move<S>>)
    requires p.LeadsToWithin? && RespondsByKey(sys, p) && Occurs(sys, m.post)
    requires LeadsTo.Finds(SchedulerFor(sys, p), Runs(sys), Ok(Some(suffix)), LeadsTo.Plain(SchedulerFor(sys, p), m.post, p.budget))
    ensures FailsAfter(sys, p, m, suffix)
  {
    var sched := SchedulerFor(sys, p);
    LeadsTo.SchedulerIsWellFormed(sys, p.allows, p.goal);
    LeadsTo.PlainIsSound(sched, m.post, p.budget);
    if InjectiveKey(sys) {
      LeadsTo.InjectiveAnswer(sched, Runs(sys), m.post, p.budget, Ok(Some(suffix)));
    }
  }

  /** The verdict on the recorded trigger edges is the truth about all runs. */
  lemma {:induction false} AnswersAreTrue<S(!new), P>(sys: System<S>, properties: seq<Property<S, P>>, p: Property<S, P>, st: Store<S>,
                                                      frontier: seq<nat>, d: nat, observed: seq<Edge<S>>, v: LeadsTo.Response<S>)
    requires AtLevel(sys, st, frontier, d) && GenuineForest(sys, st) && Expanded(sys, st, frontier, observed)
    requires ObservedStored(sys, st, observed) && OnlyNamed(properties, p) && p.LeadsToWithin? && RespondsByKey(sys, p)
    requires LeadsTo.Answers(SchedulerFor(sys, p), Runs(sys),
                             LeadsTo.ResolveTriggerEdges(st.byCanon, RecordCompact(properties, [], observed), p.name), p.budget, v)
    ensures Responds(sys, p, Reported(v), d)
  {
    var triggers := LeadsTo.ResolveTriggerEdges(st.byCanon, RecordCompact(properties, [], observed), p.name);
    LeadsTo.SchedulerIsWellFormed(sys, p.allows, p.goal);
    match v
    case Vacuous =>
      forall s, q | Nearby(sys, s, d)
        ensures !SetsOff(sys, p, s, q)
      {
        if SetsOff(sys, p, s, q) {
          var m := TriggersCover(sys, properties, p, st, frontier, d, observed, s, q);
        }
      }
    case Unrefuted =>
      TriggersAreReal(sys, properties, p, st, observed, triggers[0]);
      forall s, q | Nearby(sys, s, d) && SetsOff(sys, p, s, q)
        ensures LeadsTo.AllMeet(SchedulerFor(sys, p), q.state, p.budget)
      {
        var m := TriggersCover(sys, properties, p, st, frontier, d, observed, s, q);
        AnsweredByKey(sys, p, m.post, q.state);
      }
    case Missed(m, suffix) =>
      TriggersAreReal(sys, properties, p, st, observed, m);
      MissedFails(sys, p, m, suffix);
    case Stumbled(message) =>
      var m :| m in triggers && LeadsTo.Plain(SchedulerFor(sys, p), m.post, p.budget) == Err(message);
      TriggersAreReal(sys, properties, p, st, observed, m);
      LeadsTo.PlainIsSound(SchedulerFor(sys, p), m.post, p.budget);
  }

  // ---------------------------------------------------------------------------
  // Injective keys
  // ---------------------------------------------------------------------------

  /** No two states of runs share a key. */
  ghost predicate InjectiveKey<S(!new)>(sys: System<S>) {
    forall s, t | Occurs(sys, s) && Occurs(sys, t) && sys.key(s) == sys.key(t) :: s == t
  }

  /** An injective key, as models without tokens have, decides everything. */
  lemma {:induction false} InjectiveJudges<S(!new), P>(sys: System<S>, p: Property<S, P>)
    requires InjectiveKey(sys)
    ensures JudgesByKey(sys, p)
    ensures p.LeadsToWithin? ==> RespondsByKey(sys, p)
  {
    forall s, t | Occurs(sys, s) && Occurs(sys, t) && sys.key(s) == sys.key(t)
      ensures JudgedAlike(sys, p, s, t)
    {
      forall q | q in sys.step(s)
        ensures HasTwin(sys, p, s, q, t)
      {
        assert SameFinding(p, s, q, t, q);
      }
    }
    if p.LeadsToWithin? {
      SchedulerStaysIn(sys, p);
      LeadsTo.InjectiveDecides(SchedulerFor(sys, p), Runs(sys));
    }
  }
}
