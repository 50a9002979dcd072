/** Properties, verdicts and search limits
    (crates/checker/src/property.rs, crates/checker/src/search.rs). */
module Properties {
  import opened Visited
  import Ctl
  import opened Wrappers

  /** What a step predicate says about one edge: not applicable, satisfied, refuted, or no value. */
  datatype Judgement = Skipped | Satisfied | Refuted | Broken(message: string)

  datatype Property<!S, !P> =
    | Temporal(name: string, formula: Ctl.Formula<P>)
    | AlwaysStep(name: string, judge: (S, nat, S) -> Judgement)
    | LeadsToWithin(name: string, trigger: (S, nat, S) -> Result<bool>, goal: S -> Result<bool>, budget: nat,
                    allows: nat -> bool)

  /** One step of a run: the state it leaves, the transition and the state it enters. */
  datatype Move<+S> = Move(pre: S, transition: nat, post: S)

  datatype Verdict<+S> =
    | StepViolation(pre: S, transition: nat, post: S)
    | ResponseViolation(trigger: Move<S>, suffix: seq<Move<S>>)
    | Failure(message: string)
    | Decided(status: Ctl.Status)

  type Verdicts<S> = map<string, Verdict<S>>

  // ---------------------------------------------------------------------------
  // Observing edges
  // ---------------------------------------------------------------------------

  /** The edge satisfies the property or falls outside it. */
  ghost predicate Passes<S, P>(p: Property<S, P>, pre: S, t: nat, post: S) {
    p.AlwaysStep? ==> p.judge(pre, t, post) in {Skipped, Satisfied}
  }

  /** `v` is what observing this edge gives some `alwaysStep` property called `name`. */
  ghost predicate FoundOn<S, P>(properties: seq<Property<S, P>>, name: string, v: Verdict<S>, pre: S, t: nat, post: S) {
    exists p :: p in properties && p.AlwaysStep? && p.name == name &&
      match p.judge(pre, t, post)
      case Refuted => v == StepViolation(pre, t, post)
      case Broken(m) => v == Failure(m)
      case _ => false
  }

  method ObserveEdge<S, P>(properties: seq<Property<S, P>>, pre: S, t: nat, post: S, before: Verdicts<S>)
    returns (after: Verdicts<S>)
    ensures forall name | name in before :: name in after && after[name] == before[name]
    ensures forall name | name in after && name !in before :: FoundOn(properties, name, after[name], pre, t, post)
    ensures forall p | p in properties :: p.name in after || Passes(p, pre, t, post)
  {
    after := before;
    for i := 0 to |properties|
      invariant forall name | name in before :: name in after && after[name] == before[name]
      invariant forall name | name in after && name !in before :: FoundOn(properties, name, after[name], pre, t, post)
      invariant forall k | 0 <= k < i :: properties[k].name in after || Passes(properties[k], pre, t, post)
    {
      var p := properties[i];
      if p.AlwaysStep? && p.name !in after {
        match p.judge(pre, t, post) {
          case Refuted => after := after[p.name := StepViolation(pre, t, post)];
          case Broken(m) => after := after[p.name := Failure(m)];
          case _ =>
        }
      }
    }
  }

  predicate IsTerminal<S, P>(p: Property<S, P>, v: Verdict<S>) {
    match p
    case Temporal(_, _) => false
    case AlwaysStep(_, _) => !v.Decided? || v.status in {Ctl.Violated, Ctl.VerifiedWithinBounds}
    case LeadsToWithin(_, _, _, _, _) => !v.Decided? || v.status in {Ctl.Violated, Ctl.VacuousWarning, Ctl.VerifiedWithinBounds}
  }

  predicate AllTerminal<S, P>(properties: seq<Property<S, P>>, verdicts: Verdicts<S>) {
    && properties != []
    && forall i | 0 <= i < |properties| :: properties[i].name in verdicts && IsTerminal(properties[i], verdicts[properties[i].name])
  }

  /** Edges are recorded when some property needs the graph. */
  predicate RecordsEdges<S, P>(properties: seq<Property<S, P>>) {
    exists i | 0 <= i < |properties| :: properties[i].Temporal? || properties[i].LeadsToWithin?
  }

  /** The step sets off the response property; a trigger without a value counts as not fired. */
  predicate Fires<S, P>(p: Property<S, P>, pre: S, t: nat, post: S) {
    p.LeadsToWithin? && p.trigger(pre, t, post) == Ok(true)
  }

  // ---------------------------------------------------------------------------
  // Limits
  // ---------------------------------------------------------------------------

  datatype Options = Options(maxStates: Option<nat>, maxEdges: Option<nat>, maxFrontier: Option<nat>)

  datatype Limit = MaxStates(n: nat) | MaxEdges(n: nat) | MaxFrontier(n: nat)

  /** The limit names a bound that is set and that these totals reach. */
  ghost predicate Reached(options: Options, limit: Limit, states: nat, edges: nat, frontier: nat) {
    match limit
    case MaxStates(n) => options.maxStates == Some(n) && n <= states
    case MaxEdges(n) => options.maxEdges == Some(n) && n <= edges
    case MaxFrontier(n) => options.maxFrontier == Some(n) && n <= frontier
  }

  /** The limit names a bound that is set. */
  ghost predicate Names(options: Options, limit: Limit) {
    match limit
    case MaxStates(n) => options.maxStates == Some(n)
    case MaxEdges(n) => options.maxEdges == Some(n)
    case MaxFrontier(n) => options.maxFrontier == Some(n)
  }

  /** These totals stay below every bound that is set. */
  ghost predicate WithinBounds(options: Options, states: nat, edges: nat, frontier: nat) {
    && (options.maxStates.Some? ==> states < options.maxStates.value)
    && (options.maxEdges.Some? ==> edges < options.maxEdges.value)
    && (options.maxFrontier.Some? ==> frontier < options.maxFrontier.value)
  }

  function CheckSearchLimits(options: Options, states: nat, edges: nat, frontier: nat): (r: Option<Limit>)
    ensures r.Some? ==> Reached(options, r.value, states, edges, frontier)
    ensures r.None? <==> WithinBounds(options, states, edges, frontier)
  {
    if options.maxStates.Some? && states >= options.maxStates.value then Some(MaxStates(options.maxStates.value))
    else if options.maxEdges.Some? && edges >= options.maxEdges.value then Some(MaxEdges(options.maxEdges.value))
    else if options.maxFrontier.Some? && frontier >= options.maxFrontier.value then Some(MaxFrontier(options.maxFrontier.value))
    else None
  }

  /** Statuses that a limit leaves in place. */
  predicate SurvivesLimit<S>(v: Verdict<S>) {
    !v.Decided? || v.status in {Ctl.Violated, Ctl.VacuousWarning}
  }

  /** Every property without a decisive verdict becomes an error. */
  method ApplySearchLimitVerdicts<S, P>(properties: seq<Property<S, P>>, before: Verdicts<S>, reason: string)
    returns (after: Verdicts<S>)
    ensures forall p | p in properties :: p.name in after
    ensures forall name | name in before && SurvivesLimit(before[name]) :: name in after && after[name] == before[name]
    ensures forall name | name in after :: (name in before && after[name] == before[name]) || after[name] == Failure(reason)
    ensures forall p | p in properties :: SurvivesLimit(after[p.name])
  {
    after := before;
    for i := 0 to |properties|
      invariant forall k | 0 <= k < i :: properties[k].name in after && SurvivesLimit(after[properties[k].name])
      invariant forall name | name in before && SurvivesLimit(before[name]) :: name in after && after[name] == before[name]
      invariant forall name | name in after :: (name in before && after[name] == before[name]) || after[name] == Failure(reason)
    {
      var name := properties[i].name;
      if !(name in after && SurvivesLimit(after[name])) {
        after := after[name := Failure(reason)];
      }
    }
  }

  // ---------------------------------------------------------------------------
  // The shared expansion budget
  // ---------------------------------------------------------------------------

  /** What the workers report: a generated edge, or a state not stored yet. */
  datatype Event = GeneratedEdge | NewState

  datatype Budget = Budget(edges: nat, newStates: nat, stop: bool)

  function Note(options: Options, states: nat, edges: nat, b: Budget, e: Event): Budget {
    if b.stop then b else
    match e
    case GeneratedEdge =>
      var n := b.edges + 1;
      Budget(n, b.newStates, CheckSearchLimits(options, states + b.newStates, edges + n, 0).Some?)
    case NewState =>
      var n := b.newStates + 1;
      Budget(b.edges, n, options.maxStates.Some? && states + n >= options.maxStates.value)
  }

  /** The budget after the workers' notes, in whatever order they interleave. */
  function RunBudget(options: Options, states: nat, edges: nat, events: seq<Event>): Budget {
    if events == [] then Budget(0, 0, false) else
    Note(options, states, edges, RunBudget(options, states, edges, events[..|events| - 1]), events[|events| - 1])
  }

  function Count(e: Event, events: seq<Event>): nat {
    if events == [] then 0 else
    Count(e, events[..|events| - 1]) + if events[|events| - 1] == e then 1 else 0
  }

  /** The limit the workers run into, given how many edges and new states there are in all. */
  function BudgetLimit(options: Options, states: nat, edges: nat, generated: nat, unseen: nat): Option<Limit> {
    if generated == 0 then None else CheckSearchLimits(options, states + unseen, edges + generated, 0)
  }

  lemma {:induction false} BudgetCounts(options: Options, states: nat, edges: nat, events: seq<Event>)
    ensures var b := RunBudget(options, states, edges, events);
            !b.stop ==> b.edges == Count(GeneratedEdge, events) && b.newStates == Count(NewState, events)
    ensures var b := RunBudget(options, states, edges, events);
            b.edges <= Count(GeneratedEdge, events) && b.newStates <= Count(NewState, events)
  {
    if events != [] {
      BudgetCounts(options, states, edges, events[..|events| - 1]);
    }
  }

  lemma {:induction false} StopsAtTotals(options: Options, states: nat, edges: nat, events: seq<Event>)
    requires CheckSearchLimits(options, states, edges, 0).None?
    ensures RunBudget(options, states, edges, events).stop <==>
            (events != [] && CheckSearchLimits(options, states + Count(NewState, events),
                                               edges + Count(GeneratedEdge, events), 0).Some?)
  {
    if events != [] {
      StopsAtTotals(options, states, edges, events[..|events| - 1]);
      BudgetCounts(options, states, edges, events[..|events| - 1]);
    }
  }

  /** Whatever the interleaving of a completed expansion, the workers' stop flag ends up set exactly
      when the totals alone run into a limit; every new state comes with a generated edge. */
  lemma {:induction false} BudgetIgnoresInterleaving(options: Options, states: nat, edges: nat, events: seq<Event>)
    requires CheckSearchLimits(options, states, edges, 0).None?
    requires Count(NewState, events) <= Count(GeneratedEdge, events)
    ensures RunBudget(options, states, edges, events).stop <==>
            BudgetLimit(options, states, edges, Count(GeneratedEdge, events), Count(NewState, events)).Some?
  {
    StopsAtTotals(options, states, edges, events);
    CountAll(events);
  }

  lemma {:induction false} CountAll(events: seq<Event>)
    ensures Count(GeneratedEdge, events) + Count(NewState, events) == |events|
  {
    if events != [] {
      CountAll(events[..|events| - 1]);
    }
  }
}
