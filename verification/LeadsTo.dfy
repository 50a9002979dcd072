/** Bounded response: a memoised depth-first search for a run that misses its goal
    (crates/checker/src/property.rs). */
module LeadsTo {
  import opened Bytes
  import opened Sorting
  import opened Properties
  import Search
  import opened Wrappers

  /** The successors a scheduler may choose, in search order, and the goal predicate. */
  datatype Scheduler<!S> = Scheduler(moves: S -> seq<Move<S>>, goal: S -> Result<bool>, key: S -> Key)

  type Suffix<S> = Option<seq<Move<S>>>

  // ---------------------------------------------------------------------------
  // The search without a memo
  // ---------------------------------------------------------------------------

  /** The first failing run from `s` in depth-first order, `left` steps being left of the budget. */
  function Plain<S>(sys: Scheduler<S>, s: S, left: nat): Result<Suffix<S>>
    decreases left, 1, 0
  {
    match sys.goal(s)
    case Err(message) => Err(message)
    case Ok(true) => Ok(None)
    case Ok(false) =>
      if left == 0 || sys.moves(s) == [] then Ok(Some([])) else PlainFrom(sys, sys.moves(s), left)
  }

  function PlainFrom<S>(sys: Scheduler<S>, moves: seq<Move<S>>, left: nat): Result<Suffix<S>>
    requires left > 0
    decreases left, 0, |moves|
  {
    if moves == [] then Ok(None) else
    match Plain(sys, moves[0].post, left - 1)
    case Err(message) => Err(message)
    case Ok(Some(suffix)) => Ok(Some([moves[0]] + suffix))
    case Ok(None) => PlainFrom(sys, moves[1..], left)
  }

  // ---------------------------------------------------------------------------
  // What the answer means
  // ---------------------------------------------------------------------------

  function StateAt<S>(s: S, run: seq<Move<S>>, i: nat): S
    requires i <= |run|
  {
    if i == 0 then s else run[i - 1].post
  }

  /** `run` is a chain of scheduler steps from `s`. */
  ghost predicate IsRun<S>(sys: Scheduler<S>, s: S, run: seq<Move<S>>) {
    forall i {:trigger run[i]} | 0 <= i < |run| ::
      run[i] in sys.moves(StateAt(s, run, i)) && run[i].pre == StateAt(s, run, i)
  }

  /** The run uses up its budget or cannot continue. */
  ghost predicate IsFull<S>(sys: Scheduler<S>, s: S, run: seq<Move<S>>, budget: nat) {
    |run| == budget || (|run| < budget && sys.moves(StateAt(s, run, |run|)) == [])
  }

  ghost predicate MissesBefore<S>(sys: Scheduler<S>, s: S, run: seq<Move<S>>, n: nat)
    requires n <= |run| + 1
  {
    forall i {:trigger StateAt(s, run, i)} | 0 <= i < n :: sys.goal(StateAt(s, run, i)) == Ok(false)
  }

  /** A full run on which the goal is false throughout. */
  ghost predicate Fails<S>(sys: Scheduler<S>, s: S, run: seq<Move<S>>, budget: nat) {
    IsRun(sys, s, run) && IsFull(sys, s, run, budget) && MissesBefore(sys, s, run, |run| + 1)
  }

  /** The goal is met at some point of the run, and false until then. */
  ghost predicate Meets<S>(sys: Scheduler<S>, s: S, run: seq<Move<S>>) {
    exists i: nat :: i <= |run| && sys.goal(StateAt(s, run, i)) == Ok(true) && MissesBefore(sys, s, run, i)
  }

  ghost predicate AllMeet<S(!new)>(sys: Scheduler<S>, s: S, budget: nat) {
    forall run | IsRun(sys, s, run) && IsFull(sys, s, run, budget) :: Meets(sys, s, run)
  }

  /** Some run reaches a state where the goal has no value. */
  ghost predicate Stumbles<S(!new)>(sys: Scheduler<S>, s: S, budget: nat, message: string) {
    exists run :: |run| <= budget && StumblesOn(sys, s, run, message)
  }

  ghost predicate StumblesOn<S>(sys: Scheduler<S>, s: S, run: seq<Move<S>>, message: string) {
    IsRun(sys, s, run) && MissesBefore(sys, s, run, |run|) && sys.goal(StateAt(s, run, |run|)) == Err(message)
  }

  /** Moves record the state they leave. */
  ghost predicate WellFormed<S(!new)>(sys: Scheduler<S>) {
    forall s, m | m in sys.moves(s) :: m.pre == s
  }

  lemma {:induction false} ShiftState<S>(s: S, m: Move<S>, run: seq<Move<S>>, i: nat)
    requires i <= |run|
    ensures StateAt(s, [m] + run, i + 1) == StateAt(m.post, run, i)
  {
  }

  lemma {:induction false} ConsRun<S>(sys: Scheduler<S>, s: S, m: Move<S>, run: seq<Move<S>>)
    ensures IsRun(sys, s, [m] + run) <==> m in sys.moves(s) && m.pre == s && IsRun(sys, m.post, run)
  {
    var all := [m] + run;
    if IsRun(sys, s, all) {
      assert all[0] == m;
      forall i | 0 <= i < |run|
        ensures run[i] in sys.moves(StateAt(m.post, run, i)) && run[i].pre == StateAt(m.post, run, i)
      {
        assert all[i + 1] == run[i];
        ShiftState(s, m, run, i);
      }
    }
    if m in sys.moves(s) && m.pre == s && IsRun(sys, m.post, run) {
      forall i | 0 <= i < |all|
        ensures all[i] in sys.moves(StateAt(s, all, i)) && all[i].pre == StateAt(s, all, i)
      {
        if i > 0 {
          assert all[i] == run[i - 1];
          ShiftState(s, m, run, i - 1);
        }
      }
    }
  }

  lemma {:induction false} ConsMisses<S>(sys: Scheduler<S>, s: S, m: Move<S>, run: seq<Move<S>>, n: nat)
    requires n <= |run| + 1
    ensures MissesBefore(sys, s, [m] + run, n + 1) <==> sys.goal(s) == Ok(false) && MissesBefore(sys, m.post, run, n)
  {
    var all := [m] + run;
    if MissesBefore(sys, s, all, n + 1) {
      assert StateAt(s, all, 0) == s;
      forall i | 0 <= i < n
        ensures sys.goal(StateAt(m.post, run, i)) == Ok(false)
      {
        ShiftState(s, m, run, i);
        assert sys.goal(StateAt(s, all, i + 1)) == Ok(false);
      }
    }
    if sys.goal(s) == Ok(false) && MissesBefore(sys, m.post, run, n) {
      forall i | 0 <= i < n + 1
        ensures sys.goal(StateAt(s, all, i)) == Ok(false)
      {
        if i > 0 {
          ShiftState(s, m, run, i - 1);
        }
      }
    }
  }

  lemma {:induction false} ConsFails<S(!new)>(sys: Scheduler<S>, s: S, m: Move<S>, run: seq<Move<S>>, left: nat)
    requires WellFormed(sys) && m in sys.moves(s) && sys.goal(s) == Ok(false) && Fails(sys, m.post, run, left)
    ensures Fails(sys, s, [m] + run, left + 1)
  {
    ConsRun(sys, s, m, run);
    ConsMisses(sys, s, m, run, |run| + 1);
    ShiftState(s, m, run, |run|);
  }

  lemma {:induction false} ConsStumbles<S(!new)>(sys: Scheduler<S>, s: S, m: Move<S>, left: nat, message: string)
    requires WellFormed(sys) && m in sys.moves(s) && sys.goal(s) == Ok(false) && Stumbles(sys, m.post, left, message)
    ensures Stumbles(sys, s, left + 1, message)
  {
    var run :| |run| <= left && StumblesOn(sys, m.post, run, message);
    ConsStumblesOn(sys, s, m, run, message);
    assert |[m] + run| <= left + 1;
  }

  lemma {:induction false} ConsStumblesOn<S(!new)>(sys: Scheduler<S>, s: S, m: Move<S>, run: seq<Move<S>>, message: string)
    requires m.pre == s && m in sys.moves(s) && sys.goal(s) == Ok(false) && StumblesOn(sys, m.post, run, message)
    ensures StumblesOn(sys, s, [m] + run, message)
  {
    ConsRun(sys, s, m, run);
    ConsMisses(sys, s, m, run, |run|);
    ShiftState(s, m, run, |run|);
  }

  /** A failing suffix is a full run that misses the goal throughout; an error is met on some run. */
  lemma {:induction false} PlainIsSound<S(!new)>(sys: Scheduler<S>, s: S, left: nat)
    requires WellFormed(sys)
    ensures match Plain(sys, s, left)
            case Ok(Some(run)) => Fails(sys, s, run, left)
            case Err(message) => Stumbles(sys, s, left, message)
            case Ok(None) => true
    decreases left, 1, 0
  {
    assert StateAt(s, [], 0) == s;
    match sys.goal(s)
    case Err(message) =>
      assert StumblesOn(sys, s, [], message);
    case Ok(true) =>
    case Ok(false) =>
      if left > 0 && sys.moves(s) != [] {
        PlainFromIsSound(sys, s, sys.moves(s), left);
      }
  }

  lemma {:induction false} PlainFromIsSound<S(!new)>(sys: Scheduler<S>, s: S, moves: seq<Move<S>>, left: nat)
    requires WellFormed(sys) && left > 0 && sys.goal(s) == Ok(false)
    requires forall m | m in moves :: m in sys.moves(s)
    ensures match PlainFrom(sys, moves, left)
            case Ok(Some(run)) => Fails(sys, s, run, left)
            case Err(message) => Stumbles(sys, s, left, message)
            case Ok(None) => true
    decreases left, 0, |moves|
  {
    if moves != [] {
      PlainIsSound(sys, moves[0].post, left - 1);
      match Plain(sys, moves[0].post, left - 1)
      case Err(message) => ConsStumbles(sys, s, moves[0], left - 1, message);
      case Ok(Some(run)) => ConsFails(sys, s, moves[0], run, left - 1);
      case Ok(None) => PlainFromIsSound(sys, s, moves[1..], left);
    }
  }

  lemma {:induction false} MeetsNow<S>(sys: Scheduler<S>, s: S, run: seq<Move<S>>)
    requires sys.goal(s) == Ok(true)
    ensures Meets(sys, s, run)
  {
    assert sys.goal(StateAt(s, run, 0)) == Ok(true) && MissesBefore(sys, s, run, 0);
  }

  lemma {:induction false} ConsMeets<S>(sys: Scheduler<S>, s: S, m: Move<S>, run: seq<Move<S>>)
    requires sys.goal(s) == Ok(false) && Meets(sys, m.post, run)
    ensures Meets(sys, s, [m] + run)
  {
    var i: nat :| i <= |run| && sys.goal(StateAt(m.post, run, i)) == Ok(true) && MissesBefore(sys, m.post, run, i);
    ShiftState(s, m, run, i);
    ConsMisses(sys, s, m, run, i);
    assert sys.goal(StateAt(s, [m] + run, i + 1)) == Ok(true);
  }

  /** No failing suffix: every full run meets the goal. */
  lemma {:induction false} NonePasses<S(!new)>(sys: Scheduler<S>, s: S, left: nat, run: seq<Move<S>>)
    requires Plain(sys, s, left) == Ok(None)
    requires IsRun(sys, s, run) && IsFull(sys, s, run, left)
    ensures Meets(sys, s, run)
    decreases left
  {
    if sys.goal(s) == Ok(true) {
      MeetsNow(sys, s, run);
    } else {
      assert StateAt(s, run, 0) == s;
      var m, rest := run[0], run[1..];
      assert run == [m] + rest;
      ConsRun(sys, s, m, rest);
      ShiftState(s, m, rest, |rest|);
      NoneFromAll(sys, sys.moves(s), left, m);
      NonePasses(sys, m.post, left - 1, rest);
      ConsMeets(sys, s, m, rest);
    }
  }

  lemma {:induction false} NoneFromAll<S(!new)>(sys: Scheduler<S>, moves: seq<Move<S>>, left: nat, m: Move<S>)
    requires left > 0 && PlainFrom(sys, moves, left) == Ok(None) && m in moves
    ensures Plain(sys, m.post, left - 1) == Ok(None)
    decreases |moves|
  {
    if m != moves[0] {
      NoneFromAll(sys, moves[1..], left, m);
    }
  }

  /** Every run can be continued until it is full. */
  lemma {:induction false} Extend<S(!new)>(sys: Scheduler<S>, s: S, run: seq<Move<S>>, budget: nat) returns (full: seq<Move<S>>)
    requires WellFormed(sys) && IsRun(sys, s, run) && |run| <= budget
    ensures IsRun(sys, s, full) && IsFull(sys, s, full, budget) && run <= full
    decreases budget - |run|
  {
    var moves := sys.moves(StateAt(s, run, |run|));
    if |run| == budget || moves == [] {
      full := run;
    } else {
      OneMore(sys, s, run, moves[0]);
      full := Extend(sys, s, run + [moves[0]], budget);
    }
  }

  lemma {:induction false} OneMore<S(!new)>(sys: Scheduler<S>, s: S, run: seq<Move<S>>, m: Move<S>)
    requires IsRun(sys, s, run) && m in sys.moves(StateAt(s, run, |run|)) && m.pre == StateAt(s, run, |run|)
    ensures IsRun(sys, s, run + [m])
  {
    var all := run + [m];
    forall i | 0 <= i < |all|
      ensures all[i] in sys.moves(StateAt(s, all, i)) && all[i].pre == StateAt(s, all, i)
    {
      assert StateAt(s, all, i) == StateAt(s, run, i);
      if i < |run| {
        assert all[i] == run[i];
      }
    }
  }

  /** A run that misses the goal up to a state where it has no value never meets it. */
  lemma {:induction false} StumbleNeverMeets<S>(sys: Scheduler<S>, s: S, run: seq<Move<S>>, full: seq<Move<S>>, message: string)
    requires StumblesOn(sys, s, run, message) && run <= full
    ensures !Meets(sys, s, full)
  {
    var n := |run|;
    forall i: nat | i <= |full| && MissesBefore(sys, s, full, i)
      ensures sys.goal(StateAt(s, full, i)) != Ok(true)
    {
      assert StateAt(s, full, n) == StateAt(s, run, n);
      if i < n {
        assert StateAt(s, full, i) == StateAt(s, run, i);
      }
    }
  }

  /** The search finds nothing exactly when every full run meets the goal within the budget. */
  lemma {:induction false} NoneIsAllMeet<S(!new)>(sys: Scheduler<S>, s: S, budget: nat)
    requires WellFormed(sys)
    ensures Plain(sys, s, budget) == Ok(None) <==> AllMeet(sys, s, budget)
  {
    PlainIsSound(sys, s, budget);
    match Plain(sys, s, budget)
    case Ok(None) =>
      forall run | IsRun(sys, s, run) && IsFull(sys, s, run, budget)
        ensures Meets(sys, s, run)
      {
        NonePasses(sys, s, budget, run);
      }
    case Ok(Some(run)) =>
      FailureNeverMeets(sys, s, run, budget);
    case Err(message) =>
      var run :| |run| <= budget && StumblesOn(sys, s, run, message);
      var full := Extend(sys, s, run, budget);
      StumbleNeverMeets(sys, s, run, full, message);
  }

  lemma {:induction false} FailureNeverMeets<S(!new)>(sys: Scheduler<S>, s: S, run: seq<Move<S>>, budget: nat)
    requires Fails(sys, s, run, budget)
    ensures !Meets(sys, s, run)
  {
  }

  // ---------------------------------------------------------------------------
  // The memoised search
  // ---------------------------------------------------------------------------

  ghost predicate SameMove<S>(sys: Scheduler<S>, a: Move<S>, b: Move<S>) {
    sys.key(a.pre) == sys.key(b.pre) && a.transition == b.transition && sys.key(a.post) == sys.key(b.post)
  }

  /** Two runs that make the same moves, up to keys. */
  ghost predicate SameRun<S>(sys: Scheduler<S>, a: seq<Move<S>>, b: seq<Move<S>>) {
    |a| == |b| && forall i | 0 <= i < |a| :: SameMove(sys, a[i], b[i])
  }

  ghost predicate Alike<S>(sys: Scheduler<S>, a: Suffix<S>, b: Suffix<S>) {
    if a.Some? && b.Some? then SameRun(sys, a.value, b.value) else a == b
  }

  ghost predicate SameAnswer<S>(sys: Scheduler<S>, a: Result<Suffix<S>>, b: Result<Suffix<S>>) {
    if a.Ok? && b.Ok? then Alike(sys, a.value, b.value) else a == b
  }

  /** Moves stay in `dom`, and its states with one key have the same goal value and, in the same order,
      the same moves up to keys. */
  ghost predicate KeyDecides<S(!new)>(sys: Scheduler<S>, dom: S -> bool) {
    && StaysIn(sys, dom)
    && forall s, t {:trigger DecidedAlike(sys, s, t)} | dom(s) && dom(t) && sys.key(s) == sys.key(t) :: DecidedAlike(sys, s, t)
  }

  ghost predicate StaysIn<S(!new)>(sys: Scheduler<S>, dom: S -> bool) {
    forall s, m | dom(s) && m in sys.moves(s) :: dom(m.pre) && dom(m.post)
  }

  ghost predicate DecidedAlike<S(!new)>(sys: Scheduler<S>, s: S, t: S) {
    sys.goal(s) == sys.goal(t) && SameRun(sys, sys.moves(s), sys.moves(t))
  }

  /** All of these moves lie in `dom`. */
  ghost predicate Within<S>(dom: S -> bool, moves: seq<Move<S>>) {
    forall m | m in moves :: dom(m.pre) && dom(m.post)
  }

  lemma {:induction false} PlainByKey<S(!new)>(sys: Scheduler<S>, dom: S -> bool, s: S, t: S, left: nat)
    requires KeyDecides(sys, dom) && dom(s) && dom(t) && sys.key(s) == sys.key(t)
    ensures SameAnswer(sys, Plain(sys, s, left), Plain(sys, t, left))
    decreases left, 1, 0
  {
    assert DecidedAlike(sys, s, t);
    if sys.goal(s) == Ok(false) && left > 0 && sys.moves(s) != [] {
      PlainFromByKey(sys, dom, sys.moves(s), sys.moves(t), left);
    }
  }

  lemma {:induction false} PlainFromByKey<S(!new)>(sys: Scheduler<S>, dom: S -> bool, a: seq<Move<S>>, b: seq<Move<S>>, left: nat)
    requires KeyDecides(sys, dom) && Within(dom, a) && Within(dom, b) && SameRun(sys, a, b) && left > 0
    ensures SameAnswer(sys, PlainFrom(sys, a, left), PlainFrom(sys, b, left))
    decreases left, 0, |a|
  {
    if a != [] {
      assert SameMove(sys, a[0], b[0]);
      PlainByKey(sys, dom, a[0].post, b[0].post, left - 1);
      var x, y := Plain(sys, a[0].post, left - 1), Plain(sys, b[0].post, left - 1);
      if x == Ok(None) {
        PlainFromByKey(sys, dom, a[1..], b[1..], left);
      } else if x.Ok? {
        ConsSame(sys, a[0], x.value.value, b[0], y.value.value);
      }
    }
  }

  lemma {:induction false} ConsSame<S(!new)>(sys: Scheduler<S>, a: Move<S>, x: seq<Move<S>>, b: Move<S>, y: seq<Move<S>>)
    requires SameMove(sys, a, b) && SameRun(sys, x, y)
    ensures SameRun(sys, [a] + x, [b] + y)
  {
  }

  type Memo<S> = map<(Key, nat), Suffix<S>>

  /** `r` is, up to keys, what the plain search finds from `s`, and runs through `dom`. */
  ghost predicate Finds<S(!new)>(sys: Scheduler<S>, dom: S -> bool, r: Result<Suffix<S>>, plain: Result<Suffix<S>>) {
    SameAnswer(sys, r, plain) && (r.Ok? && r.value.Some? ==> Within(dom, r.value.value))
  }

  /** Every memo entry is what the plain search finds from any goal-free state with that key. */
  ghost predicate Sound<S(!new)>(sys: Scheduler<S>, dom: S -> bool, memo: Memo<S>, maxSteps: nat) {
    forall s, depth: nat {:trigger Remembered(sys, dom, memo, s, depth, maxSteps)} |
      dom(s) && (sys.key(s), depth) in memo && depth <= maxSteps :: Remembered(sys, dom, memo, s, depth, maxSteps)
  }

  ghost predicate Remembered<S(!new)>(sys: Scheduler<S>, dom: S -> bool, memo: Memo<S>, s: S, depth: nat, maxSteps: nat)
    requires (sys.key(s), depth) in memo && depth <= maxSteps
  {
    Finds(sys, dom, Ok(memo[(sys.key(s), depth)]), Plain(sys, s, maxSteps - depth))
  }

  lemma {:induction false} Remember<S(!new)>(sys: Scheduler<S>, dom: S -> bool, memo: Memo<S>, s: S, depth: nat, maxSteps: nat,
                                             found: Suffix<S>)
    requires KeyDecides(sys, dom) && Sound(sys, dom, memo, maxSteps) && dom(s) && depth <= maxSteps
    requires Finds(sys, dom, Ok(found), Plain(sys, s, maxSteps - depth))
    ensures Sound(sys, dom, memo[(sys.key(s), depth) := found], maxSteps)
  {
    var memo' := memo[(sys.key(s), depth) := found];
    forall t, d: nat | dom(t) && (sys.key(t), d) in memo' && d <= maxSteps
      ensures Remembered(sys, dom, memo', t, d, maxSteps)
    {
      if sys.key(t) == sys.key(s) && d == depth {
        PlainByKey(sys, dom, s, t, maxSteps - depth);
        SameIsTransitive(sys, Ok(found), Plain(sys, s, maxSteps - depth), Plain(sys, t, maxSteps - depth));
      } else {
        assert Remembered(sys, dom, memo, t, d, maxSteps);
      }
    }
  }

  lemma {:induction false} SameIsTransitive<S(!new)>(sys: Scheduler<S>, a: Result<Suffix<S>>, b: Result<Suffix<S>>, c: Result<Suffix<S>>)
    requires SameAnswer(sys, a, b) && SameAnswer(sys, b, c)
    ensures SameAnswer(sys, a, c)
  {
  }

  /** What the search relies on: keys decide, and the memo so far is sound. */
  ghost predicate Reliable<S(!new)>(sys: Scheduler<S>, dom: S -> bool, memo: Memo<S>, maxSteps: nat) {
    KeyDecides(sys, dom) && Sound(sys, dom, memo, maxSteps)
  }

  method Visit<S(!new)>(sys: Scheduler<S>, ghost dom: S -> bool, state: S, depth: nat, maxSteps: nat, memo0: Memo<S>)
    returns (r: Result<Suffix<S>>, memo: Memo<S>)
    requires depth <= maxSteps
    ensures Reliable(sys, dom, memo0, maxSteps) && dom(state) ==>
              Finds(sys, dom, r, Plain(sys, state, maxSteps - depth)) && Sound(sys, dom, memo, maxSteps)
    decreases maxSteps - depth, 1
  {
    memo := memo0;
    ghost var trusted := Reliable(sys, dom, memo0, maxSteps) && dom(state);
    var met := sys.goal(state);
    if met.Err? {
      return Err(met.message), memo;
    }
    if met.value {
      return Ok(None), memo;
    }
    var key := (sys.key(state), depth);
    if key in memo {
      assert trusted ==> Remembered(sys, dom, memo, state, depth, maxSteps);
      return Ok(memo[key]), memo;
    }
    if depth >= maxSteps || sys.moves(state) == [] {
      if trusted {
        Remember(sys, dom, memo, state, depth, maxSteps, Some([]));
      }
      memo := memo[key := Some([])];
      return Ok(Some([])), memo;
    }
    r, memo := VisitMoves(sys, dom, sys.moves(state), depth, maxSteps, memo);
    if r.Ok? {
      if trusted {
        Remember(sys, dom, memo, state, depth, maxSteps, r.value);
      }
      memo := memo[key := r.value];
    }
  }

  method VisitMoves<S(!new)>(sys: Scheduler<S>, ghost dom: S -> bool, moves: seq<Move<S>>, depth: nat, maxSteps: nat, memo0: Memo<S>)
    returns (r: Result<Suffix<S>>, memo: Memo<S>)
    requires depth < maxSteps
    ensures Reliable(sys, dom, memo0, maxSteps) && Within(dom, moves) ==>
              Finds(sys, dom, r, PlainFrom(sys, moves, maxSteps - depth)) && Sound(sys, dom, memo, maxSteps)
    decreases maxSteps - depth, 0
  {
    memo := memo0;
    ghost var trusted := Reliable(sys, dom, memo0, maxSteps) && Within(dom, moves);
    for i := 0 to |moves|
      invariant trusted ==> Sound(sys, dom, memo, maxSteps)
      invariant trusted ==> PlainFrom(sys, moves, maxSteps - depth) == PlainFrom(sys, moves[i..], maxSteps - depth)
    {
      r, memo := Visit(sys, dom, moves[i].post, depth + 1, maxSteps, memo);
      assert moves[i..][0] == moves[i] && moves[i..][1..] == moves[i + 1..];
      if r.Err? {
        return;
      }
      if r.value.Some? {
        if trusted {
          var suffix := Plain(sys, moves[i].post, maxSteps - depth - 1);
          ConsSame(sys, moves[i], r.value.value, moves[i], suffix.value.value);
        }
        return Ok(Some([moves[i]] + r.value.value)), memo;
      }
    }
    r := Ok(None);
  }

  /** The memoised search answers like the plain one: the same failing run up to keys, or none. */
  method FailingSuffixWithin<S(!new)>(sys: Scheduler<S>, ghost dom: S -> bool, start: S, budget: nat) returns (r: Result<Suffix<S>>)
    ensures KeyDecides(sys, dom) && dom(start) ==> Finds(sys, dom, r, Plain(sys, start, budget))
    ensures KeyDecides(sys, dom) && dom(start) && WellFormed(sys) ==> (r == Ok(None) <==> AllMeet(sys, start, budget))
  {
    var memo: Memo<S>;
    r, memo := Visit(sys, dom, start, 0, budget, map[]);
    if WellFormed(sys) {
      NoneIsAllMeet(sys, start, budget);
    }
  }

  ghost predicate Injective<S(!new)>(key: S -> Key, dom: S -> bool) {
    forall s, t | dom(s) && dom(t) && key(s) == key(t) :: s == t
  }

  lemma {:induction false} RunStaysIn<S(!new)>(sys: Scheduler<S>, dom: S -> bool, s: S, run: seq<Move<S>>, i: nat)
    requires StaysIn(sys, dom) && dom(s) && IsRun(sys, s, run) && i <= |run|
    ensures dom(StateAt(s, run, i))
  {
    if i > 0 {
      RunStaysIn(sys, dom, s, run, i - 1);
      assert run[i - 1] in sys.moves(StateAt(s, run, i - 1));
    }
  }

  /** With an injective key the memoised answer is the plain one, and a suffix is a failing run. */
  lemma {:induction false} InjectiveAnswer<S(!new)>(sys: Scheduler<S>, dom: S -> bool, start: S, budget: nat, r: Result<Suffix<S>>)
    requires WellFormed(sys) && StaysIn(sys, dom) && Injective(sys.key, dom) && dom(start)
    requires Finds(sys, dom, r, Plain(sys, start, budget))
    ensures r == Plain(sys, start, budget)
    ensures r.Ok? && r.value.Some? ==> Fails(sys, start, r.value.value, budget)
  {
    var plain := Plain(sys, start, budget);
    PlainIsSound(sys, start, budget);
    if r.Ok? && r.value.Some? {
      var run := plain.value.value;
      forall i | 0 <= i < |run|
        ensures r.value.value[i] == run[i]
      {
        assert SameMove(sys, r.value.value[i], run[i]);
        assert r.value.value[i] in r.value.value;
        assert run[i] in sys.moves(StateAt(start, run, i));
        RunStaysIn(sys, dom, start, run, i);
      }
      assert r.value.value == run;
    }
  }

  lemma {:induction false} InjectiveDecides<S(!new)>(sys: Scheduler<S>, dom: S -> bool)
    requires Injective(sys.key, dom) && StaysIn(sys, dom)
    ensures KeyDecides(sys, dom)
  {
    forall s, t | dom(s) && dom(t) && sys.key(s) == sys.key(t)
      ensures DecidedAlike(sys, s, t)
    {
      assert s == t;
    }
  }

  // ---------------------------------------------------------------------------
  // The verdict
  // ---------------------------------------------------------------------------

  datatype Response<S> = Vacuous | Unrefuted | Missed(trigger: Move<S>, suffix: seq<Move<S>>) | Stumbled(message: string)

  /** The recorded edges that set off the property of this name, between stored states. */
  function ResolveTriggerEdges<S>(states: map<Key, S>, compact: seq<Search.CompactEdge>, name: string): seq<Move<S>> {
    if compact == [] then [] else
    var n := |compact| - 1;
    var e := compact[n];
    ResolveTriggerEdges(states, compact[..n], name) +
      if name in e.triggered && e.pre in states && e.post in states
      then [Move(states[e.pre], e.transition, states[e.post])] else []
  }

  lemma {:induction false} ResolvedHas<S>(states: map<Key, S>, compact: seq<Search.CompactEdge>, name: string, m: Move<S>)
    ensures m in ResolveTriggerEdges(states, compact, name) <==>
            exists e :: e in compact && name in e.triggered && e.pre in states && e.post in states &&
              m == Move(states[e.pre], e.transition, states[e.post])
  {
    if compact != [] {
      var n := |compact| - 1;
      ResolvedHas(states, compact[..n], name, m);
      assert compact == compact[..n] + [compact[n]];
    }
  }

  /** The verdict is the truth about the runs after these trigger edges. */
  ghost predicate Answers<S(!new)>(sys: Scheduler<S>, dom: S -> bool, triggers: seq<Move<S>>, budget: nat, v: Response<S>) {
    match v
    case Vacuous => triggers == []
    case Unrefuted => triggers != [] && forall e | e in triggers :: AllMeet(sys, e.post, budget)
    case Missed(e, suffix) => e in triggers && Finds(sys, dom, Ok(Some(suffix)), Plain(sys, e.post, budget))
    case Stumbled(message) => exists e :: e in triggers && Plain(sys, e.post, budget) == Err(message)
  }

  /** The first trigger edge after which some run misses the goal decides. */
  method FinalizeLeadsTo<S(!new)>(sys: Scheduler<S>, ghost dom: S -> bool, states: map<Key, S>, compact: seq<Search.CompactEdge>,
                                  name: string, budget: nat) returns (v: Response<S>)
    requires WellFormed(sys) && forall k | k in states :: dom(states[k])
    ensures v.Vacuous? <==> ResolveTriggerEdges(states, compact, name) == []
    ensures KeyDecides(sys, dom) ==> Answers(sys, dom, ResolveTriggerEdges(states, compact, name), budget, v)
  {
    var triggers := ResolveTriggerEdges(states, compact, name);
    if triggers == [] {
      return Vacuous;
    }
    for i := 0 to |triggers|
      invariant KeyDecides(sys, dom) ==> forall k | 0 <= k < i :: AllMeet(sys, triggers[k].post, budget)
    {
      var e := triggers[i];
      ResolvedHas(states, compact, name, e);
      var r := FailingSuffixWithin(sys, dom, e.post, budget);
      match r {
        case Err(message) => return Stumbled(message);
        case Ok(Some(suffix)) => return Missed(e, suffix);
        case Ok(None) =>
      }
    }
    v := Unrefuted;
  }

  // ---------------------------------------------------------------------------
  // Scheduler moves
  // ---------------------------------------------------------------------------

  predicate MoveLeq<S>(key: S -> Key, a: Move<S>, b: Move<S>) {
    if a.transition != b.transition then a.transition < b.transition else Leq(key(a.post), key(b.post))
  }

  function ByMove<S>(key: S -> Key): (Move<S>, Move<S>) -> bool {
    (a: Move<S>, b: Move<S>) => MoveLeq(key, a, b)
  }

  /** The posts of transitions the scheduler may take. */
  function AllowedMoves<S>(allows: nat -> bool, s: S, posts: seq<Search.Post<S>>): seq<Move<S>> {
    if posts == [] then [] else
    var n := |posts| - 1;
    AllowedMoves(allows, s, posts[..n]) +
      if allows(posts[n].transition) then [Move(s, posts[n].transition, posts[n].state)] else []
  }

  function SchedulerOf<S>(sys: Search.System<S>, allows: nat -> bool, goal: S -> Result<bool>): Scheduler<S> {
    Scheduler(s => Sort(ByMove(sys.key), AllowedMoves(allows, s, sys.step(s))), goal, sys.key)
  }

  lemma {:induction false} AllowedHas<S(!new)>(allows: nat -> bool, s: S, posts: seq<Search.Post<S>>, m: Move<S>)
    ensures m in AllowedMoves(allows, s, posts) <==>
            m.pre == s && allows(m.transition) && exists p :: p in posts && p.transition == m.transition && p.state == m.post
  {
    if posts != [] {
      var n := |posts| - 1;
      AllowedHas(allows, s, posts[..n], m);
      assert posts == posts[..n] + [posts[n]];
    }
  }

  /** Scheduler moves are exactly the allowed steps of the system. */
  lemma {:induction false} MovesAreSteps<S(!new)>(sys: Search.System<S>, allows: nat -> bool, goal: S -> Result<bool>, s: S, m: Move<S>)
    ensures m in SchedulerOf(sys, allows, goal).moves(s) <==>
            m.pre == s && allows(m.transition) &&
            exists p :: p in sys.step(s) && p.transition == m.transition && p.state == m.post
  {
    var found := AllowedMoves(allows, s, sys.step(s));
    AllowedHas(allows, s, sys.step(s), m);
    SortPermutes(ByMove(sys.key), found);
    SameMembers(Sort(ByMove(sys.key), found), found, m);
  }

  lemma {:induction false} SchedulerIsWellFormed<S(!new)>(sys: Search.System<S>, allows: nat -> bool, goal: S -> Result<bool>)
    ensures WellFormed(SchedulerOf(sys, allows, goal))
  {
    forall s, m | m in SchedulerOf(sys, allows, goal).moves(s)
      ensures m.pre == s
    {
      MovesAreSteps(sys, allows, goal, s, m);
    }
  }

  lemma {:induction false} MovesAreTotal<S(!new)>(key: S -> Key)
    ensures TotalOrder(ByMove(key))
  {
    forall a: Move<S>, b: Move<S>
      ensures MoveLeq(key, a, b) || MoveLeq(key, b, a)
    {
      LeqTotal(key(a.post), key(b.post));
    }
    forall a: Move<S>, b: Move<S>, c: Move<S> | MoveLeq(key, a, b) && MoveLeq(key, b, c)
      ensures MoveLeq(key, a, c)
    {
      if a.transition == b.transition == c.transition {
        LeqTrans(key(a.post), key(b.post), key(c.post));
      }
    }
  }

  /** Moves are tried by transition, then by the key they lead to. */
  lemma {:induction false} MovesInOrder<S(!new)>(sys: Search.System<S>, allows: nat -> bool, goal: S -> Result<bool>, s: S, i: nat, j: nat)
    requires i < j < |SchedulerOf(sys, allows, goal).moves(s)|
    ensures var a, b := SchedulerOf(sys, allows, goal).moves(s)[i], SchedulerOf(sys, allows, goal).moves(s)[j];
            && a.transition <= b.transition
            && (a.transition == b.transition ==> Precedes(sys.key(a.post), sys.key(b.post)))
  {
    var found := AllowedMoves(allows, s, sys.step(s));
    MovesAreTotal(sys.key);
    SortSorts(ByMove(sys.key), found);
    var a, b := SchedulerOf(sys, allows, goal).moves(s)[i], SchedulerOf(sys, allows, goal).moves(s)[j];
    assert ByMove(sys.key)(a, b);
    LeqIsLexicographic(sys.key(a.post), sys.key(b.post));
  }
}
