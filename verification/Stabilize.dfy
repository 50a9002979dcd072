/** Running internal transitions until nothing more fires (crates/checker/src/stabilize.rs). */
module Stabilize {
  import opened Bytes
  import opened Mapping
  import opened Sorting
  import opened Orders
  import opened Wrappers

  /** The internal transitions of a compiled model. `apply(t, start, s)` lists the posts of
      transition `t` on `s` with `start` as the pre-state; none when the effect fails. */
  datatype Rules<!S> = Rules(internal: seq<nat>, triggers: nat -> seq<nat>, commit: nat -> Commit,
                             enabled: (nat, S) -> bool, apply: (nat, S, S) -> seq<S>,
                             changed: (S, S) -> set<nat>, key: S -> Key)

  /** A state on the way to rest, with the variables that still count as changed. */
  datatype Out<S> = Out(state: S, changed: set<nat>)

  predicate Ascending(s: seq<nat>) {
    forall i, j | 0 <= i < j < |s| :: s[i] < s[j]
  }

  // ---------------------------------------------------------------------------
  // Which transitions fire
  // ---------------------------------------------------------------------------

  predicate Triggered(triggers: seq<nat>, changed: set<nat>) {
    triggers == [] || exists i | 0 <= i < |triggers| :: triggers[i] in changed
  }

  predicate Fires<S>(rules: Rules<S>, t: nat, o: Out<S>) {
    Triggered(rules.triggers(t), o.changed) && rules.enabled(t, o.state)
  }

  /** The internal transitions that fire, in index order. */
  function Firing<S>(rules: Rules<S>, internal: seq<nat>, o: Out<S>): seq<nat> {
    if internal == [] then [] else
    var n := |internal| - 1;
    Firing(rules, internal[..n], o) + if Fires(rules, internal[n], o) then [internal[n]] else []
  }

  predicate Quiescent<S>(rules: Rules<S>, o: Out<S>) {
    Firing(rules, rules.internal, o) == []
  }

  lemma {:induction false} FiringHas<S>(rules: Rules<S>, internal: seq<nat>, o: Out<S>, t: nat)
    ensures t in Firing(rules, internal, o) <==> t in internal && Fires(rules, t, o)
  {
    if internal != [] {
      var n := |internal| - 1;
      FiringHas(rules, internal[..n], o, t);
      assert internal == internal[..n] + [internal[n]];
    }
  }

  /** At rest no internal transition both is enabled and has no trigger or a changed one. */
  lemma {:induction false} QuiescentMeansNoneFires<S>(rules: Rules<S>, o: Out<S>)
    ensures Quiescent(rules, o) <==>
            forall t | t in rules.internal && rules.enabled(t, o.state) ::
              rules.triggers(t) != [] && forall v | v in rules.triggers(t) :: v !in o.changed
  {
    forall t | t in rules.internal
      ensures t in Firing(rules, rules.internal, o) <==>
              rules.enabled(t, o.state) && (rules.triggers(t) == [] || exists v :: v in rules.triggers(t) && v in o.changed)
    {
      FiringHas(rules, rules.internal, o, t);
      var triggers := rules.triggers(t);
      if v :| v in triggers && v in o.changed {
        var i :| 0 <= i < |triggers| && triggers[i] == v;
        assert Triggered(triggers, o.changed);
      }
    }
    var firing := Firing(rules, rules.internal, o);
    if firing != [] {
      FirstIsMember(firing);
      FiringHas(rules, rules.internal, o, firing[0]);
    }
  }

  lemma {:induction false} FiringAscends<S>(rules: Rules<S>, internal: seq<nat>, o: Out<S>)
    requires Ascending(internal)
    ensures Ascending(Firing(rules, internal, o))
  {
    if internal != [] {
      var n := |internal| - 1;
      FiringAscends(rules, internal[..n], o);
      forall t | t in Firing(rules, internal[..n], o)
        ensures t < internal[n]
      {
        FiringHas(rules, internal[..n], o, t);
      }
      var before := Firing(rules, internal[..n], o);
      assert forall i | 0 <= i < |before| :: before[i] in before;
    }
  }

  /** Internal transitions by the variable that triggers them, and those without a trigger. */
  datatype TriggerIndex = TriggerIndex(always: seq<nat>, byVar: map<nat, seq<nat>>)

  predicate Listed(index: TriggerIndex, v: nat, t: nat) {
    v in index.byVar && t in index.byVar[v]
  }

  ghost predicate IndexOf<S>(rules: Rules<S>, internal: seq<nat>, index: TriggerIndex) {
    && (forall t :: t in index.always <==> t in internal && rules.triggers(t) == [])
    && (forall v, t {:trigger Listed(index, v, t)} :: Listed(index, v, t) <==> t in internal && v in rules.triggers(t))
  }

  method CompileTriggers<S>(rules: Rules<S>) returns (index: TriggerIndex)
    ensures IndexOf(rules, rules.internal, index)
  {
    index := TriggerIndex([], map[]);
    for i := 0 to |rules.internal|
      invariant IndexOf(rules, rules.internal[..i], index)
    {
      var t := rules.internal[i];
      var triggers := rules.triggers(t);
      ghost var before := index;
      assert rules.internal[..i + 1] == rules.internal[..i] + [t];
      if triggers == [] {
        index := index.(always := index.always + [t]);
        assert forall v, u :: Listed(index, v, u) <==> Listed(before, v, u);
      } else {
        index := AddTriggers(index, t, triggers);
      }
    }
    assert rules.internal[..|rules.internal|] == rules.internal;
  }

  method AddTriggers(before: TriggerIndex, t: nat, triggers: seq<nat>) returns (index: TriggerIndex)
    ensures index.always == before.always
    ensures forall v, u {:trigger Listed(index, v, u)} :: Listed(index, v, u) <==> Listed(before, v, u) || (u == t && v in triggers)
  {
    index := before;
    for i := 0 to |triggers|
      invariant index.always == before.always
      invariant forall v, u {:trigger Listed(index, v, u)} ::
                  Listed(index, v, u) <==> Listed(before, v, u) || (u == t && v in triggers[..i])
    {
      var v := triggers[i];
      var old_ := if v in index.byVar then index.byVar[v] else [];
      ghost var known := index;
      index := index.(byVar := index.byVar[v := old_ + [t]]);
      assert forall w, u :: Listed(index, w, u) <==> Listed(known, w, u) || (u == t && w == v);
    }
  }

  function ByIndex(): (nat, nat) -> bool {
    (a: nat, b: nat) => a <= b
  }

  /** Candidates found through the index, without repetition, in index order. */
  method IndexedCandidates(index: TriggerIndex, changed: set<nat>) returns (out: seq<nat>)
    ensures Ascending(out)
    ensures forall t :: t in out <==> t in index.always || exists v :: v in changed && Listed(index, v, t)
  {
    var found := AddNew([], index.always);
    var rest := changed;
    while rest != {}
      invariant rest <= changed && Distinct(found)
      invariant forall t :: t in found <==> t in index.always || exists v :: v in changed - rest && Listed(index, v, t)
      decreases rest
    {
      var v :| v in rest;
      ghost var known, left := found, rest;
      found := AddNew(found, if v in index.byVar then index.byVar[v] else []);
      rest := rest - {v};
      assert forall t :: t in found <==> t in known || Listed(index, v, t);
      assert changed - rest == (changed - left) + {v};
    }
    out := Sort(ByIndex(), found);
    SortAscends(found);
    forall t
      ensures t in out <==> t in found
    {
      SortPermutes(ByIndex(), found);
      SameMembers(out, found, t);
    }
  }

  method AddNew(before: seq<nat>, more: seq<nat>) returns (out: seq<nat>)
    requires Distinct(before)
    ensures Distinct(out)
    ensures forall t :: t in out <==> t in before || t in more
  {
    out := before;
    for i := 0 to |more|
      invariant Distinct(out)
      invariant forall t :: t in out <==> t in before || t in more[..i]
    {
      if more[i] !in out {
        out := out + [more[i]];
      }
    }
  }

  lemma {:induction false} SortAscends(s: seq<nat>)
    requires Distinct(s)
    ensures Ascending(Sort(ByIndex(), s))
  {
    var out := Sort(ByIndex(), s);
    SortPermutes(ByIndex(), s);
    SortSorts(ByIndex(), s);
    DistinctBag(s);
    BagDistinct(out);
    forall i, j | 0 <= i < j < |out|
      ensures out[i] < out[j]
    {
      assert ByIndex()(out[i], out[j]);
    }
  }

  lemma {:induction false} BagDistinct(s: seq<nat>)
    requires forall x :: multiset(s)[x] <= 1
    ensures Distinct(s)
  {
    forall i, j | 0 <= i < j < |s|
      ensures s[i] != s[j]
    {
      if s[i] == s[j] {
        TwiceInBag(s, i, j);
      }
    }
  }

  lemma {:induction false} DistinctBag(s: seq<nat>)
    requires Distinct(s)
    ensures forall x :: multiset(s)[x] <= 1
  {
    if s != [] {
      var n := |s| - 1;
      DistinctBag(s[..n]);
      assert s == s[..n] + [s[n]];
      assert s[n] !in s[..n];
    }
  }

  lemma {:induction false} TwiceInBag(s: seq<nat>, i: nat, j: nat)
    requires i < j < |s| && s[i] == s[j]
    ensures multiset(s)[s[i]] >= 2
  {
    assert s == s[..j] + s[j..];
    assert s[..j][i] == s[i] && s[j..][0] == s[j];
    assert s[i] in s[..j] && s[j] in s[j..];
  }

  /** Two ascending lists of the same indexes are equal. */
  lemma {:induction false} AscendingUnique(a: seq<nat>, b: seq<nat>)
    requires Ascending(a) && Ascending(b) && forall t :: t in a <==> t in b
    ensures a == b
    decreases |a|
  {
    if a == [] {
      FirstIsMember(b);
    } else {
      assert a[0] in b;
      var m, n := |a| - 1, |b| - 1;
      assert a[m] in b && b[n] in a;
      assert a[m] == b[n];
      forall t
        ensures t in a[..m] <==> t in b[..n]
      {
        assert t in a[..m] <==> t in a && t != a[m];
        assert t in b[..n] <==> t in b && t != b[n];
      }
      AscendingUnique(a[..m], b[..n]);
    }
  }

  /** The indexed search for firing transitions finds exactly those a scan over all of them finds. */
  method FiringByIndex<S>(rules: Rules<S>, index: TriggerIndex, o: Out<S>) returns (firing: seq<nat>)
    requires Ascending(rules.internal) && IndexOf(rules, rules.internal, index)
    ensures firing == Firing(rules, rules.internal, o)
  {
    var candidates := IndexedCandidates(index, o.changed);
    firing := Firing(rules, candidates, o);
    FiringAscends(rules, candidates, o);
    FiringAscends(rules, rules.internal, o);
    forall t
      ensures t in firing <==> t in Firing(rules, rules.internal, o)
    {
      FiringHas(rules, candidates, o, t);
      FiringHas(rules, rules.internal, o, t);
      if t in rules.internal {
        TriggeredIsListed(rules, index, o.changed, t);
      }
    }
    AscendingUnique(firing, Firing(rules, rules.internal, o));
  }

  lemma {:induction false} TriggeredIsListed<S>(rules: Rules<S>, index: TriggerIndex, changed: set<nat>, t: nat)
    requires IndexOf(rules, rules.internal, index) && t in rules.internal
    ensures Triggered(rules.triggers(t), changed) <==> t in index.always || exists v :: v in changed && Listed(index, v, t)
  {
    var triggers := rules.triggers(t);
    if i :| 0 <= i < |triggers| && triggers[i] in changed {
      assert Listed(index, triggers[i], t);
    }
  }

  // ---------------------------------------------------------------------------
  // Applying one commit order
  // ---------------------------------------------------------------------------

  function Posts<S>(rules: Rules<S>, start: S, posts: seq<S>): (r: seq<Out<S>>)
    ensures |r| == |posts| && forall i | 0 <= i < |posts| :: r[i] == Out(posts[i], rules.changed(start, posts[i]))
  {
    seq(|posts|, i requires 0 <= i < |posts| => Out(posts[i], rules.changed(start, posts[i])))
  }

  /** Transition `t` on a state: its posts where it is still enabled, the state itself elsewhere. */
  function Turns<S>(rules: Rules<S>, start: S, t: nat): Out<S> -> seq<Out<S>> {
    (o: Out<S>) => if rules.enabled(t, o.state) then Posts(rules, start, rules.apply(t, start, o.state)) else [o]
  }

  function ApplySequence<S>(rules: Rules<S>, start: S, sequence: seq<nat>): seq<Out<S>> {
    if sequence == [] then [Out(start, {})] else
    var n := |sequence| - 1;
    FlatMap(Turns(rules, start, sequence[n]), ApplySequence(rules, start, sequence[..n]))
  }

  method ApplyTransition<S>(rules: Rules<S>, start: S, t: nat, outs: seq<Out<S>>) returns (next: seq<Out<S>>)
    ensures next == FlatMap(Turns(rules, start, t), outs)
  {
    next := [];
    for i := 0 to |outs|
      invariant next == FlatMap(Turns(rules, start, t), outs[..i])
    {
      FlatMapSnoc(Turns(rules, start, t), outs, i);
      if !rules.enabled(t, outs[i].state) {
        next := next + [outs[i]];
      } else {
        var posts := OutsOf(rules, start, rules.apply(t, start, outs[i].state));
        next := next + posts;
      }
    }
    assert outs[..|outs|] == outs;
  }

  method OutsOf<S>(rules: Rules<S>, start: S, posts: seq<S>) returns (outs: seq<Out<S>>)
    ensures outs == Posts(rules, start, posts)
  {
    outs := [];
    for j := 0 to |posts|
      invariant outs == Posts(rules, start, posts)[..j]
    {
      outs := outs + [Out(posts[j], rules.changed(start, posts[j]))];
    }
  }

  method ApplyInternalSequence<S>(rules: Rules<S>, start: S, sequence: seq<nat>) returns (outs: seq<Out<S>>)
    ensures outs == ApplySequence(rules, start, sequence)
  {
    outs := [Out(start, {})];
    for i := 0 to |sequence|
      invariant outs == ApplySequence(rules, start, sequence[..i])
    {
      assert sequence[..i + 1][..i] == sequence[..i];
      outs := ApplyTransition(rules, start, sequence[i], outs);
    }
    assert sequence[..|sequence|] == sequence;
  }

  /** One transition of a commit order: skipped where it is no longer enabled. */
  ghost predicate Turn<S>(rules: Rules<S>, start: S, t: nat, before: Out<S>, after: Out<S>) {
    if rules.enabled(t, before.state)
    then exists s :: s in rules.apply(t, start, before.state) && after == Out(s, rules.changed(start, s))
    else after == before
  }

  /** A run of the transitions of `sequence`, in order, ends in `after`. */
  ghost predicate Applied<S(!new)>(rules: Rules<S>, start: S, sequence: seq<nat>, after: Out<S>) {
    if sequence == [] then after == Out(start, {}) else
    var n := |sequence| - 1;
    exists mid :: Applied(rules, start, sequence[..n], mid) && Turn(rules, start, sequence[n], mid, after)
  }

  lemma {:induction false} TurnHas<S(!new)>(rules: Rules<S>, start: S, t: nat, o: Out<S>, after: Out<S>)
    ensures Turn(rules, start, t, o, after) <==> after in Turns(rules, start, t)(o)
  {
    if rules.enabled(t, o.state) {
      var posts := rules.apply(t, start, o.state);
      if s :| s in posts && after == Out(s, rules.changed(start, s)) {
        var i :| 0 <= i < |posts| && posts[i] == s;
        assert Posts(rules, start, posts)[i] == after;
      }
    }
  }

  /** These are exactly the states that runs of `sequence` end in. */
  ghost predicate AllApplied<S(!new)>(rules: Rules<S>, start: S, sequence: seq<nat>, outs: seq<Out<S>>) {
    forall o {:trigger Applied(rules, start, sequence, o)} :: o in outs <==> Applied(rules, start, sequence, o)
  }

  lemma {:induction false} AppliedNext<S(!new)>(rules: Rules<S>, start: S, sequence: seq<nat>, before: seq<Out<S>>, after: seq<Out<S>>)
    requires sequence != [] && AllApplied(rules, start, sequence[..|sequence| - 1], before)
    requires after == FlatMap(Turns(rules, start, sequence[|sequence| - 1]), before)
    ensures AllApplied(rules, start, sequence, after)
  {
    var n := |sequence| - 1;
    var f := Turns(rules, start, sequence[n]);
    forall o
      ensures o in after <==> Applied(rules, start, sequence, o)
    {
      FlatMapHas(f, before, o);
      if o in after {
        var mid :| mid in before && o in f(mid);
        TurnHas(rules, start, sequence[n], mid, o);
        assert Applied(rules, start, sequence[..n], mid);
      }
      if Applied(rules, start, sequence, o) {
        var mid :| Applied(rules, start, sequence[..n], mid) && Turn(rules, start, sequence[n], mid, o);
        TurnHas(rules, start, sequence[n], mid, o);
        assert mid in before;
      }
    }
  }

  lemma {:induction false} ApplySequenceExact<S(!new)>(rules: Rules<S>, start: S, sequence: seq<nat>)
    ensures AllApplied(rules, start, sequence, ApplySequence(rules, start, sequence))
  {
    if sequence != [] {
      var n := |sequence| - 1;
      var before, after := ApplySequence(rules, start, sequence[..n]), ApplySequence(rules, start, sequence);
      ApplySequenceExact(rules, start, sequence[..n]);
      AppliedNext(rules, start, sequence, before, after);
    }
  }

  // ---------------------------------------------------------------------------
  // Rounds
  // ---------------------------------------------------------------------------

  function Sequencer<S>(rules: Rules<S>, start: S): seq<nat> -> seq<Out<S>> {
    sequence => ApplySequence(rules, start, sequence)
  }

  function RoundOf<S>(rules: Rules<S>, o: Out<S>): seq<Out<S>> {
    if Quiescent(rules, o) then [o]
    else FlatMap(Sequencer(rules, o.state), CommitOrders(rules.commit, Firing(rules, rules.internal, o)))
  }

  function Rounder<S>(rules: Rules<S>): Out<S> -> seq<Out<S>> {
    (o: Out<S>) => RoundOf(rules, o)
  }

  /** The keys of a list of states on the way. */
  function KeysOfOuts<S>(key: S -> Key, outs: seq<Out<S>>): set<Key> {
    set i | 0 <= i < |outs| :: key(outs[i].state)
  }

  /** The first state of every key. */
  function Unique<S>(key: S -> Key, outs: seq<Out<S>>): seq<Out<S>> {
    if outs == [] then [] else
    var n := |outs| - 1;
    Unique(key, outs[..n]) + if key(outs[n].state) in KeysOfOuts(key, outs[..n]) then [] else [outs[n]]
  }

  function Rounds<S>(rules: Rules<S>, start: Out<S>, n: nat): seq<Out<S>> {
    if n == 0 then [start] else Unique(rules.key, FlatMap(Rounder(rules), Rounds(rules, start, n - 1)))
  }

  ghost predicate DistinctKeys<S>(key: S -> Key, outs: seq<Out<S>>) {
    forall i, j | 0 <= i < j < |outs| :: key(outs[i].state) != key(outs[j].state)
  }

  method UniqueStates<S>(key: S -> Key, outs: seq<Out<S>>) returns (r: seq<Out<S>>)
    ensures r == Unique(key, outs)
  {
    r := [];
    var seen: set<Key> := {};
    for i := 0 to |outs|
      invariant r == Unique(key, outs[..i]) && seen == KeysOfOuts(key, outs[..i])
    {
      var k := key(outs[i].state);
      assert outs[..i + 1][..i] == outs[..i];
      KeysOneMore(key, outs, i);
      if k !in seen {
        r := r + [outs[i]];
      }
      seen := seen + {k};
    }
    assert outs[..|outs|] == outs;
  }

  lemma {:induction false} KeysOneMore<S>(key: S -> Key, outs: seq<Out<S>>, i: nat)
    requires i < |outs|
    ensures KeysOfOuts(key, outs[..i + 1]) == KeysOfOuts(key, outs[..i]) + {key(outs[i].state)}
  {
    var all := outs[..i + 1];
    forall k | k in KeysOfOuts(key, outs[..i]) + {key(outs[i].state)}
      ensures k in KeysOfOuts(key, all)
    {
      if k in KeysOfOuts(key, outs[..i]) {
        var j :| 0 <= j < i && k == key(outs[..i][j].state);
        assert all[j] == outs[j];
      } else {
        assert all[i] == outs[i];
      }
    }
    forall k | k in KeysOfOuts(key, all)
      ensures k in KeysOfOuts(key, outs[..i]) + {key(outs[i].state)}
    {
      var j :| 0 <= j < i + 1 && k == key(all[j].state);
      if j < i {
        assert outs[..i][j] == outs[j];
      }
    }
  }

  /** Deduplication keeps every key, each once. */
  lemma {:induction false} UniqueKeys<S>(key: S -> Key, outs: seq<Out<S>>)
    ensures DistinctKeys(key, Unique(key, outs))
    ensures KeysOfOuts(key, Unique(key, outs)) == KeysOfOuts(key, outs)
    ensures forall o | o in Unique(key, outs) :: o in outs
  {
    if outs != [] {
      var n := |outs| - 1;
      var kept := Unique(key, outs[..n]);
      UniqueKeys(key, outs[..n]);
      KeysOneMore(key, outs, n);
      assert outs[..n + 1] == outs == outs[..n] + [outs[n]];
      if key(outs[n].state) !in KeysOfOuts(key, outs[..n]) {
        AppendNew(key, kept, outs[n]);
      } else {
        assert Unique(key, outs) == kept;
      }
    }
  }

  /** `o` is the first of the list with its key. */
  ghost predicate IsFirst<S>(key: S -> Key, outs: seq<Out<S>>, o: Out<S>) {
    exists i :: 0 <= i < |outs| && outs[i] == o && forall j | 0 <= j < i :: key(outs[j].state) != key(o.state)
  }

  /** Deduplication keeps the first state of every key. */
  lemma {:induction false} UniqueKeepsFirst<S>(key: S -> Key, outs: seq<Out<S>>, o: Out<S>)
    requires o in Unique(key, outs)
    ensures IsFirst(key, outs, o)
  {
    var n := |outs| - 1;
    if o in Unique(key, outs[..n]) {
      UniqueKeepsFirst(key, outs[..n], o);
      var i :| 0 <= i < n && outs[..n][i] == o && forall j | 0 <= j < i :: key(outs[..n][j].state) != key(o.state);
      assert outs[i] == o && forall j | 0 <= j < i :: outs[j] == outs[..n][j];
    } else {
      forall j | 0 <= j < n
        ensures key(outs[j].state) in KeysOfOuts(key, outs[..n])
      {
        assert outs[..n][j] == outs[j];
      }
      assert outs[n] == o;
    }
  }

  lemma {:induction false} AppendNew<S>(key: S -> Key, kept: seq<Out<S>>, o: Out<S>)
    requires DistinctKeys(key, kept) && key(o.state) !in KeysOfOuts(key, kept)
    ensures DistinctKeys(key, kept + [o])
    ensures KeysOfOuts(key, kept + [o]) == KeysOfOuts(key, kept) + {key(o.state)}
  {
    var all := kept + [o];
    KeysOneMore(key, all, |kept|);
    assert all[..|kept| + 1] == all && all[..|kept|] == kept;
    forall i | 0 <= i < |kept|
      ensures key(kept[i].state) != key(o.state)
    {
      assert key(kept[i].state) in KeysOfOuts(key, kept);
    }
  }

  lemma {:induction false} UniqueOfDistinct<S>(key: S -> Key, outs: seq<Out<S>>)
    requires DistinctKeys(key, outs)
    ensures Unique(key, outs) == outs
  {
    if outs != [] {
      var n := |outs| - 1;
      UniqueOfDistinct(key, outs[..n]);
      assert outs == outs[..n] + [outs[n]];
      assert key(outs[n].state) !in KeysOfOuts(key, outs[..n]);
    }
  }

  /** Nothing fires in any of these states any more. */
  predicate AtRest<S>(rules: Rules<S>, outs: seq<Out<S>>) {
    forall i | 0 <= i < |outs| :: Quiescent(rules, outs[i])
  }

  lemma {:induction false} RestKeepsRound<S>(rules: Rules<S>, outs: seq<Out<S>>)
    requires AtRest(rules, outs)
    ensures FlatMap(Rounder(rules), outs) == outs
  {
    FlatMapSame(Rounder(rules), outs);
  }

  /** Every round leaves states with distinct keys. */
  lemma {:induction false} RoundsDistinct<S>(rules: Rules<S>, start: Out<S>, n: nat)
    ensures DistinctKeys(rules.key, Rounds(rules, start, n))
  {
    if n > 0 {
      UniqueKeys(rules.key, FlatMap(Rounder(rules), Rounds(rules, start, n - 1)));
    }
  }

  lemma {:induction false} RestKeepsRounds<S>(rules: Rules<S>, start: Out<S>, n: nat)
    requires AtRest(rules, Rounds(rules, start, n))
    ensures Rounds(rules, start, n + 1) == Rounds(rules, start, n)
  {
    RestKeepsRound(rules, Rounds(rules, start, n));
    RoundsDistinct(rules, start, n);
    UniqueOfDistinct(rules.key, Rounds(rules, start, n));
  }

  // ---------------------------------------------------------------------------
  // Stabilisation
  // ---------------------------------------------------------------------------

  method RunSequences<S>(rules: Rules<S>, state: S, sequences: seq<seq<nat>>) returns (next: seq<Out<S>>)
    ensures next == FlatMap(Sequencer(rules, state), sequences)
  {
    next := [];
    for j := 0 to |sequences|
      invariant next == FlatMap(Sequencer(rules, state), sequences[..j])
    {
      FlatMapSnoc(Sequencer(rules, state), sequences, j);
      var outs := ApplyInternalSequence(rules, state, sequences[j]);
      next := next + outs;
    }
    assert sequences[..|sequences|] == sequences;
  }

  method RunOne<S>(rules: Rules<S>, index: TriggerIndex, candidate: Out<S>) returns (next: seq<Out<S>>, fired: bool)
    requires Ascending(rules.internal) && IndexOf(rules, rules.internal, index)
    ensures next == RoundOf(rules, candidate) && (fired <==> !Quiescent(rules, candidate))
  {
    var firing := FiringByIndex(rules, index, candidate);
    if firing == [] {
      return [candidate], false;
    }
    var sequences := StabilizingSequences(rules.commit, firing);
    next := RunSequences(rules, candidate.state, sequences);
    fired := true;
  }

  method RunRound<S>(rules: Rules<S>, index: TriggerIndex, states: seq<Out<S>>) returns (next: seq<Out<S>>, fired: bool)
    requires Ascending(rules.internal) && IndexOf(rules, rules.internal, index)
    ensures next == FlatMap(Rounder(rules), states)
    ensures fired <==> !AtRest(rules, states)
  {
    next, fired := [], false;
    for i := 0 to |states|
      invariant RoundSoFar(rules, states, i, next, fired)
    {
      var outs, busy := RunOne(rules, index, states[i]);
      RoundOneMore(rules, states, i, next, fired, outs, busy);
      next, fired := next + outs, fired || busy;
    }
    assert states[..|states|] == states;
  }

  /** What the round over the first `i` states has produced, and whether anything fired. */
  ghost predicate RoundSoFar<S>(rules: Rules<S>, states: seq<Out<S>>, i: nat, next: seq<Out<S>>, fired: bool)
    requires i <= |states|
  {
    next == FlatMap(Rounder(rules), states[..i]) && (fired <==> !AtRest(rules, states[..i]))
  }

  lemma {:induction false} RoundOneMore<S>(rules: Rules<S>, states: seq<Out<S>>, i: nat, next: seq<Out<S>>, fired: bool,
                                           outs: seq<Out<S>>, busy: bool)
    requires i < |states| && RoundSoFar(rules, states, i, next, fired)
    requires outs == RoundOf(rules, states[i]) && (busy <==> !Quiescent(rules, states[i]))
    ensures RoundSoFar(rules, states, i + 1, next + outs, fired || busy)
  {
    FlatMapSnoc(Rounder(rules), states, i);
    RestOneMore(rules, states, i);
  }

  lemma {:induction false} RestOneMore<S>(rules: Rules<S>, states: seq<Out<S>>, i: nat)
    requires i < |states|
    ensures AtRest(rules, states[..i + 1]) <==> AtRest(rules, states[..i]) && Quiescent(rules, states[i])
  {
    if AtRest(rules, states[..i + 1]) {
      assert forall k | 0 <= k < i :: states[..i][k] == states[..i + 1][k];
      assert states[..i + 1][i] == states[i];
    }
    if AtRest(rules, states[..i]) && Quiescent(rules, states[i]) {
      assert forall k | 0 <= k < i :: states[..i + 1][k] == states[..i][k];
    }
  }

  function StatesOf<S>(outs: seq<Out<S>>): (r: seq<S>)
    ensures |r| == |outs| && forall i | 0 <= i < |outs| :: r[i] == outs[i].state
  {
    seq(|outs|, i requires 0 <= i < |outs| => outs[i].state)
  }

  ghost predicate RestsIn<S>(rules: Rules<S>, start: Out<S>, n: nat) {
    AtRest(rules, Rounds(rules, start, n))
  }

  ghost predicate BusyBefore<S>(rules: Rules<S>, start: Out<S>, n: nat) {
    forall m: nat {:trigger RestsIn(rules, start, m)} | m < n :: !RestsIn(rules, start, m)
  }

  /** Round `n` is the first at rest, and these are its states. */
  ghost predicate RestsAt<S>(rules: Rules<S>, start: Out<S>, n: nat, states: seq<S>) {
    RestsIn(rules, start, n) && BusyBefore(rules, start, n) && states == StatesOf(Rounds(rules, start, n))
  }

  ghost predicate StabilizesTo<S>(rules: Rules<S>, start: Out<S>, maxSteps: nat, r: Result<seq<S>>) {
    match r
    case Ok(states) => exists n: nat :: n < maxSteps && RestsAt(rules, start, n, states)
    case Err(_) => BusyBefore(rules, start, maxSteps)
  }

  method Stabilize<S>(rules: Rules<S>, index: TriggerIndex, state: S, changed: set<nat>, maxSteps: nat)
    returns (r: Result<seq<S>>)
    requires Ascending(rules.internal) && IndexOf(rules, rules.internal, index)
    ensures StabilizesTo(rules, Out(state, changed), maxSteps, r)
  {
    var states := [Out(state, changed)];
    ghost var start := Out(state, changed);
    for step := 0 to maxSteps
      invariant states == Rounds(rules, start, step) && BusyBefore(rules, start, step)
    {
      var next, fired := RunRound(rules, index, states);
      states := UniqueStates(rules.key, next);
      if !fired {
        RestKeepsRounds(rules, start, step);
        assert RestsAt(rules, start, step, StatesOf(states));
        return Ok(StatesOf(states));
      }
    }
    r := Err(NOT_STABLE);
  }

  /** The outcome of stabilising, as a function of where it starts. */
  function Stabilized<S>(rules: Rules<S>, start: Out<S>, maxSteps: nat): Result<seq<S>> {
    StabilizedFrom(rules, start, 0, maxSteps)
  }

  function StabilizedFrom<S>(rules: Rules<S>, start: Out<S>, n: nat, maxSteps: nat): Result<seq<S>>
    decreases maxSteps - n
  {
    if n >= maxSteps then Err(NOT_STABLE)
    else if AtRest(rules, Rounds(rules, start, n)) then Ok(StatesOf(Rounds(rules, start, n)))
    else StabilizedFrom(rules, start, n + 1, maxSteps)
  }

  const NOT_STABLE: string := "Internal transitions did not stabilize"

  lemma {:induction false} RestIsOutcome<S>(rules: Rules<S>, start: Out<S>, n: nat, maxSteps: nat)
    requires n < maxSteps && BusyBefore(rules, start, n) && RestsIn(rules, start, n)
    ensures StabilizesTo(rules, start, maxSteps, Ok(StatesOf(Rounds(rules, start, n))))
  {
    assert RestsAt(rules, start, n, StatesOf(Rounds(rules, start, n)));
  }

  lemma {:induction false} BusyOneMore<S>(rules: Rules<S>, start: Out<S>, n: nat)
    requires BusyBefore(rules, start, n) && !RestsIn(rules, start, n)
    ensures BusyBefore(rules, start, n + 1)
  {
  }

  lemma {:induction false} StabilizedFromHolds<S>(rules: Rules<S>, start: Out<S>, n: nat, maxSteps: nat)
    requires n <= maxSteps && BusyBefore(rules, start, n)
    ensures StabilizesTo(rules, start, maxSteps, StabilizedFrom(rules, start, n, maxSteps))
    decreases maxSteps - n
  {
    if n < maxSteps {
      if RestsIn(rules, start, n) {
        RestIsOutcome(rules, start, n, maxSteps);
      } else {
        BusyOneMore(rules, start, n);
        StabilizedFromHolds(rules, start, n + 1, maxSteps);
      }
    }
  }

  /** Stabilising has exactly one outcome. */
  lemma {:induction false} StabilizedIsTheOutcome<S>(rules: Rules<S>, start: Out<S>, maxSteps: nat, r: Result<seq<S>>)
    requires StabilizesTo(rules, start, maxSteps, r)
    ensures match r case Ok(states) => Stabilized(rules, start, maxSteps) == r
                    case Err(_) => Stabilized(rules, start, maxSteps).Err?
  {
    StabilizedFromHolds(rules, start, 0, maxSteps);
    var found := Stabilized(rules, start, maxSteps);
    if r.Ok? {
      var n: nat :| n < maxSteps && RestsAt(rules, start, n, r.value);
      RestMeansSuccess(rules, start, n, maxSteps, r.value, found);
    }
  }

  lemma {:induction false} RestMeansSuccess<S>(rules: Rules<S>, start: Out<S>, n: nat, maxSteps: nat, states: seq<S>, r: Result<seq<S>>)
    requires n < maxSteps && RestsAt(rules, start, n, states) && StabilizesTo(rules, start, maxSteps, r)
    ensures r == Ok(states)
  {
    if r.Ok? {
      var m: nat :| m < maxSteps && RestsAt(rules, start, m, r.value);
      FirstRest(rules, start, n, m);
    } else {
      NotBusy(rules, start, n, maxSteps);
    }
  }

  lemma {:induction false} FirstRest<S>(rules: Rules<S>, start: Out<S>, n: nat, m: nat)
    requires RestsIn(rules, start, n) && BusyBefore(rules, start, n)
    requires RestsIn(rules, start, m) && BusyBefore(rules, start, m)
    ensures n == m
  {
  }

  lemma {:induction false} NotBusy<S>(rules: Rules<S>, start: Out<S>, n: nat, maxSteps: nat)
    requires RestsIn(rules, start, n) && n < maxSteps
    ensures !BusyBefore(rules, start, maxSteps)
  {
  }

  /** A larger bound changes nothing about a success. */
  lemma {:induction false} BoundIsMonotone<S>(rules: Rules<S>, start: Out<S>, maxSteps: nat, larger: nat, r: Result<seq<S>>, r': Result<seq<S>>)
    requires maxSteps <= larger && r.Ok?
    requires StabilizesTo(rules, start, maxSteps, r) && StabilizesTo(rules, start, larger, r')
    ensures r == r'
  {
    var n: nat :| n < maxSteps && RestsAt(rules, start, n, r.value);
    RestMeansSuccess(rules, start, n, larger, r.value, r');
  }

  /** One round on one state: at rest it stays, otherwise a whole commit order of what fires is run. */
  ghost predicate RoundStep<S(!new)>(rules: Rules<S>, before: Out<S>, after: Out<S>) {
    var firing := Firing(rules, rules.internal, before);
    if firing == [] then after == before else
    exists order :: CommitRun(rules, firing, before.state, order, after)
  }

  ghost predicate CommitRun<S(!new)>(rules: Rules<S>, firing: seq<nat>, start: S, order: seq<nat>, after: Out<S>) {
    order in CommitOrders(rules.commit, firing) && Applied(rules, start, order, after)
  }

  ghost predicate Settles<S(!new)>(rules: Rules<S>, start: Out<S>, n: nat, o: Out<S>) {
    if n == 0 then o == start else
    exists mid :: Settles(rules, start, n - 1, mid) && RoundStep(rules, mid, o)
  }

  lemma {:induction false} RoundOfHas<S(!new)>(rules: Rules<S>, o: Out<S>, after: Out<S>)
    ensures after in RoundOf(rules, o) <==> RoundStep(rules, o, after)
  {
    var firing := Firing(rules, rules.internal, o);
    var orders, f := CommitOrders(rules.commit, firing), Sequencer(rules, o.state);
    FlatMapHas(f, orders, after);
    forall order
      ensures after in f(order) <==> Applied(rules, o.state, order, after)
    {
      ApplySequenceExact(rules, o.state, order);
    }
    if firing != [] {
      if order :| order in orders && after in f(order) {
        assert CommitRun(rules, firing, o.state, order, after);
      }
      if order :| CommitRun(rules, firing, o.state, order, after) {
        assert order in orders && after in f(order);
      }
    }
  }

  lemma {:induction false} RoundSource<S(!new)>(rules: Rules<S>, before: seq<Out<S>>, outs: seq<Out<S>>, o: Out<S>) returns (mid: Out<S>)
    requires outs == Unique(rules.key, FlatMap(Rounder(rules), before)) && o in outs
    ensures mid in before && RoundStep(rules, mid, o)
  {
    UniqueKeys(rules.key, FlatMap(Rounder(rules), before));
    FlatMapHas(Rounder(rules), before, o);
    mid :| mid in before && o in Rounder(rules)(mid);
    RoundOfHas(rules, mid, o);
  }

  /** Every state of a round is reached by that many rounds of whole commit orders. */
  lemma {:induction false} RoundsAreReached<S(!new)>(rules: Rules<S>, start: Out<S>, n: nat)
    ensures AllSettle(rules, start, n, Rounds(rules, start, n))
    decreases n
  {
    if n > 0 {
      RoundsAreReached(rules, start, n - 1);
      AllSettleNext(rules, start, n);
    }
  }

  ghost predicate AllSettle<S(!new)>(rules: Rules<S>, start: Out<S>, n: nat, outs: seq<Out<S>>) {
    forall o {:trigger Settles(rules, start, n, o)} | o in outs :: Settles(rules, start, n, o)
  }

  lemma {:induction false} AllSettleNext<S(!new)>(rules: Rules<S>, start: Out<S>, n: nat)
    requires n > 0 && AllSettle(rules, start, n - 1, Rounds(rules, start, n - 1))
    ensures AllSettle(rules, start, n, Rounds(rules, start, n))
  {
    var before, outs := Rounds(rules, start, n - 1), Rounds(rules, start, n);
    forall o | o in outs
      ensures Settles(rules, start, n, o)
    {
      NextSettles(rules, start, n, before, outs, o);
    }
  }

  lemma {:induction false} NextSettles<S(!new)>(rules: Rules<S>, start: Out<S>, n: nat, before: seq<Out<S>>, outs: seq<Out<S>>, o: Out<S>)
    requires n > 0 && AllSettle(rules, start, n - 1, before)
    requires outs == Unique(rules.key, FlatMap(Rounder(rules), before)) && o in outs
    ensures Settles(rules, start, n, o)
  {
    var mid := RoundSource(rules, before, outs, o);
    assert Settles(rules, start, n - 1, mid);
  }

  /** On success the states come from some number of rounds below the bound: every one at rest,
      reached by whole commit orders, and no key twice. */
  lemma {:induction false} StabilizedStates<S(!new)>(rules: Rules<S>, start: Out<S>, maxSteps: nat, states: seq<S>)
    returns (n: nat, outs: seq<Out<S>>)
    requires StabilizesTo(rules, start, maxSteps, Ok(states))
    ensures n < maxSteps && states == StatesOf(outs) && DistinctKeys(rules.key, outs)
    ensures forall i | 0 <= i < |outs| :: Quiescent(rules, outs[i]) && Settles(rules, start, n, outs[i])
  {
    n :| n < maxSteps && RestsAt(rules, start, n, states);
    outs := Rounds(rules, start, n);
    RoundsDistinct(rules, start, n);
    RoundsAreReached(rules, start, n);
    forall i | 0 <= i < |outs|
      ensures Settles(rules, start, n, outs[i])
    {
      assert outs[i] in outs;
    }
  }

  /** A quiescent start is returned alone, whatever the (positive) bound. */
  lemma {:induction false} RestIsReturned<S>(rules: Rules<S>, start: Out<S>, maxSteps: nat, r: Result<seq<S>>)
    requires Quiescent(rules, start) && maxSteps > 0 && StabilizesTo(rules, start, maxSteps, r)
    ensures r == Ok([start.state])
  {
    assert StatesOf(Rounds(rules, start, 0)) == [start.state];
    RestMeansSuccess(rules, start, 0, maxSteps, [start.state], r);
  }

  /** What a round produces from a kept state is represented by its key in the next round. */
  lemma {:induction false} RoundsKeepKeys<S(!new)>(rules: Rules<S>, start: Out<S>, n: nat, before: Out<S>, after: Out<S>)
    requires before in Rounds(rules, start, n) && RoundStep(rules, before, after)
    ensures exists o :: o in Rounds(rules, start, n + 1) && rules.key(o.state) == rules.key(after.state)
  {
    var all := FlatMap(Rounder(rules), Rounds(rules, start, n));
    RoundOfHas(rules, before, after);
    FlatMapHas(Rounder(rules), Rounds(rules, start, n), after);
    assert after in Rounder(rules)(before);
    UniqueKeys(rules.key, all);
    var i :| 0 <= i < |all| && all[i] == after;
    assert rules.key(after.state) in KeysOfOuts(rules.key, all);
    var kept := Unique(rules.key, all);
    var j :| 0 <= j < |kept| && rules.key(kept[j].state) == rules.key(after.state);
    assert kept[j] in kept;
  }

  // ---------------------------------------------------------------------------
  // What every internal transition keeps
  // ---------------------------------------------------------------------------

  /** Applying a transition to a state of `inv`, from a state of `inv`, gives states of `inv`. */
  ghost predicate Keeps<S(!new)>(rules: Rules<S>, inv: S -> bool) {
    forall t, start, s, u | inv(start) && inv(s) && u in rules.apply(t, start, s) :: inv(u)
  }

  ghost predicate AllIn<S>(inv: S -> bool, outs: seq<Out<S>>) {
    forall o {:trigger o in outs} | o in outs :: inv(o.state)
  }

  lemma {:induction false} SequenceKeeps<S(!new)>(rules: Rules<S>, inv: S -> bool, start: S, sequence: seq<nat>)
    requires Keeps(rules, inv) && inv(start)
    ensures AllIn(inv, ApplySequence(rules, start, sequence))
  {
    if sequence != [] {
      var n := |sequence| - 1;
      var before := ApplySequence(rules, start, sequence[..n]);
      SequenceKeeps(rules, inv, start, sequence[..n]);
      forall o | o in ApplySequence(rules, start, sequence)
        ensures inv(o.state)
      {
        FlatMapHas(Turns(rules, start, sequence[n]), before, o);
        var x :| x in before && o in Turns(rules, start, sequence[n])(x);
        if rules.enabled(sequence[n], x.state) {
          var i :| 0 <= i < |Posts(rules, start, rules.apply(sequence[n], start, x.state))| &&
                   Posts(rules, start, rules.apply(sequence[n], start, x.state))[i] == o;
          assert o.state in rules.apply(sequence[n], start, x.state);
        }
      }
    }
  }

  lemma {:induction false} RoundKeeps<S(!new)>(rules: Rules<S>, inv: S -> bool, o: Out<S>)
    requires Keeps(rules, inv) && inv(o.state)
    ensures AllIn(inv, RoundOf(rules, o))
  {
    if !Quiescent(rules, o) {
      var orders := CommitOrders(rules.commit, Firing(rules, rules.internal, o));
      forall x | x in RoundOf(rules, o)
        ensures inv(x.state)
      {
        FlatMapHas(Sequencer(rules, o.state), orders, x);
        var order :| order in orders && x in Sequencer(rules, o.state)(order);
        SequenceKeeps(rules, inv, o.state, order);
      }
    }
  }

  lemma {:induction false} UniqueIn<S>(key: S -> Key, inv: S -> bool, outs: seq<Out<S>>)
    requires AllIn(inv, outs)
    ensures AllIn(inv, Unique(key, outs))
  {
    UniqueKeys(key, outs);
  }

  lemma {:induction false} NextRoundKeeps<S(!new)>(rules: Rules<S>, inv: S -> bool, before: seq<Out<S>>)
    requires Keeps(rules, inv) && AllIn(inv, before)
    ensures AllIn(inv, Unique(rules.key, FlatMap(Rounder(rules), before)))
  {
    var outs := FlatMap(Rounder(rules), before);
    forall x | x in outs
      ensures inv(x.state)
    {
      FlatMapHas(Rounder(rules), before, x);
      var o :| o in before && x in Rounder(rules)(o);
      RoundKeeps(rules, inv, o);
    }
    UniqueIn(rules.key, inv, outs);
  }

  /** Whatever every internal transition keeps holds in every state on the way to rest. */
  lemma {:induction false} RoundsKeep<S(!new)>(rules: Rules<S>, inv: S -> bool, start: Out<S>, n: nat)
    requires Keeps(rules, inv) && inv(start.state)
    ensures AllIn(inv, Rounds(rules, start, n))
  {
    if n > 0 {
      var before := Rounds(rules, start, n - 1);
      RoundsKeep(rules, inv, start, n - 1);
      NextRoundKeeps(rules, inv, before);
      assert Rounds(rules, start, n) == Unique(rules.key, FlatMap(Rounder(rules), before));
    }
  }

  lemma {:induction false} StabilizedKeeps<S(!new)>(rules: Rules<S>, inv: S -> bool, start: Out<S>, n: nat, maxSteps: nat)
    requires Keeps(rules, inv) && inv(start.state)
    ensures StabilizedFrom(rules, start, n, maxSteps).Ok? ==>
              forall s | s in StabilizedFrom(rules, start, n, maxSteps).value :: inv(s)
    decreases maxSteps - n
  {
    if n < maxSteps {
      RoundsKeep(rules, inv, start, n);
      StabilizedKeeps(rules, inv, start, n + 1, maxSteps);
      var outs := Rounds(rules, start, n);
      forall i | 0 <= i < |outs|
        ensures inv(StatesOf(outs)[i])
      {
        assert outs[i] in outs;
      }
    }
  }
}
