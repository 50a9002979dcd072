/** The search loop: seeding, one round, and the run to a verdict
    (crates/checker/src/search.rs). */
module Explore {
  import opened Bytes
  import opened Sorting
  import opened Visited
  import opened Properties
  import opened Search
  import opened Levels
  import Ctl
  import opened Wrappers

  // ---------------------------------------------------------------------------
  // Seeding
  // ---------------------------------------------------------------------------

  function ByKey<S>(key: S -> Key): (S, S) -> bool {
    (a: S, b: S) => Leq(key(a), key(b))
  }

  function CanonAt(canons: seq<Key>, id: nat): Key {
    if id < |canons| then canons[id] else []
  }

  function ByCanon(canons: seq<Key>): (nat, nat) -> bool {
    (a: nat, b: nat) => Leq(CanonAt(canons, a), CanonAt(canons, b))
  }

  /** The frontier lists stored states by ascending key. */
  ghost predicate InKeyOrder(canons: seq<Key>, frontier: seq<nat>) {
    forall i, j | 0 <= i < j < |frontier| :: Precedes(CanonAt(canons, frontier[i]), CanonAt(canons, frontier[j]))
  }

  lemma {:induction false} SortedByCanon(canons: seq<Key>, ids: seq<nat>)
    ensures InKeyOrder(canons, Sort(ByCanon(canons), ids))
  {
    forall a, b
      ensures ByCanon(canons)(a, b) || ByCanon(canons)(b, a)
    {
      LeqTotal(CanonAt(canons, a), CanonAt(canons, b));
    }
    forall a, b, c | ByCanon(canons)(a, b) && ByCanon(canons)(b, c)
      ensures ByCanon(canons)(a, c)
    {
      LeqTrans(CanonAt(canons, a), CanonAt(canons, b), CanonAt(canons, c));
    }
    SortSorts(ByCanon(canons), ids);
    var sorted := Sort(ByCanon(canons), ids);
    forall i, j | 0 <= i < j < |sorted|
      ensures Precedes(CanonAt(canons, sorted[i]), CanonAt(canons, sorted[j]))
    {
      assert ByCanon(canons)(sorted[i], sorted[j]);
      LeqIsLexicographic(CanonAt(canons, sorted[i]), CanonAt(canons, sorted[j]));
    }
  }

  ghost predicate SeedKey<S>(sys: System<S>, seeds: seq<S>, i: nat, k: Key)
    requires i <= |seeds|
  {
    exists j :: 0 <= j < i && sys.key(seeds[j]) == k
  }

  /** The store holds the keys of the first `i` seeds, as roots. */
  ghost predicate Seeded<S(!new)>(sys: System<S>, st: Store<S>, seeds: seq<S>, i: nat)
    requires i <= |seeds|
  {
    && st.ids.Keys == st.parents.Keys == st.byCanon.Keys
    && (forall k {:trigger SeedKey(sys, seeds, i, k)} :: k in st.ids <==> SeedKey(sys, seeds, i, k))
    && (forall k | k in st.ids :: st.parents[k] == Parent(None, None) && st.byCanon[k] in seeds)
  }

  lemma {:induction false} SeedOneMore<S(!new)>(sys: System<S>, st: Store<S>, seeds: seq<S>, i: nat)
    requires i < |seeds| && Seeded(sys, st, seeds, i)
    ensures Seeded(sys, st.AddSeed(seeds[i], sys.key(seeds[i])), seeds, i + 1)
  {
    var r := st.AddSeed(seeds[i], sys.key(seeds[i]));
    forall k
      ensures k in r.ids <==> SeedKey(sys, seeds, i + 1, k)
    {
      assert SeedKey(sys, seeds, i, k) <==> k in st.ids;
      SeedKeyNext(sys, seeds, i, k);
    }
  }

  lemma {:induction false} SeedKeyNext<S>(sys: System<S>, seeds: seq<S>, i: nat, k: Key)
    requires i < |seeds|
    ensures SeedKey(sys, seeds, i + 1, k) <==> SeedKey(sys, seeds, i, k) || k == sys.key(seeds[i])
  {
    if SeedKey(sys, seeds, i + 1, k) {
      var j :| 0 <= j < i + 1 && sys.key(seeds[j]) == k;
    }
    if SeedKey(sys, seeds, i, k) {
      var j :| 0 <= j < i && sys.key(seeds[j]) == k;
      assert 0 <= j < i + 1;
    }
    if k == sys.key(seeds[i]) {
      assert 0 <= i < i + 1;
    }
  }

  /** `frontier` lists the ids of the first seeds. */
  ghost predicate SeedIds<S>(sys: System<S>, st: Store<S>, seeds: seq<S>, frontier: seq<nat>) {
    && |frontier| <= |seeds|
    && forall j | 0 <= j < |frontier| :: sys.key(seeds[j]) in st.ids && frontier[j] == st.ids[sys.key(seeds[j])]
  }

  lemma {:induction false} SeedIdsOneMore<S>(sys: System<S>, st: Store<S>, seeds: seq<S>, frontier: seq<nat>)
    requires |frontier| < |seeds| && SeedIds(sys, st, seeds, frontier)
    ensures var k := sys.key(seeds[|frontier|]);
            var r := st.AddSeed(seeds[|frontier|], k);
            k in r.ids && SeedIds(sys, r, seeds, frontier + [r.ids[k]])
  {
  }

  method InsertOneSeed<S(!new)>(sys: System<S>, seeds: seq<S>, visited: VisitedSet<S>, frontier0: seq<nat>)
    returns (frontier: seq<nat>)
    requires |frontier0| < |seeds| && visited.View().Valid(sys.key)
    requires Seeded(sys, visited.View(), seeds, |frontier0|) && SeedIds(sys, visited.View(), seeds, frontier0)
    modifies visited
    ensures |frontier| == |frontier0| + 1 && visited.View().Valid(sys.key)
    ensures Seeded(sys, visited.View(), seeds, |frontier|) && SeedIds(sys, visited.View(), seeds, frontier)
    ensures visited.Len() <= old(visited.Len()) + 1
  {
    var seed := seeds[|frontier0|];
    SeedOneMore(sys, visited.View(), seeds, |frontier0|);
    AddSeedValid(visited.View(), sys.key, seed);
    SeedIdsOneMore(sys, visited.View(), seeds, frontier0);
    var id := visited.InsertSeed(seed, sys.key(seed));
    frontier := frontier0 + [id];
  }

  method InsertSeeds<S(!new)>(sys: System<S>, seeds: seq<S>, visited: VisitedSet<S>) returns (frontier: seq<nat>)
    requires visited.View() == EmptyStore()
    modifies visited
    ensures visited.View().Valid(sys.key) && Seeded(sys, visited.View(), seeds, |seeds|)
    ensures |frontier| == |seeds| && SeedIds(sys, visited.View(), seeds, frontier)
    ensures visited.Len() <= |seeds|
  {
    frontier := [];
    while |frontier| < |seeds|
      invariant |frontier| <= |seeds| && visited.View().Valid(sys.key)
      invariant Seeded(sys, visited.View(), seeds, |frontier|) && SeedIds(sys, visited.View(), seeds, frontier)
      invariant visited.Len() <= |frontier|
    {
      frontier := InsertOneSeed(sys, seeds, visited, frontier);
    }
  }

  method SeedFrontier<S(!new)>(sys: System<S>, visited: VisitedSet<S>) returns (frontier: seq<nat>)
    requires visited.View() == EmptyStore()
    modifies visited
    ensures AtLevel(sys, visited.View(), frontier, 0) && GenuineForest(sys, visited.View())
    ensures forall id | 0 <= id < |visited.states| :: id in frontier
    ensures visited.Len() <= |sys.initial| && InKeyOrder(visited.canonBytes, frontier)
  {
    var seeds := Sort(ByKey(sys.key), sys.initial);
    var ids := InsertSeeds(sys, seeds, visited);
    frontier := Sort(ByCanon(visited.canonBytes), ids);
    SortedByCanon(visited.canonBytes, ids);
    SortPermutes(ByKey(sys.key), sys.initial);
    SortPermutes(ByCanon(visited.canonBytes), ids);
    SeedsAreLevelZero(sys, visited.View(), seeds, ids, frontier);
    assert |multiset(seeds)| == |multiset(sys.initial)|;
  }

  lemma {:induction false} SeedIdsCover<S(!new)>(sys: System<S>, st: Store<S>, seeds: seq<S>, ids: seq<nat>, frontier: seq<nat>)
    requires multiset(frontier) == multiset(ids)
    requires st.Valid(sys.key) && |ids| == |seeds| && Seeded(sys, st, seeds, |seeds|) && SeedIds(sys, st, seeds, ids)
    ensures forall id :: id in frontier <==> 0 <= id < |st.states|
  {
    forall id
      ensures id in frontier <==> 0 <= id < |st.states|
    {
      if id in frontier {
        SameMembers(frontier, ids, id);
        var j :| 0 <= j < |ids| && ids[j] == id;
      }
      if 0 <= id < |st.states| {
        assert st.canons[id] in st.ids;
        assert SeedKey(sys, seeds, |seeds|, st.canons[id]);
        var j :| 0 <= j < |seeds| && sys.key(seeds[j]) == st.canons[id];
        assert ids[j] == id;
        SameMembers(frontier, ids, id);
      }
    }
  }

  lemma {:induction false} SeedsAreLevelZero<S(!new)>(sys: System<S>, st: Store<S>, seeds: seq<S>, ids: seq<nat>, frontier: seq<nat>)
    requires multiset(seeds) == multiset(sys.initial) && multiset(frontier) == multiset(ids)
    requires st.Valid(sys.key) && |ids| == |seeds| && Seeded(sys, st, seeds, |seeds|) && SeedIds(sys, st, seeds, ids)
    ensures AtLevel(sys, st, frontier, 0) && GenuineForest(sys, st)
    ensures forall id | 0 <= id < |st.states| :: id in frontier
  {
    SeedIdsCover(sys, st, seeds, ids, frontier);
    forall i | 0 <= i < |frontier|
      ensures frontier[i] < |st.states|
    {
      assert frontier[i] in frontier;
    }
    forall k
      ensures k in st.ids <==> ReachWithin(sys, 0, k)
      ensures InFrontier(st, frontier, k) <==> IsDistance(sys, 0, k)
    {
      SeedKeys(sys, st, seeds, k);
      assert ReachWithin(sys, 0, k) <==> ReachIn(sys, 0, k);
      AllInFrontier(st, sys.key, frontier, k);
    }
    forall k | k in st.ids
      ensures GenuineParent(sys, st, k)
    {
      SeedKeys(sys, st, seeds, k);
      SameMembers(seeds, sys.initial, st.byCanon[k]);
    }
  }

  lemma {:induction false} AllInFrontier<S>(st: Store<S>, key: S -> Key, frontier: seq<nat>, k: Key)
    requires st.Valid(key) && InStore(st, frontier) && forall id :: id in frontier <==> 0 <= id < |st.states|
    ensures InFrontier(st, frontier, k) <==> k in st.ids
  {
    if k in st.ids {
      assert st.ids[k] in frontier;
      var i :| 0 <= i < |frontier| && frontier[i] == st.ids[k];
      assert st.canons[frontier[i]] == k;
    }
  }

  lemma {:induction false} SeedKeys<S(!new)>(sys: System<S>, st: Store<S>, seeds: seq<S>, k: Key)
    requires multiset(seeds) == multiset(sys.initial) && Seeded(sys, st, seeds, |seeds|)
    ensures ReachIn(sys, 0, k) <==> k in st.ids
  {
    if ReachIn(sys, 0, k) {
      var s :| s in sys.initial && sys.key(s) == k;
      SameMembers(seeds, sys.initial, s);
      var j :| 0 <= j < |seeds| && seeds[j] == s;
      assert SeedKey(sys, seeds, |seeds|, k);
    }
    if k in st.ids {
      assert SeedKey(sys, seeds, |seeds|, k);
      var j :| 0 <= j < |seeds| && sys.key(seeds[j]) == k;
      SameMembers(seeds, sys.initial, seeds[j]);
    }
  }

  // ---------------------------------------------------------------------------
  // One round
  // ---------------------------------------------------------------------------

  /** What a search has found so far. */
  datatype Progress<S> = Progress(rec: Recording, verdicts: Verdicts<S>, edgeCount: nat,
                                  limit: Option<Limit>, terminal: bool)

  /** The findings account for exactly the edges observed so far. */
  ghost predicate Consistent<S(!new), P>(sys: System<S>, properties: seq<Property<S, P>>, options: Options,
                                         st: Store<S>, observed: seq<Edge<S>>, now: Progress<S>)
  {
    && ObservedStored(sys, st, observed)
    && Explains(properties, observed, now.verdicts)
    && now.rec == RecordAll(properties, NOTHING_RECORDED, observed)
    && now.edgeCount == |observed|
    && (options.maxEdges.Some? ==> now.edgeCount <= options.maxEdges.value)
    && (now.terminal ==> AllTerminal(properties, now.verdicts))
  }

  lemma {:induction false} RecordConcat<S, P>(properties: seq<Property<S, P>>, a: seq<Edge<S>>, b: seq<Edge<S>>)
    ensures RecordAll(properties, RecordAll(properties, NOTHING_RECORDED, a), b) == RecordAll(properties, NOTHING_RECORDED, a + b)
    decreases |b|
  {
    if b == [] {
      assert a + b == a;
    } else {
      var n := |b| - 1;
      assert (a + b)[..|a| + n] == a + b[..n];
      RecordConcat(properties, a, b[..n]);
    }
  }

  lemma {:induction false} SortedEdges<S(!new)>(sys: System<S>, st: Store<S>, frontier: seq<nat>)
    requires InStore(st, frontier)
    ensures multiset(Sort(ByEdge(), EdgesOfAll(sys, st, frontier))) == multiset(EdgesOfAll(sys, st, frontier))
    ensures ObservedStored(sys, st, Sort(ByEdge(), EdgesOfAll(sys, st, frontier)))
  {
    var edges := EdgesOfAll(sys, st, frontier);
    SortPermutes(ByEdge(), edges);
    EdgesAreStored(sys, st, frontier);
    forall e | e in Sort(ByEdge(), edges)
      ensures StoredEdge(sys, st, e)
    {
      SameMembers(Sort(ByEdge(), edges), edges, e);
    }
  }

  lemma {:induction false} SameLength<S(!new)>(shardOf: Key -> nat, shards: nat, candidates: seq<Candidate<S>>)
    requires forall k :: shardOf(k) < shards
    ensures |SortedShards(shardOf, shards, candidates)| == |candidates|
  {
    SortedShardsIsSort(shardOf, shards, candidates);
    assert |multiset(SortedShards(shardOf, shards, candidates))| == |multiset(candidates)|;
  }

  /** Merging adds at most as many states as there are candidates. */
  lemma {:induction false} MergeCounts<S(!new)>(sys: System<S>, st: Store<S>, frontier: seq<nat>, shardOf: Key -> nat, shards: nat,
                                                candidates: seq<Candidate<S>>, taken: nat)
    requires InStore(st, frontier) && Positioned(PositionsOf(frontier), frontier) && forall k :: shardOf(k) < shards
    requires candidates == CandidatesOfAll(sys, st, PositionsOf(frontier), frontier)
    requires ParentsIn(st, Survivors(sys, st, frontier, shardOf, shards)) && taken <= |Survivors(sys, st, frontier, shardOf, shards)|
    ensures taken <= |candidates|
    ensures |AddAll(st, Survivors(sys, st, frontier, shardOf, shards)[..taken]).ids| <= |st.ids| + |candidates|
  {
    var kept := Survivors(sys, st, frontier, shardOf, shards);
    SameLength(shardOf, shards, candidates);
    KeptIsFewer(st.ids.Keys, SortedShards(shardOf, shards, candidates));
    AddAllCount(st, kept[..taken]);
  }

  lemma {:induction false} SortKeepsLength(leq: (nat, nat) -> bool, s: seq<nat>)
    ensures |Sort(leq, s)| == |s|
  {
    SortPermutes(leq, s);
    assert |multiset(Sort(leq, s))| == |multiset(s)|;
  }

  lemma {:induction false} SortedLength<S(!new)>(sys: System<S>, st: Store<S>, frontier: seq<nat>)
    requires InStore(st, frontier)
    ensures |Sort(ByEdge(), EdgesOfAll(sys, st, frontier))| == |EdgesOfAll(sys, st, frontier)|
  {
    var edges := EdgesOfAll(sys, st, frontier);
    SortPermutes(ByEdge(), edges);
    assert |multiset(Sort(ByEdge(), edges))| == |multiset(edges)|;
  }

  /** Merge what the frontier discovered. */
  method MergeRound<S(!new)>(sys: System<S>, options: Options, edgeCount: nat, shardOf: Key -> nat, shards: nat,
                             ghost frontier: seq<nat>, candidates: seq<Candidate<S>>, visited: VisitedSet<S>,
                             ghost observed: seq<Edge<S>>, ghost edges: seq<Edge<S>>, ghost d: nat)
    returns (next: seq<nat>, limit: Option<Limit>)
    requires Congruent(sys) && forall k :: shardOf(k) < shards
    requires AtLevel(sys, visited.View(), frontier, d) && GenuineForest(sys, visited.View())
    requires Positioned(PositionsOf(frontier), frontier)
    requires candidates == CandidatesOfAll(sys, visited.View(), PositionsOf(frontier), frontier)
    requires Expanded(sys, visited.View(), frontier, observed)
    requires multiset(edges) == multiset(EdgesOfAll(sys, visited.View(), frontier))
    requires ObservedStored(sys, visited.View(), observed + edges)
    modifies visited
    ensures visited.View().Valid(sys.key) && GenuineForest(sys, visited.View())
    ensures ObservedStored(sys, visited.View(), observed + edges)
    ensures limit.None? ==>
              AtLevel(sys, visited.View(), next, d + 1) && Expanded(sys, visited.View(), next, observed + edges)
    ensures options.maxStates.Some? ==> visited.Len() <= options.maxStates.value || visited.Len() == old(visited.Len())
    ensures InKeyOrder(visited.canonBytes, next)
    ensures |next| <= |candidates| && visited.Len() <= old(visited.Len()) + |candidates|
    ensures limit.Some? ==> Reached(options, limit.value, old(visited.Len()) + |candidates|, edgeCount, |candidates|)
  {
    ghost var st := visited.View();
    ghost var kept := Survivors(sys, st, frontier, shardOf, shards);
    SurvivorsInsertable(sys, st, frontier, shardOf, shards);
    var sorted := SortMergeCandidates(shardOf, shards, candidates);
    var ids;
    ids, limit := MergeSorted(sorted, visited, options, edgeCount);
    MergeCounts(sys, st, frontier, shardOf, shards, candidates, |ids|);
    next := Sort(ByCanon(visited.canonBytes), ids);
    SortKeepsLength(ByCanon(visited.canonBytes), ids);
    SortedByCanon(visited.canonBytes, ids);
    RoundKeepsForest(sys, st, frontier, d, shardOf, shards, |ids|);
    ObservedStaysStored(sys, st, kept[..|ids|], observed + edges);
    if limit.None? {
      assert kept[..|ids|] == kept;
      SortPermutes(ByCanon(visited.canonBytes), ids);
      NewIdsAreNext(st, kept, ids, next);
      RoundAdvances(sys, st, frontier, d, shardOf, shards, next);
      RoundExpands(sys, st, frontier, kept, next, observed, edges);
    }
  }

  /** No more states are discovered than edges generated. */
  lemma {:induction false} CandidatesAreFewer<S>(sys: System<S>, st: Store<S>, positions: map<nat, nat>, ids: seq<nat>)
    requires InStore(st, ids) && Positioned(positions, ids)
    ensures |CandidatesOfAll(sys, st, positions, ids)| <= |EdgesOfAll(sys, st, ids)|
  {
    if ids != [] {
      var n := |ids| - 1;
      CandidatesAreFewer(sys, st, positions, ids[..n]);
      CandidatesFromFewer(sys, st, ids[n], positions[ids[n]], sys.step(st.states[ids[n]]));
    }
  }

  lemma {:induction false} CandidatesFromFewer<S>(sys: System<S>, st: Store<S>, id: nat, position: nat, posts: seq<Post<S>>)
    ensures |CandidatesFrom(sys, st, id, position, posts)| <= |posts|
  {
    if posts != [] {
      CandidatesFromFewer(sys, st, id, position, posts[..|posts| - 1]);
    }
  }

  /** However the workers' notes of so many edges and new states interleave, their shared budget stops them or not. */
  ghost predicate AllStop(options: Options, states: nat, edges: nat, generated: nat, unseen: nat, stop: bool) {
    forall events | Count(GeneratedEdge, events) == generated && Count(NewState, events) == unseen ::
      RunBudget(options, states, edges, events).stop == stop
  }

  /** The limit found by the workers' shared budget, which no interleaving of their notes changes. */
  method ExpansionLimit(options: Options, states: nat, edges: nat, generated: nat, unseen: nat) returns (limit: Option<Limit>)
    requires unseen <= generated && CheckSearchLimits(options, states, edges, 0).None?
    ensures limit == BudgetLimit(options, states, edges, generated, unseen)
    ensures AllStop(options, states, edges, generated, unseen, limit.Some?)
  {
    limit := BudgetLimit(options, states, edges, generated, unseen);
    forall events | Count(GeneratedEdge, events) == generated && Count(NewState, events) == unseen
      ensures RunBudget(options, states, edges, events).stop == limit.Some?
    {
      BudgetIgnoresInterleaving(options, states, edges, events);
    }
  }

  /** A round that generates this many edges can reach the limit. */
  ghost predicate LimitInRound(options: Options, limit: Limit, states: nat, edges: nat, generated: nat) {
    Reached(options, limit, states + generated, edges + generated, generated)
  }

  /** At level `d` the edges out of the frontier, on top of `edges` before, reach the limit. */
  ghost predicate LimitAtLevel<S(!new)>(sys: System<S>, options: Options, limit: Limit, st: Store<S>, frontier: seq<nat>,
                                        d: nat, edges: nat)
  {
    AtLevel(sys, st, frontier, d) && LimitInRound(options, limit, |st.ids|, edges, |EdgesOfAll(sys, st, frontier)|)
  }

  /** The limit is reached by what is stored, recorded and waiting, or was by the last level expanded. */
  ghost predicate LimitIsReal<S(!new)>(sys: System<S>, options: Options, limit: Limit, stored: nat, edges: nat, waiting: nat, depth: nat) {
    || Reached(options, limit, stored, edges, waiting)
    || (depth > 0 && exists st, frontier, before: nat {:trigger LimitAtLevel(sys, options, limit, st, frontier, depth - 1, before)} ::
          LimitAtLevel(sys, options, limit, st, frontier, depth - 1, before) && before <= edges)
  }

  /** One round: expand the frontier, record and observe its edges, merge what is new.
      Returns the next frontier, the findings and the edges observed so far. */
  method ExploreDepth<S(!new), P>(sys: System<S>, properties: seq<Property<S, P>>, options: Options, workerCount: nat,
                                  shardOf: Key -> nat, shards: nat, frontier: seq<nat>, visited: VisitedSet<S>,
                                  before: Progress<S>, ghost observed: seq<Edge<S>>, ghost d: nat)
    returns (next: seq<nat>, now: Progress<S>, ghost seen: seq<Edge<S>>)
    requires Congruent(sys) && forall k :: shardOf(k) < shards
    requires AtLevel(sys, visited.View(), frontier, d) && GenuineForest(sys, visited.View())
    requires Expanded(sys, visited.View(), frontier, observed)
    requires Consistent(sys, properties, options, visited.View(), observed, before)
    requires CheckSearchLimits(options, visited.Len(), before.edgeCount, 0).None?
    modifies visited
    ensures visited.View().Valid(sys.key) && GenuineForest(sys, visited.View())
    ensures Consistent(sys, properties, options, visited.View(), seen, now)
    ensures now.limit.None? && !now.terminal ==>
              AtLevel(sys, visited.View(), next, d + 1) && Expanded(sys, visited.View(), next, seen)
    ensures |next| <= old(|EdgesOfAll(sys, visited.View(), frontier)|)
    ensures visited.Len() <= old(visited.Len()) + old(|EdgesOfAll(sys, visited.View(), frontier)|)
    ensures before.edgeCount <= now.edgeCount <= before.edgeCount + old(|EdgesOfAll(sys, visited.View(), frontier)|)
    ensures now.limit.Some? ==>
              LimitInRound(options, now.limit.value, old(visited.Len()), before.edgeCount, old(|EdgesOfAll(sys, visited.View(), frontier)|))
    ensures !AllTerminal(properties, before.verdicts) ==> (now.terminal <==> AllTerminal(properties, now.verdicts))
    ensures options.maxStates.Some? ==> visited.Len() <= options.maxStates.value || visited.Len() == old(visited.Len())
  {
    ghost var st := visited.View();
    var edges, candidates := ExpandFrontier(sys, frontier, workerCount, visited);
    CandidatesAreFewer(sys, st, PositionsOf(frontier), frontier);
    var budget := ExpansionLimit(options, visited.Len(), before.edgeCount, |edges|, |candidates|);
    var sortedEdges := Sort(ByEdge(), edges);
    var r := RecordEdges(properties, options, visited.Len(), before.edgeCount, sortedEdges,
                         before.rec, observed, before.verdicts, budget);
    seen := observed + sortedEdges[..r.count];
    SortedEdges(sys, st, frontier);
    RecordConcat(properties, observed, sortedEdges[..r.count]);
    next := [];
    var limit := r.limit;
    SortedLength(sys, st, frontier);
    if r.limit.None? && !r.terminal {
      assert sortedEdges[..r.count] == sortedEdges;
      next, limit := MergeRound(sys, options, before.edgeCount + r.count, shardOf, shards, frontier, candidates, visited,
                                observed, sortedEdges, d);
    }
    now := Progress(r.rec, r.verdicts, before.edgeCount + r.count, limit, r.terminal);
  }

  lemma {:induction false} NewIdsAreNext<S>(st: Store<S>, kept: seq<Candidate<S>>, ids: seq<nat>, next: seq<nat>)
    requires NewIds(|st.canons|, ids) && |ids| == |kept| && multiset(next) == multiset(ids)
    ensures NextFrontier(st, kept, next)
  {
    forall id
      ensures id in next <==> |st.canons| <= id < |st.canons| + |kept|
    {
      SameMembers(next, ids, id);
      if |st.canons| <= id < |st.canons| + |kept| {
        assert ids[id - |st.canons|] == id;
      }
    }
  }

  // ---------------------------------------------------------------------------
  // The search loop
  // ---------------------------------------------------------------------------

  /** Where the search stands; the level facts hold as long as nothing cut it short. */
  ghost predicate Searching<S(!new), P>(sys: System<S>, properties: seq<Property<S, P>>, options: Options,
                                        st: Store<S>, frontier: seq<nat>, d: nat, observed: seq<Edge<S>>, now: Progress<S>)
  {
    && st.Valid(sys.key) && GenuineForest(sys, st)
    && Consistent(sys, properties, options, st, observed, now)
    && (now.limit.None? && !now.terminal ==> AtLevel(sys, st, frontier, d) && Expanded(sys, st, frontier, observed))
    && (now.terminal ==> frontier == [])
    && (now.terminal <==> AllTerminal(properties, now.verdicts))
  }

  lemma {:induction false} NothingTerminal<S, P>(properties: seq<Property<S, P>>)
    ensures !AllTerminal<S, P>(properties, map[])
  {
    var none: Verdicts<S> := map[];
    assert properties != [] ==> properties[0].name !in none;
  }

  lemma {:induction false} LevelLimitIsReal<S(!new)>(sys: System<S>, options: Options, limit: Limit, st: Store<S>, frontier: seq<nat>,
                                                     d: nat, before: nat, stored: nat, edges: nat, waiting: nat)
    requires AtLevel(sys, st, frontier, d) && before <= edges
    requires LimitInRound(options, limit, |st.ids|, before, |EdgesOfAll(sys, st, frontier)|)
    ensures LimitIsReal(sys, options, limit, stored, edges, waiting, d + 1)
  {
    assert LimitAtLevel(sys, options, limit, st, frontier, d + 1 - 1, before);
  }

  /** The check of the limits after a round. */
  method LimitAfter(options: Options, states: nat, edges: nat, frontier: nat,
                    ghost statesBefore: nat, ghost edgesBefore: nat, ghost generated: nat) returns (limit: Option<Limit>)
    requires states <= statesBefore + generated && edges <= edgesBefore + generated && frontier <= generated
    ensures limit.None? <==> WithinBounds(options, states, edges, frontier)
    ensures limit.Some? ==> LimitInRound(options, limit.value, statesBefore, edgesBefore, generated)
  {
    limit := CheckSearchLimits(options, states, edges, frontier);
  }

  /** One pass of the loop, with the check of the limits after it. */
  method SearchRound<S(!new), P>(sys: System<S>, properties: seq<Property<S, P>>, options: Options, workerCount: nat,
                                 shardOf: Key -> nat, shards: nat, frontier: seq<nat>, visited: VisitedSet<S>,
                                 before: Progress<S>, ghost observed: seq<Edge<S>>, ghost d: nat)
    returns (next: seq<nat>, now: Progress<S>, ghost seen: seq<Edge<S>>)
    requires Congruent(sys) && forall k :: shardOf(k) < shards
    requires Searching(sys, properties, options, visited.View(), frontier, d, observed, before)
    requires before.limit.None? && !before.terminal
    requires CheckSearchLimits(options, visited.Len(), before.edgeCount, |frontier|).None?
    modifies visited
    ensures Searching(sys, properties, options, visited.View(), next, d + 1, seen, now)
    ensures Accounted(sys, options, visited.Len(), |next|, d + 1, now)
    ensures options.maxStates.Some? ==> visited.Len() <= options.maxStates.value || visited.Len() == old(visited.Len())
  {
    ghost var st, stored, generated := visited.View(), visited.Len(), |EdgesOfAll(sys, visited.View(), frontier)|;
    next, now, seen := ExploreDepth(sys, properties, options, workerCount, shardOf, shards, frontier, visited,
                                    before, observed, d);
    if now.terminal {
      next := [];
    }
    if now.limit.None? {
      var limit := LimitAfter(options, visited.Len(), now.edgeCount, |next|, stored, before.edgeCount, generated);
      now := now.(limit := limit);
    }
    if now.limit.Some? {
      LevelLimitIsReal(sys, options, now.limit.value, st, frontier, d, before.edgeCount, visited.Len(), now.edgeCount, |next|);
    }
  }

  /** The totals keep below every bound that is set, or one that they reach is reported. */
  ghost predicate Accounted<S(!new)>(sys: System<S>, options: Options, stored: nat, waiting: nat, depth: nat, now: Progress<S>) {
    && (now.limit.None? && depth > 0 ==> WithinBounds(options, stored, now.edgeCount, waiting))
    && (now.limit.Some? ==> LimitIsReal(sys, options, now.limit.value, stored, now.edgeCount, waiting, depth))
  }

  /** The level-synchronous loop, to an empty frontier, the depth bound, a limit or all verdicts in. */
  method RunSearch<S(!new), P>(sys: System<S>, properties: seq<Property<S, P>>, options: Options, maxDepth: nat,
                               workerCount: nat, shardOf: Key -> nat, shards: nat)
    returns (visited: VisitedSet<S>, frontier: seq<nat>, depth: nat, now: Progress<S>, ghost observed: seq<Edge<S>>)
    requires Congruent(sys) && forall k :: shardOf(k) < shards
    ensures fresh(visited) && Searching(sys, properties, options, visited.View(), frontier, depth, observed, now)
    ensures depth <= maxDepth
    ensures now.limit.None? && frontier != [] ==> depth == maxDepth
    ensures Accounted(sys, options, visited.Len(), |frontier|, depth, now)
    ensures options.maxStates.Some? ==> visited.Len() <= options.maxStates.value || visited.Len() <= |sys.initial|
  {
    visited := new VisitedSet<S>();
    frontier := SeedFrontier(sys, visited);
    depth := 0;
    now := Progress(NOTHING_RECORDED, map[], 0, None, false);
    observed := [];
    NothingTerminal<S, P>(properties);
    while frontier != [] && depth < maxDepth && now.limit.None? && !AllTerminal(properties, now.verdicts)
      invariant fresh(visited) && depth <= maxDepth
      invariant Searching(sys, properties, options, visited.View(), frontier, depth, observed, now)
      invariant Accounted(sys, options, visited.Len(), |frontier|, depth, now)
      invariant options.maxStates.Some? ==> visited.Len() <= options.maxStates.value || visited.Len() <= |sys.initial|
      decreases maxDepth - depth
    {
      var limit := CheckSearchLimits(options, visited.Len(), now.edgeCount, |frontier|);
      if limit.Some? {
        now := now.(limit := limit);
        break;
      }
      frontier, now, observed := SearchRound(sys, properties, options, workerCount, shardOf, shards, frontier, visited,
                                             now, observed, depth);
      depth := depth + 1;
    }
  }
}
