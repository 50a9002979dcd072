/** What each round of the breadth-first search establishes: exact distance levels,
    complete edges and a genuine parent forest. */
module Levels {
  import opened Bytes
  import opened Sorting
  import opened Visited
  import opened Search
  import opened Wrappers

  // ---------------------------------------------------------------------------
  // Membership in the expansion
  // ---------------------------------------------------------------------------

  lemma {:induction false} CandidatesFromHas<S(!new)>(sys: System<S>, st: Store<S>, id: nat, position: nat,
                                                      posts: seq<Post<S>>, c: Candidate<S>)
    ensures c in CandidatesFrom(sys, st, id, position, posts) <==>
            exists p :: p in posts && sys.key(p.state) !in st.ids && c == CandidateOf(sys, id, position, p)
  {
    if posts != [] {
      var n := |posts| - 1;
      CandidatesFromHas(sys, st, id, position, posts[..n], c);
      assert posts == posts[..n] + [posts[n]];
    }
  }

  /** `c` is post `p` of the stored state `id`, not stored itself. */
  ghost predicate Discovers<S>(sys: System<S>, st: Store<S>, positions: map<nat, nat>, id: nat, p: Post<S>, c: Candidate<S>)
    requires id < |st.states|
  {
    && id in positions && p in sys.step(st.states[id]) && sys.key(p.state) !in st.ids
    && c == CandidateOf(sys, id, positions[id], p)
  }

  lemma {:induction false} CandidateSource<S(!new)>(sys: System<S>, st: Store<S>, positions: map<nat, nat>, ids: seq<nat>,
                                                    c: Candidate<S>) returns (id: nat, p: Post<S>)
    requires InStore(st, ids) && Positioned(positions, ids)
    requires c in CandidatesOfAll(sys, st, positions, ids)
    ensures id in ids && id < |st.states| && Discovers(sys, st, positions, id, p, c)
    decreases |ids|
  {
    var n := |ids| - 1;
    if c in CandidatesOfAll(sys, st, positions, ids[..n]) {
      id, p := CandidateSource(sys, st, positions, ids[..n], c);
    } else {
      id := ids[n];
      CandidatesFromHas(sys, st, id, positions[id], sys.step(st.states[id]), c);
      p :| p in sys.step(st.states[id]) && sys.key(p.state) !in st.ids && c == CandidateOf(sys, id, positions[id], p);
    }
  }

  lemma {:induction false} CandidateFound<S(!new)>(sys: System<S>, st: Store<S>, positions: map<nat, nat>, ids: seq<nat>,
                                                   i: nat, p: Post<S>)
    requires InStore(st, ids) && Positioned(positions, ids) && i < |ids|
    requires p in sys.step(st.states[ids[i]]) && sys.key(p.state) !in st.ids
    ensures CandidateOf(sys, ids[i], positions[ids[i]], p) in CandidatesOfAll(sys, st, positions, ids)
    decreases |ids|
  {
    var n := |ids| - 1;
    if i < n {
      CandidateFound(sys, st, positions, ids[..n], i, p);
    } else {
      CandidatesFromHas(sys, st, ids[n], positions[ids[n]], sys.step(st.states[ids[n]]), CandidateOf(sys, ids[n], positions[ids[n]], p));
    }
  }

  /** `e` is an edge out of the stored state `e.preId`. */
  ghost predicate StoredEdge<S>(sys: System<S>, st: Store<S>, e: Edge<S>) {
    && e.preId < |st.states| && e.preId < |st.canons|
    && exists p :: p in sys.step(st.states[e.preId]) && e == EdgeOf(sys, st, e.preId, p)
  }

  lemma {:induction false} EdgesAreStored<S(!new)>(sys: System<S>, st: Store<S>, ids: seq<nat>)
    requires InStore(st, ids)
    ensures forall e | e in EdgesOfAll(sys, st, ids) :: StoredEdge(sys, st, e)
  {
    if ids != [] {
      var n := |ids| - 1;
      EdgesAreStored(sys, st, ids[..n]);
      var posts := sys.step(st.states[ids[n]]);
      forall e | e in EdgesFrom(sys, st, ids[n], posts)
        ensures StoredEdge(sys, st, e)
      {
        var j :| 0 <= j < |posts| && e == EdgeOf(sys, st, ids[n], posts[j]);
        assert posts[j] in posts;
      }
    }
  }

  lemma {:induction false} EdgeFound<S(!new)>(sys: System<S>, st: Store<S>, ids: seq<nat>, i: nat, p: Post<S>)
    requires InStore(st, ids) && i < |ids| && p in sys.step(st.states[ids[i]])
    ensures EdgeOf(sys, st, ids[i], p) in EdgesOfAll(sys, st, ids)
    decreases |ids|
  {
    var n := |ids| - 1;
    if i < n {
      EdgeFound(sys, st, ids[..n], i, p);
    } else {
      var posts := sys.step(st.states[ids[n]]);
      var j :| 0 <= j < |posts| && posts[j] == p;
      assert EdgesFrom(sys, st, ids[n], posts)[j] == EdgeOf(sys, st, ids[n], p);
    }
  }

  // ---------------------------------------------------------------------------
  // The invariant
  // ---------------------------------------------------------------------------

  ghost predicate InFrontier<S>(st: Store<S>, frontier: seq<nat>, k: Key)
    requires InStore(st, frontier)
  {
    exists i :: 0 <= i < |frontier| && st.canons[frontier[i]] == k
  }

  /** After `d` rounds: stored is everything within `d` steps, the frontier everything at distance exactly `d`. */
  ghost predicate AtLevel<S(!new)>(sys: System<S>, st: Store<S>, frontier: seq<nat>, d: nat) {
    && st.Valid(sys.key)
    && InStore(st, frontier)
    && (forall k {:trigger ReachWithin(sys, d, k)} :: k in st.ids <==> ReachWithin(sys, d, k))
    && (forall k {:trigger IsDistance(sys, d, k)} :: InFrontier(st, frontier, k) <==> IsDistance(sys, d, k))
  }

  ghost predicate RealStep<S(!new)>(sys: System<S>, pre: S, t: nat, post: S) {
    exists p :: p in sys.step(pre) && p.transition == t && p.state == post
  }

  /** One step down the parent forest is one real step, one level nearer to a seed. */
  ghost predicate GenuineParent<S(!new)>(sys: System<S>, st: Store<S>, k: Key)
    requires st.Valid(sys.key) && k in st.ids
  {
    match st.parents[k]
    case Parent(None, None) => IsDistance(sys, 0, k) && st.byCanon[k] in sys.initial
    case Parent(Some(a), Some(t)) =>
      && a in st.ids && RealStep(sys, st.byCanon[a], t, st.byCanon[k])
      && exists n: nat :: IsDistance(sys, n, a) && IsDistance(sys, n + 1, k)
    case _ => false
  }

  ghost predicate GenuineForest<S(!new)>(sys: System<S>, st: Store<S>)
    requires st.Valid(sys.key)
  {
    forall k {:trigger GenuineParent(sys, st, k)} | k in st.ids :: GenuineParent(sys, st, k)
  }

  /** Every stored state outside the frontier has all its steps among `observed`. */
  ghost predicate Expanded<S(!new)>(sys: System<S>, st: Store<S>, frontier: seq<nat>, observed: seq<Edge<S>>)
    requires |st.states| == |st.canons|
  {
    forall id, p | 0 <= id < |st.states| && id !in frontier && p in sys.step(st.states[id]) ::
      EdgeOf(sys, st, id, p) in observed
  }

  ghost predicate ObservedStored<S(!new)>(sys: System<S>, st: Store<S>, observed: seq<Edge<S>>) {
    forall e {:trigger StoredEdge(sys, st, e)} | e in observed :: StoredEdge(sys, st, e)
  }

  // ---------------------------------------------------------------------------
  // Distances
  // ---------------------------------------------------------------------------

  lemma {:induction false} LeastDistance<S(!new)>(sys: System<S>, n: nat, k: Key) returns (d: nat)
    requires ReachIn(sys, n, k)
    ensures d <= n && IsDistance(sys, d, k)
    decreases n
  {
    if m: nat :| m < n && ReachIn(sys, m, k) {
      d := LeastDistance(sys, m, k);
    } else {
      d := n;
    }
  }

  lemma {:induction false} WithinNext<S(!new)>(sys: System<S>, d: nat, k: Key)
    ensures ReachWithin(sys, d + 1, k) <==> ReachWithin(sys, d, k) || IsDistance(sys, d + 1, k)
  {
    if ReachWithin(sys, d + 1, k) {
      var n: nat :| n <= d + 1 && ReachIn(sys, n, k);
      var m := LeastDistance(sys, n, k);
    }
  }

  /** Distance `d + 1` is one step from distance `d` and not within `d`. */
  lemma {:induction false} DistanceNext<S(!new)>(sys: System<S>, d: nat, k: Key)
    ensures IsDistance(sys, d + 1, k) <==>
            !ReachWithin(sys, d, k) && exists a :: IsDistance(sys, d, a) && KeyStep(sys, a, k)
  {
    if IsDistance(sys, d + 1, k) {
      var a :| ReachIn(sys, d, a) && KeyStep(sys, a, k);
      var m := LeastDistance(sys, d, a);
      assert ReachIn(sys, m + 1, k);
    }
    if a :| !ReachWithin(sys, d, k) && IsDistance(sys, d, a) && KeyStep(sys, a, k) {
      assert ReachIn(sys, d + 1, k);
      assert forall n: nat | n < d + 1 && ReachIn(sys, n, k) :: ReachWithin(sys, d, k);
    }
  }

  /** The state stored for a key ends a real run that is as long as the key's distance. */
  lemma {:induction false} StoredOccursAt<S(!new)>(sys: System<S>, st: Store<S>, n: nat, k: Key)
    requires st.Valid(sys.key) && GenuineForest(sys, st) && k in st.ids && IsDistance(sys, n, k)
    ensures OccursAt(sys, n, st.byCanon[k])
    decreases n
  {
    assert GenuineParent(sys, st, k);
    if st.parents[k].parent.Some? {
      var a := st.parents[k].parent.value;
      var m: nat :| IsDistance(sys, m, a) && IsDistance(sys, m + 1, k);
      DistanceUnique(sys, m + 1, n, k);
      StoredOccursAt(sys, st, m, a);
      RealIsStep(sys, st.byCanon[a], st.parents[k].transition.value, st.byCanon[k]);
    } else {
      DistanceUnique(sys, 0, n, k);
    }
  }

  lemma {:induction false} RealIsStep<S(!new)>(sys: System<S>, pre: S, t: nat, post: S)
    requires RealStep(sys, pre, t, post)
    ensures IsStep(sys, pre, post)
  {
    var p :| p in sys.step(pre) && p.transition == t && p.state == post;
  }

  lemma {:induction false} StoredHasDistance<S(!new)>(sys: System<S>, st: Store<S>, k: Key) returns (n: nat)
    requires st.Valid(sys.key) && GenuineForest(sys, st) && k in st.ids
    ensures IsDistance(sys, n, k)
  {
    assert GenuineParent(sys, st, k);
    if st.parents[k].parent.None? {
      n := 0;
    } else {
      var m: nat :| IsDistance(sys, m, st.parents[k].parent.value) && IsDistance(sys, m + 1, k);
      n := m + 1;
    }
  }

  /** Every stored state is one that some run visits. */
  lemma {:induction false} StoredOccurs<S(!new)>(sys: System<S>, st: Store<S>, id: nat)
    requires st.Valid(sys.key) && GenuineForest(sys, st) && id < |st.states|
    ensures Occurs(sys, st.states[id])
  {
    var k := st.canons[id];
    assert k in st.ids && st.ids[k] == id;
    var n := StoredHasDistance(sys, st, k);
    StoredOccursAt(sys, st, n, k);
  }

  lemma {:induction false} DistanceUnique<S(!new)>(sys: System<S>, m: nat, n: nat, k: Key)
    requires IsDistance(sys, m, k) && IsDistance(sys, n, k)
    ensures m == n
  {
  }

  // ---------------------------------------------------------------------------
  // One round
  // ---------------------------------------------------------------------------

  /** The survivors of merging everything the frontier discovers. */
  ghost function Survivors<S>(sys: System<S>, st: Store<S>, frontier: seq<nat>, shardOf: Key -> nat, shards: nat): seq<Candidate<S>>
    requires InStore(st, frontier) && Positioned(PositionsOf(frontier), frontier)
  {
    Kept(st.ids.Keys, SortedShards(shardOf, shards, CandidatesOfAll(sys, st, PositionsOf(frontier), frontier)))
  }

  lemma {:induction false} SurvivorSource<S(!new)>(sys: System<S>, st: Store<S>, frontier: seq<nat>, shardOf: Key -> nat, shards: nat, c: Candidate<S>)
    returns (id: nat, p: Post<S>)
    requires InStore(st, frontier) && Positioned(PositionsOf(frontier), frontier) && forall k :: shardOf(k) < shards
    requires c in SortedShards(shardOf, shards, CandidatesOfAll(sys, st, PositionsOf(frontier), frontier))
    ensures id in frontier && id < |st.states| && Discovers(sys, st, PositionsOf(frontier), id, p, c)
  {
    var cs := CandidatesOfAll(sys, st, PositionsOf(frontier), frontier);
    SortedShardsIsSort(shardOf, shards, cs);
    SameMembers(SortedShards(shardOf, shards, cs), cs, c);
    id, p := CandidateSource(sys, st, PositionsOf(frontier), frontier, c);
  }

  lemma {:induction false} SurvivorsInsertable<S(!new)>(sys: System<S>, st: Store<S>, frontier: seq<nat>, shardOf: Key -> nat, shards: nat)
    requires st.Valid(sys.key) && InStore(st, frontier) && Positioned(PositionsOf(frontier), frontier)
    requires forall k :: shardOf(k) < shards
    ensures Insertable(st, sys.key, Survivors(sys, st, frontier, shardOf, shards))
  {
    var sorted := SortedShards(shardOf, shards, CandidatesOfAll(sys, st, PositionsOf(frontier), frontier));
    forall i | 0 <= i < |sorted|
      ensures sorted[i].parentId < |st.canons| && sorted[i].canon == sys.key(sorted[i].state)
    {
      var id, p := SurvivorSource(sys, st, frontier, shardOf, shards, sorted[i]);
    }
    KeptInsertable(st, sys.key, st.ids.Keys, sorted);
  }

  /** A survivor comes from a frontier state one level nearer, by a real step. */
  lemma {:induction false} SurvivorStep<S(!new)>(sys: System<S>, st: Store<S>, frontier: seq<nat>, d: nat, shardOf: Key -> nat, shards: nat, c: Candidate<S>)
    requires AtLevel(sys, st, frontier, d) && Positioned(PositionsOf(frontier), frontier) && GenuineForest(sys, st)
    requires forall k :: shardOf(k) < shards
    requires c in Survivors(sys, st, frontier, shardOf, shards)
    ensures c.parentId < |st.states| && IsDistance(sys, d, st.canons[c.parentId]) && IsDistance(sys, d + 1, c.canon)
    ensures RealStep(sys, st.states[c.parentId], c.transition, c.state)
  {
    var sorted := SortedShards(shardOf, shards, CandidatesOfAll(sys, st, PositionsOf(frontier), frontier));
    KeptIsNew(st.ids.Keys, sorted, c);
    var id, p := SurvivorSource(sys, st, frontier, shardOf, shards, c);
    assert InFrontier(st, frontier, st.canons[id]);
    assert IsDistance(sys, d, st.canons[id]);
    assert StepsTo(sys, st.states[id], c.canon);
    StoredOccurs(sys, st, id);
    assert KeyStep(sys, st.canons[id], c.canon);
    assert !ReachWithin(sys, d, c.canon);
    DistanceNext(sys, d, c.canon);
  }

  /** Every key at the next distance survives. */
  lemma {:induction false} NextLevelSurvives<S(!new)>(sys: System<S>, st: Store<S>, frontier: seq<nat>, d: nat, shardOf: Key -> nat, shards: nat, k: Key)
    returns (c: Candidate<S>)
    requires Congruent(sys) && AtLevel(sys, st, frontier, d) && Positioned(PositionsOf(frontier), frontier) && GenuineForest(sys, st)
    requires forall k :: shardOf(k) < shards
    requires IsDistance(sys, d + 1, k)
    ensures c in Survivors(sys, st, frontier, shardOf, shards) && c.canon == k
  {
    DistanceNext(sys, d, k);
    var a :| IsDistance(sys, d, a) && KeyStep(sys, a, k);
    assert InFrontier(st, frontier, a);
    var i :| 0 <= i < |frontier| && st.canons[frontier[i]] == a;
    StoredOccurs(sys, st, frontier[i]);
    StoredStep(sys, st.states[frontier[i]], k);
    var p :| p in sys.step(st.states[frontier[i]]) && sys.key(p.state) == k;
    assert k !in st.ids;
    var cs := CandidatesOfAll(sys, st, PositionsOf(frontier), frontier);
    CandidateFound(sys, st, PositionsOf(frontier), frontier, i, p);
    SortedShardsIsSort(shardOf, shards, cs);
    var found := CandidateOf(sys, frontier[i], PositionsOf(frontier)[frontier[i]], p);
    SameMembers(SortedShards(shardOf, shards, cs), cs, found);
    c := KeptCovers(st.ids.Keys, SortedShards(shardOf, shards, cs), found);
  }

  lemma {:induction false} SurvivorKeys<S(!new)>(sys: System<S>, st: Store<S>, frontier: seq<nat>, d: nat, shardOf: Key -> nat, shards: nat, k: Key)
    requires Congruent(sys) && AtLevel(sys, st, frontier, d) && Positioned(PositionsOf(frontier), frontier) && GenuineForest(sys, st)
    requires forall k :: shardOf(k) < shards
    ensures k in CanonsOf(Survivors(sys, st, frontier, shardOf, shards)) <==> IsDistance(sys, d + 1, k)
  {
    var kept := Survivors(sys, st, frontier, shardOf, shards);
    if k in CanonsOf(kept) {
      var i :| 0 <= i < |kept| && kept[i].canon == k;
      SurvivorStep(sys, st, frontier, d, shardOf, shards, kept[i]);
    }
    if IsDistance(sys, d + 1, k) {
      var c := NextLevelSurvives(sys, st, frontier, d, shardOf, shards, k);
      var i :| 0 <= i < |kept| && kept[i] == c;
      assert CanonsOf(kept)[i] == k;
    }
  }

  /** `frontier'` lists the ids of the survivors in some order. */
  ghost predicate NextFrontier<S>(st: Store<S>, kept: seq<Candidate<S>>, frontier': seq<nat>) {
    forall id :: id in frontier' <==> |st.canons| <= id < |st.canons| + |kept|
  }

  /** A complete round moves the invariant one level on. */
  lemma {:induction false} RoundAdvances<S(!new)>(sys: System<S>, st: Store<S>, frontier: seq<nat>, d: nat, shardOf: Key -> nat, shards: nat,
                               frontier': seq<nat>)
    requires Congruent(sys) && AtLevel(sys, st, frontier, d) && Positioned(PositionsOf(frontier), frontier) && GenuineForest(sys, st)
    requires forall k :: shardOf(k) < shards
    requires NextFrontier(st, Survivors(sys, st, frontier, shardOf, shards), frontier')
    ensures Insertable(st, sys.key, Survivors(sys, st, frontier, shardOf, shards))
    ensures AtLevel(sys, AddAll(st, Survivors(sys, st, frontier, shardOf, shards)), frontier', d + 1)
  {
    var kept := Survivors(sys, st, frontier, shardOf, shards);
    SurvivorsInsertable(sys, st, frontier, shardOf, shards);
    AddAllValid(st, sys.key, kept);
    var st' := AddAll(st, kept);
    NextInStore(st, kept, frontier');
    forall k
      ensures k in CanonsOf(kept) <==> IsDistance(sys, d + 1, k)
    {
      SurvivorKeys(sys, st, frontier, d, shardOf, shards, k);
    }
    NextLevel(sys, st, frontier, d, kept, frontier');
  }

  lemma {:induction false} NextInStore<S(!new)>(st: Store<S>, kept: seq<Candidate<S>>, frontier': seq<nat>)
    requires |st.states| == |st.canons| && ParentsIn(st, kept) && NextFrontier(st, kept, frontier')
    ensures InStore(AddAll(st, kept), frontier')
  {
    assert forall i | 0 <= i < |frontier'| :: frontier'[i] in frontier';
  }

  lemma {:induction false} NextLevel<S(!new)>(sys: System<S>, st: Store<S>, frontier: seq<nat>, d: nat, kept: seq<Candidate<S>>, frontier': seq<nat>)
    requires AtLevel(sys, st, frontier, d) && ParentsIn(st, kept) && AddAll(st, kept).Valid(sys.key)
    requires NextFrontier(st, kept, frontier') && InStore(AddAll(st, kept), frontier')
    requires forall k {:trigger IsDistance(sys, d + 1, k)} :: k in CanonsOf(kept) <==> IsDistance(sys, d + 1, k)
    ensures AtLevel(sys, AddAll(st, kept), frontier', d + 1)
  {
    var st' := AddAll(st, kept);
    forall k
      ensures k in st'.ids <==> ReachWithin(sys, d + 1, k)
    {
      NextStored(sys, st, frontier, d, kept, k);
    }
    forall k
      ensures InFrontier(st', frontier', k) <==> IsDistance(sys, d + 1, k)
    {
      FrontierKeys(st, kept, frontier', k);
    }
  }

  lemma {:induction false} NextStored<S(!new)>(sys: System<S>, st: Store<S>, frontier: seq<nat>, d: nat, kept: seq<Candidate<S>>, k: Key)
    requires AtLevel(sys, st, frontier, d) && ParentsIn(st, kept) && AddAll(st, kept).Valid(sys.key)
    requires k in CanonsOf(kept) <==> IsDistance(sys, d + 1, k)
    ensures k in AddAll(st, kept).ids <==> ReachWithin(sys, d + 1, k)
  {
    WithinNext(sys, d, k);
    StoredCanon(st, sys.key, k);
    StoredCanon(AddAll(st, kept), sys.key, k);
  }

  lemma {:induction false} FrontierKeys<S(!new)>(st: Store<S>, kept: seq<Candidate<S>>, frontier': seq<nat>, k: Key)
    requires |st.states| == |st.canons| && ParentsIn(st, kept) && NextFrontier(st, kept, frontier')
    requires InStore(AddAll(st, kept), frontier')
    ensures InFrontier(AddAll(st, kept), frontier', k) <==> k in CanonsOf(kept)
  {
    var st' := AddAll(st, kept);
    if InFrontier(st', frontier', k) {
      var i :| 0 <= i < |frontier'| && st'.canons[frontier'[i]] == k;
      assert frontier'[i] in frontier';
      assert CanonsOf(kept)[frontier'[i] - |st.canons|] == k;
    }
    if k in CanonsOf(kept) {
      var j :| 0 <= j < |kept| && CanonsOf(kept)[j] == k;
      var id := |st.canons| + j;
      assert id in frontier' && st'.canons[id] == k;
      var i :| 0 <= i < |frontier'| && frontier'[i] == id;
    }
  }

  /** The parent forest stays genuine, also when a limit cuts the merge short after `n` survivors. */
  lemma {:induction false} RoundKeepsForest<S(!new)>(sys: System<S>, st: Store<S>, frontier: seq<nat>, d: nat, shardOf: Key -> nat, shards: nat, n: nat)
    requires AtLevel(sys, st, frontier, d) && Positioned(PositionsOf(frontier), frontier) && GenuineForest(sys, st)
    requires (forall k :: shardOf(k) < shards) && n <= |Survivors(sys, st, frontier, shardOf, shards)|
    ensures var kept := Survivors(sys, st, frontier, shardOf, shards)[..n];
            Insertable(st, sys.key, kept) && AddAll(st, kept).Valid(sys.key) && GenuineForest(sys, AddAll(st, kept))
  {
    SurvivorsInsertable(sys, st, frontier, shardOf, shards);
    InsertablePrefix(st, sys.key, Survivors(sys, st, frontier, shardOf, shards), n);
    var kept := Survivors(sys, st, frontier, shardOf, shards)[..n];
    AddAllValid(st, sys.key, kept);
    AddAllParents(st, sys.key, kept);
    var st' := AddAll(st, kept);
    forall k | k in st'.ids
      ensures GenuineParent(sys, st', k)
    {
      StoredCanon(st', sys.key, k);
      if k in st.canons {
        OldParent(sys, st, kept, k);
      } else {
        var i :| 0 <= i < |kept| && CanonsOf(kept)[i] == k;
        SurvivorStep(sys, st, frontier, d, shardOf, shards, kept[i]);
        NewParent(sys, st, kept, i, d);
      }
    }
  }

  lemma {:induction false} SameState<S>(st: Store<S>, key: S -> Key, kept: seq<Candidate<S>>, k: Key)
    requires st.Valid(key) && ParentsIn(st, kept) && AddAll(st, kept).Valid(key) && k in st.ids
    ensures k in AddAll(st, kept).ids && AddAll(st, kept).byCanon[k] == st.byCanon[k]
  {
    var st' := AddAll(st, kept);
    assert st'.canons[st.ids[k]] == k && st'.states[st.ids[k]] == st.states[st.ids[k]];
  }

  lemma {:induction false} OldParent<S(!new)>(sys: System<S>, st: Store<S>, kept: seq<Candidate<S>>, k: Key)
    requires st.Valid(sys.key) && Insertable(st, sys.key, kept) && AddAll(st, kept).Valid(sys.key)
    requires k in st.canons && GenuineForest(sys, st)
    requires k in AddAll(st, kept).parents && AddAll(st, kept).parents[k] == st.parents[k]
    ensures k in AddAll(st, kept).ids && GenuineParent(sys, AddAll(st, kept), k)
  {
    StoredCanon(st, sys.key, k);
    SameState(st, sys.key, kept, k);
    assert GenuineParent(sys, st, k);
    match st.parents[k]
    case Parent(Some(a), Some(_)) => SameState(st, sys.key, kept, a);
    case _ =>
  }

  lemma {:induction false} NewParent<S(!new)>(sys: System<S>, st: Store<S>, kept: seq<Candidate<S>>, i: nat, d: nat)
    requires st.Valid(sys.key) && Insertable(st, sys.key, kept) && AddAll(st, kept).Valid(sys.key) && i < |kept|
    requires kept[i].canon in AddAll(st, kept).parents
    requires AddAll(st, kept).parents[kept[i].canon] == Parent(Some(st.canons[kept[i].parentId]), Some(kept[i].transition))
    requires IsDistance(sys, d, st.canons[kept[i].parentId]) && IsDistance(sys, d + 1, kept[i].canon)
    requires RealStep(sys, st.states[kept[i].parentId], kept[i].transition, kept[i].state)
    ensures kept[i].canon in AddAll(st, kept).ids && GenuineParent(sys, AddAll(st, kept), kept[i].canon)
  {
    SameState(st, sys.key, kept, st.canons[kept[i].parentId]);
    NewState(st, sys.key, kept, i);
  }

  lemma {:induction false} NewState<S>(st: Store<S>, key: S -> Key, kept: seq<Candidate<S>>, i: nat)
    requires |st.states| == |st.canons| && ParentsIn(st, kept) && AddAll(st, kept).Valid(key) && i < |kept|
    ensures kept[i].canon in AddAll(st, kept).ids && AddAll(st, kept).byCanon[kept[i].canon] == kept[i].state
  {
    AddedAt(st, kept, i);
    IndexedState(AddAll(st, kept), key, |st.canons| + i);
  }

  lemma {:induction false} AddedAt<S>(st: Store<S>, kept: seq<Candidate<S>>, i: nat)
    requires |st.states| == |st.canons| && ParentsIn(st, kept) && i < |kept|
    ensures var st' := AddAll(st, kept);
            var id := |st.canons| + i;
            id < |st'.canons| && id < |st'.states| && st'.canons[id] == kept[i].canon && st'.states[id] == kept[i].state
  {
    assert CanonsOf(kept)[i] == kept[i].canon && StatesOf(kept)[i] == kept[i].state;
  }

  lemma {:induction false} IndexedState<S>(st: Store<S>, key: S -> Key, id: nat)
    requires st.Valid(key) && id < |st.canons|
    ensures st.canons[id] in st.ids && st.byCanon[st.canons[id]] == st.states[id]
  {
  }

  /** After the round everything but the new frontier is expanded. */
  lemma {:induction false} RoundExpands<S(!new)>(sys: System<S>, st: Store<S>, frontier: seq<nat>, kept: seq<Candidate<S>>, frontier': seq<nat>,
                              observed: seq<Edge<S>>, sorted: seq<Edge<S>>)
    requires st.Valid(sys.key) && InStore(st, frontier) && ParentsIn(st, kept)
    requires NextFrontier(st, kept, frontier') && |AddAll(st, kept).states| == |AddAll(st, kept).canons|
    requires Expanded(sys, st, frontier, observed) && multiset(sorted) == multiset(EdgesOfAll(sys, st, frontier))
    ensures Expanded(sys, AddAll(st, kept), frontier', observed + sorted)
  {
    var st' := AddAll(st, kept);
    forall id, p | 0 <= id < |st'.states| && id !in frontier' && p in sys.step(st'.states[id])
      ensures EdgeOf(sys, st', id, p) in observed + sorted
    {
      assert id < |st.states| && st'.states[id] == st.states[id] && st'.canons[id] == st.canons[id];
      var e := EdgeOf(sys, st, id, p);
      if id in frontier {
        var i :| 0 <= i < |frontier| && frontier[i] == id;
        EdgeFound(sys, st, frontier, i, p);
        SameMembers(sorted, EdgesOfAll(sys, st, frontier), e);
      }
      assert e == EdgeOf(sys, st', id, p);
    }
  }

  lemma {:induction false} ObservedStaysStored<S(!new)>(sys: System<S>, st: Store<S>, kept: seq<Candidate<S>>, observed: seq<Edge<S>>)
    requires |st.states| == |st.canons| && ParentsIn(st, kept) && ObservedStored(sys, st, observed)
    ensures ObservedStored(sys, AddAll(st, kept), observed)
  {
    var st' := AddAll(st, kept);
    forall e | e in observed
      ensures StoredEdge(sys, st', e)
    {
      assert StoredEdge(sys, st, e);
      var p :| p in sys.step(st.states[e.preId]) && e == EdgeOf(sys, st, e.preId, p);
      assert e == EdgeOf(sys, st', e.preId, p);
    }
  }
}
