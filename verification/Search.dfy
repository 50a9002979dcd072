/** Level-synchronous breadth-first search over canonical keys
    (crates/checker/src/search.rs, crates/checker/src/graph.rs). */
module Search {
  import opened Bytes
  import opened Sorting
  import opened Visited
  import opened Properties
  import opened Wrappers

  // ---------------------------------------------------------------------------
  // The system being explored
  // ---------------------------------------------------------------------------

  /** One stabilised post-state of a state, with its discovery position. */
  datatype Post<S> = Post(transition: nat, rawBranch: nat, stabBranch: nat, state: S)

  /** Stabilised initial states, the successor function in generation order, and the key function. */
  datatype System<!S> = System(initial: seq<S>, step: S -> seq<Post<S>>, key: S -> Key)

  /** `s` is where a run of `n` steps from an initial state ends. */
  ghost predicate OccursAt<S(!new)>(sys: System<S>, n: nat, s: S) {
    if n == 0 then s in sys.initial else exists r :: OccursAt(sys, n - 1, r) && IsStep(sys, r, s)
  }

  ghost predicate IsStep<S(!new)>(sys: System<S>, r: S, s: S) {
    exists p :: p in sys.step(r) && p.state == s
  }

  /** Some run visits `s`. */
  ghost predicate Occurs<S(!new)>(sys: System<S>, s: S) {
    exists n: nat :: OccursAt(sys, n, s)
  }

  /** States of runs that have one key have successors with the same keys. */
  ghost predicate Congruent<S(!new)>(sys: System<S>) {
    forall s, t {:trigger FollowsSteps(sys, s, t)} | Occurs(sys, s) && Occurs(sys, t) && sys.key(s) == sys.key(t) ::
      FollowsSteps(sys, s, t)
  }

  ghost predicate FollowsSteps<S(!new)>(sys: System<S>, s: S, t: S) {
    forall p | p in sys.step(s) :: StepsTo(sys, t, sys.key(p.state))
  }

  ghost predicate StepsTo<S(!new)>(sys: System<S>, s: S, k: Key) {
    exists p :: p in sys.step(s) && sys.key(p.state) == k
  }

  /** The step relation on keys. */
  ghost predicate KeyStep<S(!new)>(sys: System<S>, a: Key, b: Key) {
    exists s :: Occurs(sys, s) && sys.key(s) == a && StepsTo(sys, s, b)
  }

  /** Key `k` is reached from an initial state in exactly `n` steps. */
  ghost predicate ReachIn<S(!new)>(sys: System<S>, n: nat, k: Key) {
    if n == 0 then exists s :: s in sys.initial && sys.key(s) == k
    else exists a :: ReachIn(sys, n - 1, a) && KeyStep(sys, a, k)
  }

  ghost predicate ReachWithin<S(!new)>(sys: System<S>, d: nat, k: Key) {
    exists n: nat :: n <= d && ReachIn(sys, n, k)
  }

  ghost predicate Reachable<S(!new)>(sys: System<S>, k: Key) {
    exists n: nat :: ReachIn(sys, n, k)
  }

  /** `d` is the length of a shortest run to `k`. */
  ghost predicate IsDistance<S(!new)>(sys: System<S>, d: nat, k: Key) {
    ReachIn(sys, d, k) && forall n: nat | n < d :: !ReachIn(sys, n, k)
  }

  lemma {:induction false} StoredStep<S(!new)>(sys: System<S>, s: S, b: Key)
    requires Congruent(sys) && Occurs(sys, s)
    ensures KeyStep(sys, sys.key(s), b) <==> StepsTo(sys, s, b)
  {
    if KeyStep(sys, sys.key(s), b) {
      var t :| Occurs(sys, t) && sys.key(t) == sys.key(s) && StepsTo(sys, t, b);
      assert FollowsSteps(sys, t, s);
      var p :| p in sys.step(t) && sys.key(p.state) == b;
    }
  }

  lemma {:induction false} OccursNext<S(!new)>(sys: System<S>, s: S, t: S)
    requires Occurs(sys, s) && IsStep(sys, s, t)
    ensures Occurs(sys, t)
  {
    var n: nat :| OccursAt(sys, n, s);
    assert OccursAt(sys, n + 1, t);
  }

  /** What holds initially and is kept by every step holds in every state that a run visits. */
  lemma {:induction false} RunsKeep<S(!new)>(sys: System<S>, inv: S -> bool, n: nat, s: S)
    requires (forall r | r in sys.initial :: inv(r)) && forall r, t | inv(r) && IsStep(sys, r, t) :: inv(t)
    requires OccursAt(sys, n, s)
    ensures inv(s)
  {
    if n > 0 {
      var r :| OccursAt(sys, n - 1, r) && IsStep(sys, r, s);
      RunsKeep(sys, inv, n - 1, r);
    }
  }

  lemma {:induction false} OccursIsReached<S(!new)>(sys: System<S>, n: nat, s: S)
    requires OccursAt(sys, n, s)
    ensures ReachIn(sys, n, sys.key(s))
  {
    if n > 0 {
      var r :| OccursAt(sys, n - 1, r) && IsStep(sys, r, s);
      OccursIsReached(sys, n - 1, r);
      var p :| p in sys.step(r) && p.state == s;
      assert StepsTo(sys, r, sys.key(s));
      assert KeyStep(sys, sys.key(r), sys.key(s));
    }
  }

  /** A key reached in `n` steps is the key of a state where a real run of `n` steps ends. */
  lemma {:induction false} ReachedOccurs<S(!new)>(sys: System<S>, n: nat, k: Key) returns (s: S)
    requires Congruent(sys) && ReachIn(sys, n, k)
    ensures OccursAt(sys, n, s) && sys.key(s) == k
  {
    if n == 0 {
      s :| s in sys.initial && sys.key(s) == k;
    } else {
      var a :| ReachIn(sys, n - 1, a) && KeyStep(sys, a, k);
      var r := ReachedOccurs(sys, n - 1, a);
      StoredStep(sys, r, k);
      var p :| p in sys.step(r) && sys.key(p.state) == k;
      s := p.state;
      assert IsStep(sys, r, s);
    }
  }

  // ---------------------------------------------------------------------------
  // Expansion of a chunk
  // ---------------------------------------------------------------------------

  datatype Edge<S> = Edge(preId: nat, pre: Key, preState: S, transition: nat, post: S, postKey: Key)

  ghost predicate InStore<S>(st: Store<S>, ids: seq<nat>) {
    forall i | 0 <= i < |ids| :: ids[i] < |st.states| && ids[i] < |st.canons|
  }

  ghost predicate Positioned(positions: map<nat, nat>, ids: seq<nat>) {
    forall i | 0 <= i < |ids| :: ids[i] in positions
  }

  function EdgeOf<S>(sys: System<S>, st: Store<S>, id: nat, p: Post<S>): Edge<S>
    requires id < |st.states| && id < |st.canons|
  {
    Edge(id, st.canons[id], st.states[id], p.transition, p.state, sys.key(p.state))
  }

  function CandidateOf<S>(sys: System<S>, id: nat, position: nat, p: Post<S>): Candidate<S> {
    Candidate(id, position, p.transition, p.rawBranch, p.stabBranch, p.state, sys.key(p.state))
  }

  function EdgesFrom<S>(sys: System<S>, st: Store<S>, id: nat, posts: seq<Post<S>>): seq<Edge<S>>
    requires id < |st.states| && id < |st.canons|
  {
    seq(|posts|, i requires 0 <= i < |posts| => EdgeOf(sys, st, id, posts[i]))
  }

  /** The posts whose key is not stored yet. */
  function CandidatesFrom<S>(sys: System<S>, st: Store<S>, id: nat, position: nat, posts: seq<Post<S>>): seq<Candidate<S>> {
    if posts == [] then [] else
    var n := |posts| - 1;
    CandidatesFrom(sys, st, id, position, posts[..n]) +
      if sys.key(posts[n].state) in st.ids then [] else [CandidateOf(sys, id, position, posts[n])]
  }

  function EdgesOfAll<S>(sys: System<S>, st: Store<S>, ids: seq<nat>): seq<Edge<S>>
    requires InStore(st, ids)
  {
    if ids == [] then [] else
    var n := |ids| - 1;
    EdgesOfAll(sys, st, ids[..n]) + EdgesFrom(sys, st, ids[n], sys.step(st.states[ids[n]]))
  }

  function CandidatesOfAll<S>(sys: System<S>, st: Store<S>, positions: map<nat, nat>, ids: seq<nat>): seq<Candidate<S>>
    requires InStore(st, ids) && Positioned(positions, ids)
  {
    if ids == [] then [] else
    var n := |ids| - 1;
    CandidatesOfAll(sys, st, positions, ids[..n]) +
      CandidatesFrom(sys, st, ids[n], positions[ids[n]], sys.step(st.states[ids[n]]))
  }

  method ExpandChunk<S>(sys: System<S>, chunk: seq<nat>, positions: map<nat, nat>, visited: VisitedSet<S>)
    returns (edges: seq<Edge<S>>, candidates: seq<Candidate<S>>)
    requires InStore(visited.View(), chunk) && Positioned(positions, chunk)
    ensures edges == EdgesOfAll(sys, visited.View(), chunk)
    ensures candidates == CandidatesOfAll(sys, visited.View(), positions, chunk)
  {
    edges, candidates := [], [];
    ghost var st := visited.View();
    for i := 0 to |chunk|
      invariant edges == EdgesOfAll(sys, st, chunk[..i])
      invariant candidates == CandidatesOfAll(sys, st, positions, chunk[..i])
    {
      var id := chunk[i];
      var pre := visited.states[id];
      var posts := sys.step(pre);
      ghost var edges0, candidates0 := edges, candidates;
      for j := 0 to |posts|
        invariant edges == edges0 + EdgesFrom(sys, st, id, posts[..j])
        invariant candidates == candidates0 + CandidatesFrom(sys, st, id, positions[id], posts[..j])
      {
        var p := posts[j];
        var postCanon := sys.key(p.state);
        assert posts[..j + 1][..j] == posts[..j];
        edges := edges + [Edge(id, visited.canonBytes[id], pre, p.transition, p.state, postCanon)];
        if postCanon !in visited.canonToId {
          candidates := candidates + [CandidateOf(sys, id, positions[id], p)];
        }
      }
      assert posts[..|posts|] == posts;
      assert chunk[..i + 1][..i] == chunk[..i];
    }
    assert chunk[..|chunk|] == chunk;
  }

  lemma {:induction false} SplitIds(a: seq<nat>, b: seq<nat>)
    ensures forall i | 0 <= i < |a| :: a[i] == (a + b)[i]
    ensures forall i | 0 <= i < |b| :: b[i] == (a + b)[|a| + i]
  {
  }

  lemma {:induction false} EdgesConcat<S>(sys: System<S>, st: Store<S>, a: seq<nat>, b: seq<nat>)
    requires InStore(st, a + b)
    ensures InStore(st, a) && InStore(st, b)
    ensures EdgesOfAll(sys, st, a + b) == EdgesOfAll(sys, st, a) + EdgesOfAll(sys, st, b)
    decreases |b|
  {
    SplitIds(a, b);
    if b == [] {
      assert a + b == a;
    } else {
      var n := |b| - 1;
      assert (a + b)[..|a| + n] == a + b[..n];
      EdgesConcat(sys, st, a, b[..n]);
    }
  }

  lemma {:induction false} CandidatesOfOneMore<S>(sys: System<S>, st: Store<S>, positions: map<nat, nat>, ids: seq<nat>, id: nat)
    requires InStore(st, ids + [id]) && Positioned(positions, ids + [id])
    ensures InStore(st, ids) && Positioned(positions, ids)
    ensures id < |st.states| && id in positions
    ensures CandidatesOfAll(sys, st, positions, ids + [id]) ==
            CandidatesOfAll(sys, st, positions, ids) +
            CandidatesFrom(sys, st, id, positions[id], sys.step(st.states[id]))
  {
    SplitIds(ids, [id]);
    assert (ids + [id])[..|ids|] == ids;
    assert (ids + [id])[|ids|] == id;
  }

  lemma {:induction false} CandidatesConcat<S>(sys: System<S>, st: Store<S>, positions: map<nat, nat>, a: seq<nat>, b: seq<nat>)
    requires InStore(st, a + b) && Positioned(positions, a + b)
    ensures InStore(st, a) && InStore(st, b) && Positioned(positions, a) && Positioned(positions, b)
    ensures CandidatesOfAll(sys, st, positions, a + b) ==
            CandidatesOfAll(sys, st, positions, a) + CandidatesOfAll(sys, st, positions, b)
    decreases |b|
  {
    SplitIds(a, b);
    if b == [] {
      assert a + b == a;
    } else {
      var init, last := b[..|b| - 1], b[|b| - 1];
      assert a + b == (a + init) + [last];
      assert b == init + [last];
      CandidatesOfOneMore(sys, st, positions, a + init, last);
      CandidatesOfOneMore(sys, st, positions, init, last);
      CandidatesConcat(sys, st, positions, a, init);
    }
  }

  // ---------------------------------------------------------------------------
  // Parallel expansion of a frontier
  // ---------------------------------------------------------------------------

  /** The last position of every id. */
  function PositionsOf(frontier: seq<nat>): map<nat, nat> {
    if frontier == [] then map[] else
    var n := |frontier| - 1;
    PositionsOf(frontier[..n])[frontier[n] := n]
  }

  lemma {:induction false} PositionsCover(frontier: seq<nat>)
    ensures Positioned(PositionsOf(frontier), frontier)
  {
    if frontier != [] {
      PositionsCover(frontier[..|frontier| - 1]);
    }
  }

  /** The outputs of the workers, joined: the same for every number of workers. */
  method ExpandFrontier<S>(sys: System<S>, frontier: seq<nat>, workerCount: nat, visited: VisitedSet<S>)
    returns (edges: seq<Edge<S>>, candidates: seq<Candidate<S>>)
    requires InStore(visited.View(), frontier)
    ensures edges == EdgesOfAll(sys, visited.View(), frontier)
    ensures Positioned(PositionsOf(frontier), frontier)
    ensures candidates == CandidatesOfAll(sys, visited.View(), PositionsOf(frontier), frontier)
  {
    ghost var st := visited.View();
    PositionsCover(frontier);
    var positions: map<nat, nat> := map[];
    for i := 0 to |frontier|
      invariant positions == PositionsOf(frontier[..i])
    {
      assert frontier[..i + 1][..i] == frontier[..i];
      positions := positions[frontier[i] := i];
    }
    assert frontier[..|frontier|] == frontier;
    var chunks := ChunkFrontier(frontier, workerCount);
    edges, candidates := [], [];
    for i := 0 to |chunks|
      invariant Joined(sys, st, positions, Concat(chunks[..i]), edges, candidates)
    {
      NextChunk(st, positions, chunks, i);
      var e, c := ExpandChunk(sys, chunks[i], positions, visited);
      JoinedMore(sys, st, positions, Concat(chunks[..i]), chunks[i], edges, candidates, e, c);
      edges, candidates := edges + e, candidates + c;
    }
    assert chunks[..|chunks|] == chunks;
  }

  /** The outputs joined so far are those of expanding these ids. */
  ghost predicate Joined<S>(sys: System<S>, st: Store<S>, positions: map<nat, nat>, ids: seq<nat>,
                            edges: seq<Edge<S>>, candidates: seq<Candidate<S>>)
  {
    && InStore(st, ids) && Positioned(positions, ids)
    && edges == EdgesOfAll(sys, st, ids) && candidates == CandidatesOfAll(sys, st, positions, ids)
  }

  lemma {:induction false} JoinedMore<S>(sys: System<S>, st: Store<S>, positions: map<nat, nat>, done: seq<nat>, more: seq<nat>,
                                         edges: seq<Edge<S>>, candidates: seq<Candidate<S>>, e: seq<Edge<S>>, c: seq<Candidate<S>>)
    requires Joined(sys, st, positions, done, edges, candidates) && Joined(sys, st, positions, more, e, c)
    ensures Joined(sys, st, positions, done + more, edges + e, candidates + c)
  {
    SplitIds(done, more);
    assert InStore(st, done + more) && Positioned(positions, done + more);
    EdgesConcat(sys, st, done, more);
    CandidatesConcat(sys, st, positions, done, more);
  }

  lemma {:induction false} NextChunk<S>(st: Store<S>, positions: map<nat, nat>, chunks: seq<seq<nat>>, i: nat)
    requires i < |chunks| && InStore(st, Concat(chunks)) && Positioned(positions, Concat(chunks))
    ensures InStore(st, chunks[i]) && Positioned(positions, chunks[i])
    ensures Concat(chunks[..i + 1]) == Concat(chunks[..i]) + chunks[i]
  {
    ConcatPrefix(chunks, i);
    SplitIds(Concat(chunks[..i]), chunks[i]);
  }

  lemma {:induction false} ConcatPrefix(chunks: seq<seq<nat>>, i: nat)
    requires i < |chunks|
    ensures Concat(chunks[..i + 1]) == Concat(chunks[..i]) + chunks[i]
    ensures Concat(chunks[..i + 1]) <= Concat(chunks)
    decreases |chunks|
  {
    assert chunks[..i + 1][..i] == chunks[..i];
    if i + 1 == |chunks| {
      assert chunks[..i + 1] == chunks;
    } else {
      var rest := chunks[..|chunks| - 1];
      ConcatPrefix(rest, i);
      assert rest[..i + 1] == chunks[..i + 1];
    }
  }

  // ---------------------------------------------------------------------------
  // Recording and observing the generated edges
  // ---------------------------------------------------------------------------

  predicate EdgeLeq<S>(a: Edge<S>, b: Edge<S>) {
    if a.pre != b.pre then Leq(a.pre, b.pre)
    else if a.transition != b.transition then a.transition < b.transition
    else Leq(a.postKey, b.postKey)
  }

  function ByEdge<S>(): (Edge<S>, Edge<S>) -> bool {
    (a: Edge<S>, b: Edge<S>) => EdgeLeq(a, b)
  }

  lemma {:induction false} EdgesAreTotal<S(!new)>()
    ensures TotalOrder(ByEdge<S>())
  {
    forall a: Edge<S>, b: Edge<S>
      ensures EdgeLeq(a, b) || EdgeLeq(b, a)
    {
      LeqTotal(a.pre, b.pre);
      LeqTotal(a.postKey, b.postKey);
    }
    forall a: Edge<S>, b: Edge<S>, c: Edge<S> | EdgeLeq(a, b) && EdgeLeq(b, c)
      ensures EdgeLeq(a, c)
    {
      EdgeTrans(a, b, c);
    }
  }

  lemma {:induction false} EdgeTrans<S>(a: Edge<S>, b: Edge<S>, c: Edge<S>)
    requires EdgeLeq(a, b) && EdgeLeq(b, c)
    ensures EdgeLeq(a, c)
  {
    if a.pre != b.pre && b.pre != c.pre {
      LeqTrans(a.pre, b.pre, c.pre);
      if a.pre == c.pre {
        LeqAntisym(a.pre, b.pre);
      }
    }
    if a.postKey != b.postKey || b.postKey != c.postKey {
      if Leq(a.postKey, b.postKey) && Leq(b.postKey, c.postKey) {
        LeqTrans(a.postKey, b.postKey, c.postKey);
      }
    }
  }

  /** Edges are observed by the key they leave, then by transition, then by the key they enter. */
  lemma {:induction false} EdgesInOrder<S(!new)>(edges: seq<Edge<S>>, i: nat, j: nat)
    requires i < j < |Sort(ByEdge(), edges)|
    ensures var e, f := Sort(ByEdge(), edges)[i], Sort(ByEdge(), edges)[j];
            && Precedes(e.pre, f.pre)
            && (e.pre == f.pre ==> e.transition <= f.transition)
            && (e.pre == f.pre && e.transition == f.transition ==> Precedes(e.postKey, f.postKey))
  {
    EdgesAreTotal<S>();
    SortSorts(ByEdge(), edges);
    var e, f := Sort(ByEdge(), edges)[i], Sort(ByEdge(), edges)[j];
    assert ByEdge()(e, f);
    LeqIsLexicographic(e.pre, f.pre);
    LeqIsLexicographic(e.postKey, f.postKey);
  }

  /** Every verdict found so far was found on one of these edges. */
  ghost predicate Grounded<S, P>(properties: seq<Property<S, P>>, edges: seq<Edge<S>>, verdicts: Verdicts<S>) {
    forall name | name in verdicts ::
      exists e :: e in edges && FoundOn(properties, name, verdicts[name], e.preState, e.transition, e.post)
  }

  /** Every property without a verdict passes on all of these edges. */
  ghost predicate Cleared<S, P>(properties: seq<Property<S, P>>, edges: seq<Edge<S>>, verdicts: Verdicts<S>) {
    forall p, e | p in properties && p.name !in verdicts && e in edges :: Passes(p, e.preState, e.transition, e.post)
  }

  lemma {:induction false} ObservedOneMore<S, P>(properties: seq<Property<S, P>>, edges: seq<Edge<S>>, e: Edge<S>,
                              before: Verdicts<S>, after: Verdicts<S>)
    requires Grounded(properties, edges, before) && Cleared(properties, edges, before)
    requires forall name | name in before :: name in after && after[name] == before[name]
    requires forall name | name in after && name !in before ::
               FoundOn(properties, name, after[name], e.preState, e.transition, e.post)
    requires forall p | p in properties :: p.name in after || Passes(p, e.preState, e.transition, e.post)
    ensures Grounded(properties, edges + [e], after) && Cleared(properties, edges + [e], after)
  {
    forall name | name in after
      ensures exists d :: d in edges + [e] && FoundOn(properties, name, after[name], d.preState, d.transition, d.post)
    {
      if name in before {
        var d :| d in edges && FoundOn(properties, name, before[name], d.preState, d.transition, d.post);
        assert d in edges + [e];
      } else {
        assert e in edges + [e];
      }
    }
  }

  /** The verdicts account for these edges: each was found on one of them, and nothing else failed. */
  ghost predicate Explains<S, P>(properties: seq<Property<S, P>>, edges: seq<Edge<S>>, verdicts: Verdicts<S>) {
    Grounded(properties, edges, verdicts) && Cleared(properties, edges, verdicts)
  }

  /** The graph after recording `edges` on top of `graph`. */
  function Record<S>(recording: bool, graph: seq<(Key, Key)>, edges: seq<Edge<S>>): seq<(Key, Key)> {
    if !recording || edges == [] then graph else
    var n := |edges| - 1;
    Record(recording, graph, edges[..n]) + [(edges[n].pre, edges[n].postKey)]
  }

  /** A recorded edge and the response properties it sets off. */
  datatype CompactEdge = CompactEdge(pre: Key, post: Key, transition: nat, triggered: seq<string>)

  predicate RecordsCompact<S, P>(properties: seq<Property<S, P>>) {
    exists i | 0 <= i < |properties| :: properties[i].LeadsToWithin?
  }

  /** The names of the response properties that an edge sets off. */
  function Triggered<S, P>(properties: seq<Property<S, P>>, e: Edge<S>): seq<string> {
    if properties == [] then [] else
    var n := |properties| - 1;
    Triggered(properties[..n], e) +
      if Fires(properties[n], e.preState, e.transition, e.post) then [properties[n].name] else []
  }

  function CompactOf<S, P>(properties: seq<Property<S, P>>, e: Edge<S>): CompactEdge {
    CompactEdge(e.pre, e.postKey, e.transition, Triggered(properties, e))
  }

  /** The compact edges after recording `edges` on top of `compact`. */
  function RecordCompact<S, P>(properties: seq<Property<S, P>>, compact: seq<CompactEdge>, edges: seq<Edge<S>>): seq<CompactEdge> {
    if !RecordsCompact(properties) || edges == [] then compact else
    var n := |edges| - 1;
    RecordCompact(properties, compact, edges[..n]) + [CompactOf(properties, edges[n])]
  }

  /** What is recorded of the edges: the adjacency for labelling, and the edges with the responses they set off. */
  datatype Recording = Recording(graph: seq<(Key, Key)>, compact: seq<CompactEdge>)

  const NOTHING_RECORDED: Recording := Recording([], [])

  function RecordOne<S, P>(properties: seq<Property<S, P>>, rec: Recording, e: Edge<S>): Recording {
    Recording(if RecordsEdges(properties) then rec.graph + [(e.pre, e.postKey)] else rec.graph,
              if RecordsCompact(properties) then rec.compact + [CompactOf(properties, e)] else rec.compact)
  }

  function RecordAll<S, P>(properties: seq<Property<S, P>>, rec: Recording, edges: seq<Edge<S>>): Recording {
    if edges == [] then rec else
    var n := |edges| - 1;
    RecordOne(properties, RecordAll(properties, rec, edges[..n]), edges[n])
  }

  /** The recording of some edges is their adjacency and their triggers, as far as any property needs them. */
  lemma {:induction false} RecordAllIs<S, P>(properties: seq<Property<S, P>>, edges: seq<Edge<S>>)
    ensures RecordAll(properties, NOTHING_RECORDED, edges) ==
            Recording(Record(RecordsEdges(properties), [], edges), RecordCompact(properties, [], edges))
  {
    if edges != [] {
      RecordAllIs(properties, edges[..|edges| - 1]);
    }
  }

  lemma {:induction false} TriggeredHas<S, P>(properties: seq<Property<S, P>>, e: Edge<S>, name: string)
    ensures name in Triggered(properties, e) <==>
            exists p :: p in properties && p.name == name && Fires(p, e.preState, e.transition, e.post)
  {
    if properties != [] {
      var n := |properties| - 1;
      TriggeredHas(properties[..n], e, name);
      assert properties == properties[..n] + [properties[n]];
    }
  }

  lemma {:induction false} CompactHas<S, P>(properties: seq<Property<S, P>>, edges: seq<Edge<S>>, c: CompactEdge)
    requires RecordsCompact(properties)
    ensures c in RecordCompact(properties, [], edges) <==> exists e :: e in edges && c == CompactOf(properties, e)
  {
    if edges != [] {
      var n := |edges| - 1;
      CompactHas(properties, edges[..n], c);
      assert edges == edges[..n] + [edges[n]];
    }
  }

  method ObserveOne<S, P>(properties: seq<Property<S, P>>, e: Edge<S>, ghost seen: seq<Edge<S>>, before: Verdicts<S>)
    returns (after: Verdicts<S>)
    requires Explains(properties, seen, before)
    ensures Explains(properties, seen + [e], after)
  {
    after := ObserveEdge(properties, e.preState, e.transition, e.post, before);
    ObservedOneMore(properties, seen, e, before, after);
  }

  /** What a (possibly cut short) pass over the generated edges leaves. */
  datatype Recorded<S> = Recorded(count: nat, rec: Recording, verdicts: Verdicts<S>, limit: Option<Limit>, terminal: bool)

  method RecordEdges<S, P>(properties: seq<Property<S, P>>, options: Options, stored: nat, startingEdges: nat,
                           edges: seq<Edge<S>>, rec0: Recording, ghost observed: seq<Edge<S>>,
                           verdicts0: Verdicts<S>, budgetLimit: Option<Limit>)
    returns (r: Recorded<S>)
    requires Explains(properties, observed, verdicts0)
    requires budgetLimit.None? ==> CheckSearchLimits(options, stored, startingEdges, 0).None?
    ensures r.count <= |edges| && r.rec == RecordAll(properties, rec0, edges[..r.count])
    ensures budgetLimit.Some? ==> r.count == 0 && r.limit == budgetLimit
    ensures r.limit.None? && !r.terminal ==> r.count == |edges|
    ensures !AllTerminal(properties, verdicts0) ==> (r.terminal <==> AllTerminal(properties, r.verdicts))
    ensures r.limit.Some? && budgetLimit.None? ==> Reached(options, r.limit.value, stored, startingEdges + r.count, 0)
    ensures r.terminal ==> AllTerminal(properties, r.verdicts)
    ensures r.limit.None? ==> r.terminal || CheckSearchLimits(options, stored, startingEdges + r.count, 0).None?
    ensures options.maxEdges.Some? && r.count > 0 ==> startingEdges + r.count <= options.maxEdges.value
    ensures Explains(properties, observed + edges[..r.count], r.verdicts)
  {
    var rec, verdicts, limit, terminal := rec0, verdicts0, budgetLimit, false;
    var i := 0;
    ghost var seen := observed;
    while i < |edges| && limit.None? && !terminal
      invariant i <= |edges| && rec == RecordAll(properties, rec0, edges[..i])
      invariant seen == observed + edges[..i] && Explains(properties, seen, verdicts)
      invariant budgetLimit.Some? ==> i == 0 && limit == budgetLimit && !terminal && verdicts == verdicts0
      invariant budgetLimit.None? ==> Observed(properties, options, stored, startingEdges + i, i == 0, verdicts0, verdicts, limit, terminal)
      decreases |edges| - i
    {
      var e := edges[i];
      assert edges[..i + 1][..i] == edges[..i];
      rec := RecordOne(properties, rec, e);
      verdicts, limit, terminal := ObserveNext(properties, options, stored, startingEdges + i, e, seen, verdicts0, verdicts);
      seen := seen + [e];
      i := i + 1;
    }
    r := Recorded(i, rec, verdicts, limit, terminal);
  }

  /** After observing edges up to a total of `edges`: the pass goes on, is over, or is stopped by a limit. */
  ghost predicate Observed<S, P>(properties: seq<Property<S, P>>, options: Options, stored: nat, edges: nat, none: bool,
                                 verdicts0: Verdicts<S>, verdicts: Verdicts<S>, limit: Option<Limit>, terminal: bool)
  {
    && (if none then verdicts == verdicts0 && !terminal else terminal <==> AllTerminal(properties, verdicts))
    && (limit.Some? ==> Reached(options, limit.value, stored, edges, 0) && !terminal)
    && (limit.None? && !terminal ==> WithinBounds(options, stored, edges, 0))
    && (options.maxEdges.Some? && !none ==> edges <= options.maxEdges.value)
  }

  /** Observe one edge, then see whether the pass goes on. */
  method ObserveNext<S, P>(properties: seq<Property<S, P>>, options: Options, stored: nat, before: nat, e: Edge<S>,
                           ghost seen: seq<Edge<S>>, ghost verdicts0: Verdicts<S>, known: Verdicts<S>)
    returns (verdicts: Verdicts<S>, limit: Option<Limit>, terminal: bool)
    requires Explains(properties, seen, known) && WithinBounds(options, stored, before, 0)
    ensures Explains(properties, seen + [e], verdicts)
    ensures Observed(properties, options, stored, before + 1, false, verdicts0, verdicts, limit, terminal)
  {
    verdicts := ObserveOne(properties, e, seen, known);
    terminal := AllTerminal(properties, verdicts);
    limit := if terminal then None else CheckSearchLimits(options, stored, before + 1, 0);
  }

  // ---------------------------------------------------------------------------
  // Merging
  // ---------------------------------------------------------------------------

  ghost predicate ParentsIn<S>(st: Store<S>, cs: seq<Candidate<S>>) {
    forall i | 0 <= i < |cs| :: cs[i].parentId < |st.canons|
  }

  function CanonsOf<S>(cs: seq<Candidate<S>>): seq<Key> {
    seq(|cs|, i requires 0 <= i < |cs| => cs[i].canon)
  }

  function StatesOf<S>(cs: seq<Candidate<S>>): seq<S> {
    seq(|cs|, i requires 0 <= i < |cs| => cs[i].state)
  }

  /** The store after inserting candidates in order. */
  ghost function AddAll<S>(st: Store<S>, cs: seq<Candidate<S>>): (r: Store<S>)
    requires ParentsIn(st, cs)
    ensures r.canons == st.canons + CanonsOf(cs) && r.states == st.states + StatesOf(cs)
  {
    if cs == [] then st else
    var n := |cs| - 1;
    var r := AddAll(st, cs[..n]);
    assert CanonsOf(cs) == CanonsOf(cs[..n]) + [cs[n].canon] && StatesOf(cs) == StatesOf(cs[..n]) + [cs[n].state];
    r.AddChild(cs[n])
  }

  /** Candidates with distinct keys, none of them stored, each under its own key. */
  ghost predicate Insertable<S>(st: Store<S>, key: S -> Key, cs: seq<Candidate<S>>) {
    && ParentsIn(st, cs)
    && (forall i | 0 <= i < |cs| :: cs[i].canon !in st.canons && cs[i].canon == key(cs[i].state))
    && forall i, j | 0 <= i < j < |cs| :: cs[i].canon != cs[j].canon
  }

  lemma {:induction false} StoredCanon<S>(st: Store<S>, key: S -> Key, k: Key)
    requires st.Valid(key)
    ensures k in st.ids <==> k in st.canons
  {
  }

  lemma {:induction false} LastIsNew<S>(st: Store<S>, key: S -> Key, cs: seq<Candidate<S>>)
    requires Insertable(st, key, cs) && cs != []
    ensures Insertable(st, key, cs[..|cs| - 1])
    ensures cs[|cs| - 1].canon !in st.canons + CanonsOf(cs[..|cs| - 1])
  {
  }

  lemma {:induction false} AddAllValid<S>(st: Store<S>, key: S -> Key, cs: seq<Candidate<S>>)
    requires st.Valid(key) && Insertable(st, key, cs)
    ensures AddAll(st, cs).Valid(key)
  {
    if cs != [] {
      var n := |cs| - 1;
      LastIsNew(st, key, cs);
      AddAllValid(st, key, cs[..n]);
      var r := AddAll(st, cs[..n]);
      StoredCanon(r, key, cs[n].canon);
      AddChildValid(r, key, cs[n]);
    }
  }

  /** Old entries of the parent table stay; new keys get their candidate's parent and transition. */
  lemma {:induction false} AddAllParents<S>(st: Store<S>, key: S -> Key, cs: seq<Candidate<S>>)
    requires st.Valid(key) && Insertable(st, key, cs)
    ensures forall k | k in st.canons :: k in AddAll(st, cs).parents && AddAll(st, cs).parents[k] == st.parents[k]
    ensures forall i | 0 <= i < |cs| :: cs[i].canon in AddAll(st, cs).parents &&
              AddAll(st, cs).parents[cs[i].canon] == Parent(Some(st.canons[cs[i].parentId]), Some(cs[i].transition))
  {
    if cs != [] {
      var n := |cs| - 1;
      LastIsNew(st, key, cs);
      AddAllParents(st, key, cs[..n]);
      var r := AddAll(st, cs[..n]);
      assert r.AddChild(cs[n]).parents == r.parents[cs[n].canon := Parent(Some(r.canons[cs[n].parentId]), Some(cs[n].transition))];
    }
  }

  /** The ids handed out to new states when `from` are stored. */
  ghost predicate NewIds(from: nat, ids: seq<nat>) {
    forall i | 0 <= i < |ids| :: ids[i] == from + i
  }

  lemma {:induction false} KeptInsertable<S(!new)>(st: Store<S>, key: S -> Key, known: set<Key>, sorted: seq<Candidate<S>>)
    requires (forall k | k in st.canons :: k in known) && ParentsIn(st, sorted)
    requires forall i | 0 <= i < |sorted| :: sorted[i].canon == key(sorted[i].state)
    ensures Insertable(st, key, Kept(known, sorted))
    decreases |sorted|
  {
    if sorted != [] {
      var head, rest := sorted[0], sorted[1..];
      if head.canon in known {
        KeptInsertable(st, key, known, rest);
      } else {
        KeptInsertable(st, key, known + {head.canon}, rest);
        var cs := Kept(known + {head.canon}, rest);
        forall i | 0 <= i < |cs|
          ensures cs[i].canon != head.canon
        {
          KeptIsNew(known + {head.canon}, rest, cs[i]);
        }
      }
    }
  }

  lemma {:induction false} InsertablePrefix<S>(st: Store<S>, key: S -> Key, cs: seq<Candidate<S>>, n: nat)
    requires Insertable(st, key, cs) && n <= |cs|
    ensures Insertable(st, key, cs[..n])
  {
  }

  lemma {:induction false} KeptIsFewer<S>(known: set<Key>, sorted: seq<Candidate<S>>)
    ensures |Kept(known, sorted)| <= |sorted|
    decreases |sorted|
  {
    if sorted != [] {
      KeptIsFewer(if sorted[0].canon in known then known else known + {sorted[0].canon}, sorted[1..]);
    }
  }

  /** Inserting candidates adds at most one key each. */
  lemma {:induction false} AddAllCount<S>(st: Store<S>, cs: seq<Candidate<S>>)
    requires ParentsIn(st, cs)
    ensures |AddAll(st, cs).ids| <= |st.ids| + |cs|
  {
    if cs != [] {
      var n := |cs| - 1;
      AddAllCount(st, cs[..n]);
      var before := AddAll(st, cs[..n]);
      OneMoreKey(before.ids, cs[n].canon, |before.states|);
    }
  }

  lemma {:induction false} OneMoreKey(ids: map<Key, nat>, k: Key, id: nat)
    ensures |ids[k := id]| <= |ids| + 1
  {
    assert ids[k := id].Keys == ids.Keys + {k};
  }

  /** Where the merge loop stands: `n` survivors inserted, `rest` still to come. */
  ghost predicate Merging<S>(st: Store<S>, kept: seq<Candidate<S>>, now: Store<S>, n: nat, rest: seq<Candidate<S>>)
    requires ParentsIn(st, kept)
  {
    n <= |kept| && now == AddAll(st, kept[..n]) && kept[n..] == Kept(now.ids.Keys, rest)
  }

  lemma {:induction false} MergeSkip<S>(st: Store<S>, kept: seq<Candidate<S>>, now: Store<S>, n: nat, rest: seq<Candidate<S>>)
    requires ParentsIn(st, kept) && Merging(st, kept, now, n, rest)
    requires rest != [] && rest[0].canon in now.ids
    ensures Merging(st, kept, now, n, rest[1..])
  {
  }

  lemma {:induction false} MergeTake<S>(st: Store<S>, kept: seq<Candidate<S>>, now: Store<S>, n: nat, rest: seq<Candidate<S>>)
    requires ParentsIn(st, kept) && Merging(st, kept, now, n, rest)
    requires rest != [] && rest[0].canon !in now.ids
    ensures n < |kept| && kept[n] == rest[0] && rest[0].parentId < |now.canons|
    ensures Merging(st, kept, now.AddChild(rest[0]), n + 1, rest[1..])
  {
    assert kept[n..][0] == rest[0];
    assert kept[..n + 1][..n] == kept[..n];
    assert kept[n + 1..] == kept[n..][1..];
    assert now.AddChild(rest[0]).ids.Keys == now.ids.Keys + {rest[0].canon};
  }

  method TakeSurvivor<S>(c: Candidate<S>, visited: VisitedSet<S>, next0: seq<nat>,
                         ghost st: Store<S>, ghost kept: seq<Candidate<S>>, ghost rest: seq<Candidate<S>>)
    returns (next: seq<nat>)
    requires |st.states| == |st.canons| && ParentsIn(st, kept)
    requires Merging(st, kept, visited.View(), |next0|, rest) && NewIds(|st.canons|, next0)
    requires rest != [] && rest[0] == c && c.canon !in visited.canonToId
    modifies visited
    ensures Merging(st, kept, visited.View(), |next|, rest[1..]) && NewIds(|st.canons|, next)
    ensures visited.Len() == old(visited.Len()) + 1 && |next| == |next0| + 1
  {
    MergeTake(st, kept, visited.View(), |next0|, rest);
    assert |visited.states| == |st.canons| + |next0|;
    var id := visited.InsertChild(c);
    next := next0 + [id];
  }

  method MergeSorted<S(!new)>(sorted: seq<Candidate<S>>, visited: VisitedSet<S>, options: Options, edges: nat)
    returns (next: seq<nat>, limit: Option<Limit>)
    requires |visited.states| == |visited.canonBytes|
    requires ParentsIn(visited.View(), Kept(visited.canonToId.Keys, sorted))
    modifies visited
    ensures var kept := Kept(old(visited.canonToId.Keys), sorted);
            && |next| <= |kept| && (limit.None? ==> |next| == |kept|)
            && visited.View() == AddAll(old(visited.View()), kept[..|next|])
            && NewIds(old(|visited.canonBytes|), next)
    ensures options.maxStates.Some? ==> visited.Len() <= options.maxStates.value || visited.Len() == old(visited.Len())
    ensures limit.Some? ==> Reached(options, limit.value, visited.Len(), edges, |next|)
  {
    next, limit := [], None;
    ghost var st := visited.View();
    ghost var kept := Kept(st.ids.Keys, sorted);
    var i := 0;
    while i < |sorted|
      invariant i <= |sorted| && limit.None?
      invariant Merging(st, kept, visited.View(), |next|, sorted[i..]) && NewIds(|st.canons|, next)
      invariant options.maxStates.Some? ==> visited.Len() <= options.maxStates.value || visited.Len() == |st.ids|
    {
      ghost var rest := sorted[i..];
      if sorted[i].canon in visited.canonToId {
        MergeSkip(st, kept, visited.View(), |next|, rest);
      } else {
        limit := CheckSearchLimits(options, visited.Len(), edges, |next|);
        if limit.Some? {
          break;
        }
        next := TakeSurvivor(sorted[i], visited, next, st, kept, rest);
      }
      i := i + 1;
    }
  }
}
