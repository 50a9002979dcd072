/** The visited set and the deterministic merge of worker results
    (crates/checker/src/visited.rs, crates/checker/src/frontier.rs). */
module Visited {
  import opened Bytes
  import opened Mapping
  import opened Sorting
  import opened Wrappers

  datatype Parent = Parent(parent: Option<Key>, transition: Option<nat>)

  /** A freshly generated state waiting to be merged. */
  datatype Candidate<S> = Candidate(parentId: nat, position: nat, transition: nat, rawBranch: nat, stabBranch: nat,
                                    state: S, canon: Key)

  // ---------------------------------------------------------------------------
  // The store
  // ---------------------------------------------------------------------------

  /** The contents of a visited set, as a value. */
  datatype Store<S> = Store(states: seq<S>, canons: seq<Key>, ids: map<Key, nat>,
                            parents: map<Key, Parent>, byCanon: map<Key, S>)
  {
    function AddSeed(state: S, canon: Key): Store<S> {
      if canon in ids then this else
      Store(states + [state], canons + [canon], ids[canon := |states|],
            parents[canon := Parent(None, None)], byCanon[canon := state])
    }

    function AddChild(c: Candidate<S>): Store<S>
      requires c.parentId < |canons|
    {
      Store(states + [c.state], canons + [c.canon], ids[c.canon := |states|],
            parents[c.canon := Parent(Some(canons[c.parentId]), Some(c.transition))], byCanon[c.canon := c.state])
    }

    /** The three indexes and the arena agree, and every state sits under its own key. */
    ghost predicate Valid(key: S -> Key) {
      && |states| == |canons|
      && ids.Keys == parents.Keys == byCanon.Keys
      && (forall k | k in ids :: ids[k] < |canons| && canons[ids[k]] == k && byCanon[k] == states[ids[k]])
      && (forall i | 0 <= i < |canons| :: canons[i] in ids && ids[canons[i]] == i)
      && (forall i | 0 <= i < |canons| :: key(states[i]) == canons[i])
    }
  }

  const EMPTY_IDS: map<Key, nat> := map[]

  function EmptyStore<S>(): Store<S> {
    Store([], [], EMPTY_IDS, map[], map[])
  }

  lemma {:induction false} AddSeedValid<S>(st: Store<S>, key: S -> Key, state: S)
    requires st.Valid(key)
    ensures st.AddSeed(state, key(state)).Valid(key)
  {
    var canon := key(state);
    if canon !in st.ids {
      var next := st.AddSeed(state, canon);
      forall i | 0 <= i < |next.canons|
        ensures next.canons[i] in next.ids && next.ids[next.canons[i]] == i
        ensures key(next.states[i]) == next.canons[i]
      {
        if i < |st.canons| {
          assert next.canons[i] == st.canons[i] && next.states[i] == st.states[i];
        }
      }
      forall k | k in next.ids
        ensures next.ids[k] < |next.canons| && next.canons[next.ids[k]] == k
        ensures next.byCanon[k] == next.states[next.ids[k]]
      {
        if k != canon {
          assert k in st.ids;
        }
      }
    }
  }

  lemma {:induction false} AddChildValid<S>(st: Store<S>, key: S -> Key, c: Candidate<S>)
    requires st.Valid(key) && c.parentId < |st.canons| && c.canon == key(c.state) && c.canon !in st.ids
    ensures st.AddChild(c).Valid(key)
  {
  }

  /** The number of keys is the number of stored states. */
  lemma {:induction false} LenIsArena<S>(st: Store<S>, key: S -> Key)
    requires st.Valid(key)
    ensures |st.ids| == |st.canons|
  {
    DistinctCount(st.canons, st.ids);
    assert st.ids.Keys == set k | k in st.canons;
  }

  lemma {:induction false} DistinctCount(canons: seq<Key>, ids: map<Key, nat>)
    requires forall i | 0 <= i < |canons| :: canons[i] in ids && ids[canons[i]] == i
    ensures |set k | k in canons| == |canons|
  {
    if canons != [] {
      var n := |canons| - 1;
      DistinctCount(canons[..n], ids);
      assert canons == canons[..n] + [canons[n]];
      assert (set k | k in canons) == (set k | k in canons[..n]) + {canons[n]};
      assert canons[n] !in canons[..n];
    }
  }

  class VisitedSet<S> {
    var states: seq<S>
    var canonBytes: seq<Key>
    var canonToId: map<Key, nat>
    var parentsByCanon: map<Key, Parent>
    var statesByCanon: map<Key, S>

    ghost function View(): Store<S>
      reads this
    {
      Store(states, canonBytes, canonToId, parentsByCanon, statesByCanon)
    }

    function Len(): nat
      reads this
    {
      |canonToId|
    }

    constructor ()
      ensures View() == EmptyStore()
    {
      states, canonBytes, canonToId, parentsByCanon, statesByCanon := [], [], map[], map[], map[];
    }

    method InsertSeed(state: S, canon: Key) returns (id: nat)
      modifies this
      ensures View() == old(View()).AddSeed(state, canon)
      ensures canon in canonToId && id == canonToId[canon]
      ensures Len() <= old(Len()) + 1
    {
      if canon in canonToId {
        return canonToId[canon];
      }
      id := |states|;
      states := states + [state];
      canonBytes := canonBytes + [canon];
      canonToId := canonToId[canon := id];
      parentsByCanon := parentsByCanon[canon := Parent(None, None)];
      statesByCanon := statesByCanon[canon := state];
    }

    method InsertChild(c: Candidate<S>) returns (id: nat)
      requires c.parentId < |canonBytes|
      modifies this
      ensures View() == old(View()).AddChild(c) && id == old(|states|)
    {
      id := |states|;
      states := states + [c.state];
      canonBytes := canonBytes + [c.canon];
      canonToId := canonToId[c.canon := id];
      var parentCanon := canonBytes[c.parentId];
      parentsByCanon := parentsByCanon[c.canon := Parent(Some(parentCanon), Some(c.transition))];
      statesByCanon := statesByCanon[c.canon := c.state];
    }
  }

  // ---------------------------------------------------------------------------
  // Candidate order
  // ---------------------------------------------------------------------------

  /** Key first, then discovery position: frontier, transition, raw branch, stabilisation branch. */
  predicate CandidateLeq<S>(a: Candidate<S>, b: Candidate<S>) {
    if a.canon != b.canon then Leq(a.canon, b.canon)
    else if a.position != b.position then a.position < b.position
    else if a.transition != b.transition then a.transition < b.transition
    else if a.rawBranch != b.rawBranch then a.rawBranch < b.rawBranch
    else a.stabBranch <= b.stabBranch
  }

  predicate ShardLeq<S>(shardOf: Key -> nat, a: Candidate<S>, b: Candidate<S>) {
    if shardOf(a.canon) != shardOf(b.canon) then shardOf(a.canon) < shardOf(b.canon) else CandidateLeq(a, b)
  }

  function ByCandidate<S>(): (Candidate<S>, Candidate<S>) -> bool {
    (a: Candidate<S>, b: Candidate<S>) => CandidateLeq(a, b)
  }

  function ByShard<S>(shardOf: Key -> nat): (Candidate<S>, Candidate<S>) -> bool {
    (a: Candidate<S>, b: Candidate<S>) => ShardLeq(shardOf, a, b)
  }

  lemma {:induction false} CandidateTotal<S>(a: Candidate<S>, b: Candidate<S>)
    ensures CandidateLeq(a, b) || CandidateLeq(b, a)
  {
    LeqTotal(a.canon, b.canon);
  }

  lemma {:induction false} CandidateTrans<S>(a: Candidate<S>, b: Candidate<S>, c: Candidate<S>)
    requires CandidateLeq(a, b) && CandidateLeq(b, c)
    ensures CandidateLeq(a, c)
  {
    if a.canon != b.canon && b.canon != c.canon {
      LeqTrans(a.canon, b.canon, c.canon);
      if a.canon == c.canon {
        LeqAntisym(a.canon, b.canon);
      }
    }
  }

  lemma {:induction false} OrdersAreTotal<S(!new)>(shardOf: Key -> nat)
    ensures TotalOrder(ByCandidate<S>()) && TotalOrder(ByShard<S>(shardOf))
  {
    forall a: Candidate<S>, b: Candidate<S> {
      CandidateTotal(a, b);
    }
    forall a: Candidate<S>, b: Candidate<S>, c: Candidate<S> | ByCandidate<S>()(a, b) && ByCandidate<S>()(b, c)
      ensures ByCandidate<S>()(a, c)
    {
      CandidateTrans(a, b, c);
    }
    forall a: Candidate<S>, b: Candidate<S>, c: Candidate<S> | ShardLeq(shardOf, a, b) && ShardLeq(shardOf, b, c)
      ensures ShardLeq(shardOf, a, c)
    {
      if CandidateLeq(a, b) && CandidateLeq(b, c) {
        CandidateTrans(a, b, c);
      }
    }
  }

  // ---------------------------------------------------------------------------
  // Sorting by shard
  // ---------------------------------------------------------------------------

  function InShard<S>(shardOf: Key -> nat, shard: nat, candidates: seq<Candidate<S>>): seq<Candidate<S>> {
    if candidates == [] then [] else
    var n := |candidates| - 1;
    InShard(shardOf, shard, candidates[..n]) +
      (if shardOf(candidates[n].canon) == shard then [candidates[n]] else [])
  }

  /** The shards below `count`, each sorted, one after the other. */
  function SortedShards<S>(shardOf: Key -> nat, count: nat, candidates: seq<Candidate<S>>): seq<Candidate<S>> {
    if count == 0 then [] else
    SortedShards(shardOf, count - 1, candidates) + Sort(ByCandidate(), InShard(shardOf, count - 1, candidates))
  }

  lemma {:induction false} InShardSnoc<S>(shardOf: Key -> nat, shard: nat, candidates: seq<Candidate<S>>, n: nat)
    requires n < |candidates|
    ensures InShard(shardOf, shard, candidates[..n + 1]) ==
            InShard(shardOf, shard, candidates[..n]) + if shardOf(candidates[n].canon) == shard then [candidates[n]] else []
  {
    assert candidates[..n + 1][..n] == candidates[..n];
  }

  method SortMergeCandidates<S>(shardOf: Key -> nat, shardCount: nat, candidates: seq<Candidate<S>>)
    returns (sorted: seq<Candidate<S>>)
    requires forall k :: shardOf(k) < shardCount
    ensures sorted == SortedShards(shardOf, shardCount, candidates)
  {
    var shards: seq<seq<Candidate<S>>> := seq(shardCount, i => []);
    for n := 0 to |candidates|
      invariant |shards| == shardCount
      invariant forall i | 0 <= i < shardCount :: shards[i] == InShard(shardOf, i, candidates[..n])
    {
      var shard := shardOf(candidates[n].canon);
      forall i | 0 <= i < shardCount {
        InShardSnoc(shardOf, i, candidates, n);
      }
      shards := shards[shard := shards[shard] + [candidates[n]]];
    }
    assert candidates[..|candidates|] == candidates;
    sorted := SortEach(shardOf, shardCount, candidates, shards);
  }

  method SortEach<S>(ghost shardOf: Key -> nat, shardCount: nat, ghost candidates: seq<Candidate<S>>,
                     shards: seq<seq<Candidate<S>>>)
    returns (sorted: seq<Candidate<S>>)
    requires |shards| == shardCount
    requires forall i | 0 <= i < shardCount :: shards[i] == InShard(shardOf, i, candidates)
    ensures sorted == SortedShards(shardOf, shardCount, candidates)
  {
    sorted := [];
    for i := 0 to shardCount
      invariant sorted == SortedShards(shardOf, i, candidates)
    {
      sorted := sorted + Sort(ByCandidate(), shards[i]);
    }
  }

  lemma {:induction false} InShardHas<S>(shardOf: Key -> nat, shard: nat, candidates: seq<Candidate<S>>, c: Candidate<S>)
    requires c in InShard(shardOf, shard, candidates)
    ensures shardOf(c.canon) == shard
  {
    var n := |candidates| - 1;
    if c in InShard(shardOf, shard, candidates[..n]) {
      InShardHas(shardOf, shard, candidates[..n], c);
    }
  }

  /** The candidates of the shards below `count`. */
  ghost function Below<S>(shardOf: Key -> nat, count: nat, candidates: seq<Candidate<S>>): multiset<Candidate<S>> {
    if count == 0 then multiset{} else
    Below(shardOf, count - 1, candidates) + multiset(InShard(shardOf, count - 1, candidates))
  }

  ghost function OneIf<S>(c: Candidate<S>, present: bool): multiset<Candidate<S>> {
    if present then multiset{c} else multiset{}
  }

  lemma {:induction false} InShardSnocBag<S>(shardOf: Key -> nat, shard: nat, candidates: seq<Candidate<S>>, c: Candidate<S>)
    ensures multiset(InShard(shardOf, shard, candidates + [c])) ==
            multiset(InShard(shardOf, shard, candidates)) + OneIf(c, shardOf(c.canon) == shard)
  {
    assert (candidates + [c])[..|candidates|] == candidates;
  }

  lemma {:induction false} BelowSnoc<S>(shardOf: Key -> nat, count: nat, candidates: seq<Candidate<S>>, c: Candidate<S>)
    ensures Below(shardOf, count, candidates + [c]) == Below(shardOf, count, candidates) + OneIf(c, shardOf(c.canon) < count)
  {
    if count > 0 {
      BelowSnoc(shardOf, count - 1, candidates, c);
      InShardSnocBag(shardOf, count - 1, candidates, c);
      AddBoth(Below(shardOf, count - 1, candidates), multiset(InShard(shardOf, count - 1, candidates)),
              c, shardOf(c.canon) < count - 1, shardOf(c.canon) == count - 1);
    }
  }

  lemma {:induction false} AddBoth<S>(a: multiset<Candidate<S>>, b: multiset<Candidate<S>>, c: Candidate<S>, inA: bool, inB: bool)
    requires !(inA && inB)
    ensures (a + OneIf(c, inA)) + (b + OneIf(c, inB)) == (a + b) + OneIf(c, inA || inB)
  {
  }

  lemma {:induction false} BelowAll<S>(shardOf: Key -> nat, count: nat, candidates: seq<Candidate<S>>)
    requires forall c | c in candidates :: shardOf(c.canon) < count
    ensures Below(shardOf, count, candidates) == multiset(candidates)
  {
    if candidates == [] {
      BelowNone<S>(shardOf, count);
    } else {
      var n := |candidates| - 1;
      assert candidates == candidates[..n] + [candidates[n]];
      BelowAll(shardOf, count, candidates[..n]);
      BelowSnoc(shardOf, count, candidates[..n], candidates[n]);
    }
  }

  lemma {:induction false} BelowNone<S>(shardOf: Key -> nat, count: nat)
    ensures Below<S>(shardOf, count, []) == multiset{}
  {
    if count > 0 {
      BelowNone<S>(shardOf, count - 1);
    }
  }

  lemma {:induction false} SortedShardsPermute<S(!new)>(shardOf: Key -> nat, count: nat, candidates: seq<Candidate<S>>)
    ensures multiset(SortedShards(shardOf, count, candidates)) == Below(shardOf, count, candidates)
  {
    if count > 0 {
      SortedShardsPermute(shardOf, count - 1, candidates);
      SortPermutes(ByCandidate(), InShard(shardOf, count - 1, candidates));
    }
  }

  lemma {:induction false} OneShard<S(!new)>(shardOf: Key -> nat, shard: nat, candidates: seq<Candidate<S>>)
    ensures Sorted(ByCandidate(), Sort(ByCandidate(), InShard(shardOf, shard, candidates)))
    ensures forall c | c in Sort(ByCandidate(), InShard(shardOf, shard, candidates)) :: shardOf(c.canon) == shard
  {
    var members := InShard(shardOf, shard, candidates);
    var last := Sort(ByCandidate(), members);
    OrdersAreTotal<S>(shardOf);
    SortSorts(ByCandidate(), members);
    SortPermutes(ByCandidate(), members);
    forall c | c in last
      ensures shardOf(c.canon) == shard
    {
      SameMembers(last, members, c);
      InShardHas(shardOf, shard, candidates, c);
    }
  }

  lemma {:induction false} SortedShardsSorted<S(!new)>(shardOf: Key -> nat, count: nat, candidates: seq<Candidate<S>>)
    ensures Sorted(ByShard(shardOf), SortedShards(shardOf, count, candidates))
    ensures forall c | c in SortedShards(shardOf, count, candidates) :: shardOf(c.canon) < count
  {
    if count > 0 {
      var before := SortedShards(shardOf, count - 1, candidates);
      var last := Sort(ByCandidate(), InShard(shardOf, count - 1, candidates));
      SortedShardsSorted(shardOf, count - 1, candidates);
      OneShard(shardOf, count - 1, candidates);
      var all := before + last;
      forall i, j | 0 <= i < j < |all|
        ensures ByShard(shardOf)(all[i], all[j])
      {
        if i >= |before| {
          assert ByCandidate()(last[i - |before|], last[j - |before|]);
        } else if j < |before| {
          assert ByShard(shardOf)(before[i], before[j]);
        } else {
          assert all[i] in before && all[j] in last;
        }
      }
    }
  }

  /** The merge order: a rearrangement of the candidates, sorted by shard and discovery. */
  lemma {:induction false} SortedShardsIsSort<S(!new)>(shardOf: Key -> nat, count: nat, candidates: seq<Candidate<S>>)
    requires forall k :: shardOf(k) < count
    ensures Sorted(ByShard(shardOf), SortedShards(shardOf, count, candidates))
    ensures multiset(SortedShards(shardOf, count, candidates)) == multiset(candidates)
  {
    SortedShardsSorted(shardOf, count, candidates);
    SortedShardsPermute(shardOf, count, candidates);
    BelowAll(shardOf, count, candidates);
  }

  // ---------------------------------------------------------------------------
  // Which candidates survive
  // ---------------------------------------------------------------------------

  /** The first candidate of every key not yet known, in order. */
  function Kept<S>(known: set<Key>, sorted: seq<Candidate<S>>): seq<Candidate<S>>
    decreases |sorted|
  {
    if sorted == [] then []
    else if sorted[0].canon in known then Kept(known, sorted[1..])
    else [sorted[0]] + Kept(known + {sorted[0].canon}, sorted[1..])
  }

  lemma {:induction false} KeptIsNew<S(!new)>(known: set<Key>, sorted: seq<Candidate<S>>, c: Candidate<S>)
    requires c in Kept(known, sorted)
    ensures c in sorted && c.canon !in known
    decreases |sorted|
  {
    if sorted[0].canon in known {
      KeptIsNew(known, sorted[1..], c);
    } else if c != sorted[0] {
      KeptIsNew(known + {sorted[0].canon}, sorted[1..], c);
    }
  }

  /** Every new key survives. */
  lemma {:induction false} KeptCovers<S(!new)>(known: set<Key>, sorted: seq<Candidate<S>>, d: Candidate<S>)
    returns (c: Candidate<S>)
    requires d in sorted && d.canon !in known
    ensures c in Kept(known, sorted) && c.canon == d.canon
    decreases |sorted|
  {
    if sorted[0].canon == d.canon {
      c := sorted[0];
    } else if sorted[0].canon in known {
      c := KeptCovers(known, sorted[1..], d);
    } else {
      c := KeptCovers(known + {sorted[0].canon}, sorted[1..], d);
    }
  }

  /** Where a candidate was discovered. */
  function Discovery<S>(c: Candidate<S>): seq<nat> {
    [c.position, c.transition, c.rawBranch, c.stabBranch]
  }

  lemma {:induction false} MergeIsByDiscovery<S>(c: Candidate<S>, d: Candidate<S>)
    requires c.canon == d.canon && CandidateLeq(c, d)
    ensures Lexicographic(Discovery(c), Discovery(d))
  {
    var a, b := Discovery(c), Discovery(d);
    if c.position != d.position {
      assert a[..0] == b[..0] && a[0] < b[0];
    } else if c.transition != d.transition {
      assert a[..1] == b[..1] && a[1] < b[1];
    } else if c.rawBranch != d.rawBranch {
      assert a[..2] == b[..2] && a[2] < b[2];
    } else if c.stabBranch != d.stabBranch {
      assert a[..3] == b[..3] && a[3] < b[3];
    }
  }

  /** The survivor of a key is the first of its candidates to be discovered: by frontier position, transition,
      raw branch and stabilisation branch. */
  lemma {:induction false} KeptIsFirst<S(!new)>(shardOf: Key -> nat, known: set<Key>, sorted: seq<Candidate<S>>,
                                                c: Candidate<S>, d: Candidate<S>)
    requires Sorted(ByShard(shardOf), sorted)
    requires c in Kept(known, sorted) && d in sorted && d.canon == c.canon
    ensures Lexicographic(Discovery(c), Discovery(d))
  {
    KeptIsLeast(shardOf, known, sorted, c, d);
    if c != d {
      MergeIsByDiscovery(c, d);
    }
  }

  /** The survivor of a key is the least of its candidates in merge order. */
  lemma {:induction false} KeptIsLeast<S(!new)>(shardOf: Key -> nat, known: set<Key>, sorted: seq<Candidate<S>>,
                                                c: Candidate<S>, d: Candidate<S>)
    requires Sorted(ByShard(shardOf), sorted)
    requires c in Kept(known, sorted) && d in sorted && d.canon == c.canon
    ensures c == d || CandidateLeq(c, d)
    decreases |sorted|
  {
    var head, rest := sorted[0], sorted[1..];
    assert Sorted(ByShard(shardOf), rest);
    if head.canon in known {
      KeptIsNew(known, sorted, c);
      KeptIsLeast(shardOf, known, rest, c, d);
    } else if c == head {
      if d != head {
        var i :| 0 <= i < |sorted| && sorted[i] == d;
        assert ByShard(shardOf)(sorted[0], sorted[i]);
      }
    } else {
      KeptIsNew(known + {head.canon}, rest, c);
      KeptIsLeast(shardOf, known + {head.canon}, rest, c, d);
    }
  }

  /** Merging is confluent: the survivors, in order, depend only on which candidates there are. */
  lemma {:induction false} MergeIsConfluent<S(!new)>(shardOf: Key -> nat, count: nat, known: set<Key>,
                                  candidates: seq<Candidate<S>>, shuffled: seq<Candidate<S>>)
    requires forall k :: shardOf(k) < count
    requires multiset(candidates) == multiset(shuffled)
    requires forall a, b | a in candidates && b in candidates && CandidateLeq(a, b) && CandidateLeq(b, a) :: a == b
    ensures Kept(known, SortedShards(shardOf, count, candidates)) == Kept(known, SortedShards(shardOf, count, shuffled))
  {
    var a, b := SortedShards(shardOf, count, candidates), SortedShards(shardOf, count, shuffled);
    SortedShardsIsSort(shardOf, count, candidates);
    SortedShardsIsSort(shardOf, count, shuffled);
    OrdersAreTotal<S>(shardOf);
    forall x, y | x in a && y in a && ByShard(shardOf)(x, y) && ByShard(shardOf)(y, x)
      ensures x == y
    {
      SameMembers(a, candidates, x);
      SameMembers(a, candidates, y);
    }
    SortedUnique(ByShard(shardOf), a, b);
  }

  // ---------------------------------------------------------------------------
  // Splitting the frontier
  // ---------------------------------------------------------------------------

  function Concat(chunks: seq<seq<nat>>): seq<nat> {
    if chunks == [] then [] else Concat(chunks[..|chunks| - 1]) + chunks[|chunks| - 1]
  }

  /** Contiguous chunks, one per worker at most; together they are the frontier. */
  method ChunkFrontier(frontier: seq<nat>, workerCount: nat) returns (chunks: seq<seq<nat>>)
    ensures Concat(chunks) == frontier
    ensures |chunks| <= (if workerCount < 1 then 1 else workerCount)
    ensures forall c | c in chunks :: |c| > 0
  {
    chunks := [];
    if frontier == [] {
      return;
    }
    var workers := if workerCount < 1 then 1 else workerCount;
    workers := if |frontier| < workers then |frontier| else workers;
    var size := (|frontier| + workers - 1) / workers;
    CeilDiv(|frontier|, workers);
    var at := 0;
    while at < |frontier|
      invariant at <= |frontier| && Concat(chunks) == frontier[..at]
      invariant forall c | c in chunks :: |c| > 0
      invariant at < |frontier| ==> at == |chunks| * size
      invariant at == |frontier| ==> |chunks| * size < |frontier| + size
    {
      var end := if at + size < |frontier| then at + size else |frontier|;
      OneMoreChunk(chunks, frontier, at, end);
      chunks := chunks + [frontier[at..end]];
      OneMoreTime(|chunks| - 1, size);
      at := end;
    }
    assert frontier[..at] == frontier;
    FewChunks(|chunks|, workers, size, |frontier|);
  }

  lemma {:induction false} OneMoreChunk(chunks: seq<seq<nat>>, frontier: seq<nat>, at: nat, end: nat)
    requires at <= end <= |frontier| && Concat(chunks) == frontier[..at]
    ensures Concat(chunks + [frontier[at..end]]) == frontier[..end]
  {
    assert (chunks + [frontier[at..end]])[..|chunks|] == chunks;
  }

  lemma {:induction false} CeilDiv(n: nat, workers: nat)
    requires 1 <= workers <= n
    ensures (n + workers - 1) / workers >= 1
    ensures workers * ((n + workers - 1) / workers) >= n
  {
    var m := n + workers - 1;
    assert m == workers * (m / workers) + m % workers;
  }

  lemma {:induction false} FewChunks(count: nat, workers: nat, size: nat, n: nat)
    requires count * size < n + size && workers * size >= n && size >= 1
    ensures count <= workers
  {
    if count > workers {
      var extra := count - workers - 1;
      OneMoreTime(workers, size);
      assert false;
    }
  }
}
