/** Tarjan's strongly connected components (crates/checker/src/scc.rs). */
module Scc {
  import opened Graph

  ghost function Members<N>(s: seq<N>): set<N> {
    set x | x in s
  }

  ghost predicate NoDup<N>(s: seq<N>) {
    forall i, j | 0 <= i < j < |s| :: s[i] != s[j]
  }

  // ---------------------------------------------------------------------------
  // What the result means
  // ---------------------------------------------------------------------------

  /** All nodes of the components. */
  ghost function Emitted<N>(sccs: seq<seq<N>>): set<N> {
    if sccs == [] then {} else Emitted(sccs[..|sccs| - 1]) + Members(sccs[|sccs| - 1])
  }

  lemma {:induction false} EmittedHas<N>(sccs: seq<seq<N>>, x: N)
    ensures x in Emitted(sccs) <==> exists i :: 0 <= i < |sccs| && x in sccs[i]
  {
    if sccs != [] {
      var rest := sccs[..|sccs| - 1];
      EmittedHas(rest, x);
      if x in Emitted(rest) {
        var i :| 0 <= i < |rest| && x in rest[i];
        assert x in sccs[i];
      }
      forall i | 0 <= i < |sccs| && x in sccs[i]
        ensures x in Emitted(sccs)
      {
        if i < |rest| {
          assert x in rest[i];
        }
      }
    }
  }

  /** The members of `c` are exactly the nodes mutually reachable with any one of them. */
  ghost predicate IsComponent<N(!new)>(succ: N -> seq<N>, c: seq<N>) {
    && |c| > 0
    && NoDup(c)
    && forall x, y | x in c :: y in c <==> Reach(succ, x, y) && Reach(succ, y, x)
  }

  ghost predicate Disjoint<N>(sccs: seq<seq<N>>) {
    forall i, j, x | 0 <= i < j < |sccs| && x in sccs[i] :: x !in sccs[j]
  }

  /** No edge leads from component `k` to anything but itself and earlier components. */
  ghost predicate SinksFirst<N(!new)>(succ: N -> seq<N>, sccs: seq<seq<N>>) {
    forall k, x, y | 0 <= k < |sccs| && x in sccs[k] && y in succ(x) :: y in Emitted(sccs[..k + 1])
  }

  ghost predicate Components<N(!new)>(succ: N -> seq<N>, sccs: seq<seq<N>>) {
    && (forall k | 0 <= k < |sccs| :: IsComponent(succ, sccs[k]))
    && Disjoint(sccs)
    && SinksFirst(succ, sccs)
  }

  lemma {:induction false} AddComponent<N(!new)>(succ: N -> seq<N>, sccs: seq<seq<N>>, c: seq<N>)
    requires Components(succ, sccs) && IsComponent(succ, c)
    requires forall x | x in c :: x !in Emitted(sccs)
    requires forall x, y | x in c && y in succ(x) :: y in c || y in Emitted(sccs)
    ensures Components(succ, sccs + [c])
    ensures Emitted(sccs + [c]) == Emitted(sccs) + Members(c)
  {
    var all := sccs + [c];
    assert all[..|sccs|] == sccs;
    forall i, j, x | 0 <= i < j < |all| && x in all[i]
      ensures x !in all[j]
    {
      if j == |sccs| {
        assert x in sccs[i];
        EmittedHas(sccs, x);
      }
    }
    forall k, x, y | 0 <= k < |all| && x in all[k] && y in succ(x)
      ensures y in Emitted(all[..k + 1])
    {
      if k == |sccs| {
        assert all[..k + 1] == all;
      } else {
        assert all[..k + 1] == sccs[..k + 1];
      }
    }
  }

  // ---------------------------------------------------------------------------
  // The invariant, on an order-free view of the search
  // ---------------------------------------------------------------------------

  /** `live` are the nodes on the stack, `done` those in emitted components. */
  datatype Search<N> = Search(live: set<N>, done: set<N>, indices: map<N, nat>)

  ghost predicate Partition<N(!new)>(t: Search<N>) {
    && (forall x :: x in t.indices <==> x in t.live || x in t.done)
    && (forall x | x in t.live :: x !in t.done)
  }

  ghost predicate EdgesKnown<N(!new)>(succ: N -> seq<N>, t: Search<N>, gray: set<N>) {
    && Closed(succ, t.done)
    && forall x, y | x in t.live - gray && y in succ(x) :: y in t.indices
  }

  ghost predicate GrayReaches<N(!new)>(succ: N -> seq<N>, t: Search<N>, gray: set<N>)
    requires Partition(t) && gray <= t.live
  {
    forall g, y | g in gray && y in t.live && t.indices[g] <= t.indices[y] :: Reach(succ, g, y)
  }

  /** `y` reaches a node whose call is still open and that was indexed no later. */
  ghost predicate ReachesGray<N(!new)>(succ: N -> seq<N>, t: Search<N>, gray: set<N>, y: N)
    requires Partition(t) && gray <= t.live && y in t.live
  {
    exists g :: g in gray && t.indices[g] <= t.indices[y] && Reach(succ, y, g)
  }

  /** The invariant of the search; `gray` holds the nodes whose call is still open. */
  ghost predicate Inv<N(!new)>(succ: N -> seq<N>, t: Search<N>, gray: set<N>) {
    && Partition(t)
    && gray <= t.live
    && EdgesKnown(succ, t, gray)
    && GrayReaches(succ, t, gray)
    && forall y {:trigger ReachesGray(succ, t, gray, y)} | y in t.live :: ReachesGray(succ, t, gray, y)
  }

  ghost function Opened<N>(t: Search<N>, v: N, index: nat): Search<N> {
    Search(t.live + {v}, t.done, t.indices[v := index])
  }

  lemma {:induction false} OpeningGrayReaches<N(!new)>(succ: N -> seq<N>, t: Search<N>, gray: set<N>, v: N, index: nat)
    requires Partition(t) && gray <= t.live && GrayReaches(succ, t, gray) && v !in t.indices
    requires forall x | x in t.indices :: t.indices[x] < index
    requires forall g | g in gray :: Reach(succ, g, v)
    ensures Partition(Opened(t, v, index)) && gray + {v} <= Opened(t, v, index).live
    ensures GrayReaches(succ, Opened(t, v, index), gray + {v})
  {
    ReachRefl(succ, v);
  }

  lemma {:induction false} OpeningReachesGray<N(!new)>(succ: N -> seq<N>, t: Search<N>, gray: set<N>, v: N, index: nat, y: N)
    requires Partition(t) && gray <= t.live && v !in t.indices && y in t.live + {v}
    requires y in t.live ==> ReachesGray(succ, t, gray, y)
    ensures Partition(Opened(t, v, index)) && ReachesGray(succ, Opened(t, v, index), gray + {v}, y)
  {
    var u := Opened(t, v, index);
    if y == v {
      ReachRefl(succ, v);
    } else {
      var g :| g in gray && t.indices[g] <= t.indices[y] && Reach(succ, y, g);
      assert u.indices[g] <= u.indices[y];
    }
  }

  lemma {:induction false} Opening<N(!new)>(succ: N -> seq<N>, t: Search<N>, gray: set<N>, v: N, index: nat)
    requires Inv(succ, t, gray) && v !in t.indices
    requires forall x | x in t.indices :: t.indices[x] < index
    requires forall g | g in gray :: Reach(succ, g, v)
    ensures Inv(succ, Opened(t, v, index), gray + {v})
  {
    OpeningGrayReaches(succ, t, gray, v, index);
    forall y | y in t.live + {v}
      ensures ReachesGray(succ, Opened(t, v, index), gray + {v}, y)
    {
      assert y in t.live ==> ReachesGray(succ, t, gray, y);
      OpeningReachesGray(succ, t, gray, v, index, y);
    }
  }

  /** The stack from `v` upwards. */
  ghost function Region<N(!new)>(t: Search<N>, v: N): set<N>
    requires Partition(t) && v in t.live
  {
    set x | x in t.live && t.indices[v] <= t.indices[x]
  }

  /** Every edge out of the region stays inside it or enters an emitted component. */
  ghost predicate Isolated<N(!new)>(succ: N -> seq<N>, t: Search<N>, v: N)
    requires Partition(t) && v in t.live
  {
    forall x, y | x in Region(t, v) && y in succ(x) :: y in Region(t, v) || y in t.done
  }

  /** `v` is the youngest open call. */
  ghost predicate Youngest<N(!new)>(t: Search<N>, gray: set<N>, v: N)
    requires Partition(t) && gray <= t.live && v in gray
  {
    forall g | g in gray && g != v :: t.indices[g] < t.indices[v]
  }

  lemma {:induction false} RegionIsComponent<N(!new)>(succ: N -> seq<N>, t: Search<N>, gray: set<N>, v: N)
    requires Inv(succ, t, gray) && v in gray && Youngest(t, gray, v) && Isolated(succ, t, v)
    ensures forall x, y | x in Region(t, v) ::
              y in Region(t, v) <==> Reach(succ, x, y) && Reach(succ, y, x)
  {
    var region := Region(t, v);
    var s := region + t.done;
    assert Closed(succ, s);
    forall x | x in region
      ensures Reach(succ, v, x) && Reach(succ, x, v)
    {
      assert ReachesGray(succ, t, gray, x);
      var g :| g in gray && t.indices[g] <= t.indices[x] && Reach(succ, x, g);
      ClosedReach(succ, s, x, g);
    }
    forall x, y | x in region && y in region
      ensures Reach(succ, x, y)
    {
      ReachTrans(succ, x, v, y);
    }
    forall x, y | x in region && Reach(succ, x, y) && Reach(succ, y, x)
      ensures y in region
    {
      ClosedReach(succ, s, x, y);
      if y in t.done {
        ClosedReach(succ, t.done, y, x);
      }
    }
  }

  ghost function Popped<N(!new)>(t: Search<N>, v: N): Search<N>
    requires Partition(t) && v in t.live
  {
    Search(t.live - Region(t, v), t.done + Region(t, v), t.indices)
  }

  /** Popping an isolated region keeps the invariant. */
  lemma {:induction false} Popping<N(!new)>(succ: N -> seq<N>, t: Search<N>, gray: set<N>, v: N)
    requires Inv(succ, t, gray) && v in gray && Youngest(t, gray, v) && Isolated(succ, t, v)
    ensures Inv(succ, Popped(t, v), gray - {v})
  {
    var u := Popped(t, v);
    assert gray - {v} <= u.live;
    forall y | y in u.live
      ensures ReachesGray(succ, u, gray - {v}, y)
    {
      assert ReachesGray(succ, t, gray, y);
      var g :| g in gray && t.indices[g] <= t.indices[y] && Reach(succ, y, g);
      assert g in gray - {v};
    }
  }

  lemma {:induction false} KeepingReaches<N(!new)>(succ: N -> seq<N>, t: Search<N>, gray: set<N>, v: N, g: N, y: N)
    requires Partition(t) && gray <= t.live && v in gray && y in t.live
    requires g in gray && t.indices[g] < t.indices[v] && Reach(succ, v, g)
    requires ReachesGray(succ, t, gray, y)
    ensures ReachesGray(succ, t, gray - {v}, y)
  {
    var h :| h in gray && t.indices[h] <= t.indices[y] && Reach(succ, y, h);
    if h == v {
      ReachTrans(succ, y, v, g);
      assert g in gray - {v};
    } else {
      assert h in gray - {v};
    }
  }

  lemma {:induction false} OlderGray<N(!new)>(succ: N -> seq<N>, t: Search<N>, gray: set<N>, v: N, x: N) returns (g: N)
    requires Inv(succ, t, gray) && v in gray
    requires x in t.live && t.indices[x] < t.indices[v] && Reach(succ, v, x)
    ensures g in gray && t.indices[g] < t.indices[v] && Reach(succ, v, g)
  {
    assert ReachesGray(succ, t, gray, x);
    g :| g in gray && t.indices[g] <= t.indices[x] && Reach(succ, x, g);
    ReachTrans(succ, v, x, g);
  }

  lemma {:induction false} FewerGrayReach<N(!new)>(succ: N -> seq<N>, t: Search<N>, gray: set<N>, gray': set<N>)
    requires Partition(t) && gray' <= gray <= t.live && GrayReaches(succ, t, gray)
    ensures GrayReaches(succ, t, gray')
  {
  }

  /** A node that reaches an older one closes without being popped. */
  lemma {:induction false} Keeping<N(!new)>(succ: N -> seq<N>, t: Search<N>, gray: set<N>, v: N, x: N)
    requires Inv(succ, t, gray) && v in gray
    requires x in t.live && t.indices[x] < t.indices[v] && Reach(succ, v, x)
    requires forall y | y in succ(v) :: y in t.indices
    ensures Inv(succ, t, gray - {v})
  {
    var g := OlderGray(succ, t, gray, v, x);
    FewerGrayReach(succ, t, gray, gray - {v});
    assert EdgesKnown(succ, t, gray - {v});
    forall y | y in t.live
      ensures ReachesGray(succ, t, gray - {v}, y)
    {
      assert ReachesGray(succ, t, gray, y);
      KeepingReaches(succ, t, gray, v, g, y);
    }
  }

  // ---------------------------------------------------------------------------
  // Low-links
  // ---------------------------------------------------------------------------

  ghost predicate Grown<N(!new)>(before: Search<N>, after: Search<N>) {
    && before.live <= after.live && before.done <= after.done
    && (forall x | x in before.indices :: x in after.indices && after.indices[x] == before.indices[x])
    && (forall x | x in after.live + after.done :: x in after.indices)
    && (forall x | x in after.live && x in before.indices :: x in before.live)
    && (forall x, y | x in before.indices && y in after.indices && y !in before.indices ::
          after.indices[x] < after.indices[y])
  }

  /** `low` is the index of a stack node that `v` reaches. */
  ghost predicate LowIs<N(!new)>(succ: N -> seq<N>, t: Search<N>, v: N, low: nat) {
    exists x :: x in t.live && x in t.indices && t.indices[x] == low && Reach(succ, v, x)
  }

  ghost predicate AllReached<N(!new)>(succ: N -> seq<N>, before: Search<N>, after: Search<N>, v: N) {
    forall x | x in after.indices && x !in before.indices :: Reach(succ, v, x)
  }

  /** What one finished call of `strongconnect` leaves behind. */
  ghost predicate Finished<N(!new)>(succ: N -> seq<N>, before: Search<N>, after: Search<N>, v: N, low: nat) {
    && Grown(before, after)
    && v in after.indices && low <= after.indices[v]
    && AllReached(succ, before, after, v)
    && (forall x, z | x in after.live && x !in before.live && z in succ(x) && z in before.live && z in before.indices ::
          low <= before.indices[z])
    && (v in after.live ==> LowIs(succ, before, v, low))
    && (v !in after.live ==> after.live == before.live && low == after.indices[v])
  }

  /** `v` was opened on top of `before`, and `low` accounts for its first `i` successors. */
  ghost predicate Scanning<N(!new)>(succ: N -> seq<N>, before: Search<N>, t: Search<N>, v: N, low: nat, i: nat)
    requires i <= |succ(v)|
  {
    && Grown(before, t)
    && v !in before.indices && v in t.live && v in t.indices && low <= t.indices[v]
    && AllReached(succ, before, t, v)
    && LowIs(succ, t, v, low)
    && (forall x | x in t.indices && x !in before.indices && x != v :: t.indices[v] < t.indices[x])
    && LowBound(succ, t, v, low)
    && (forall k | 0 <= k < i :: succ(v)[k] in t.indices)
    && (forall k | 0 <= k < i && succ(v)[k] in t.live :: low <= t.indices[succ(v)[k]] || t.indices[v] < t.indices[succ(v)[k]])
  }

  /** No edge from above `v` leads to an index at or below `v`'s but below `low`. */
  ghost predicate LowBound<N(!new)>(succ: N -> seq<N>, t: Search<N>, v: N, low: nat)
    requires v in t.indices && forall x | x in t.live :: x in t.indices
  {
    forall x, z | x in t.live && z in succ(x) && z in t.live && t.indices[z] <= t.indices[v] < t.indices[x] ::
      low <= t.indices[z]
  }

  function Min(a: nat, b: nat): nat {
    if b < a then b else a
  }

  lemma {:induction false} ScanStart<N(!new)>(succ: N -> seq<N>, before: Search<N>, v: N, index: nat)
    requires Partition(before) && v !in before.indices
    requires forall x | x in before.indices :: before.indices[x] < index
    ensures Scanning(succ, before, Opened(before, v, index), v, index, 0)
  {
    ReachRefl(succ, v);
  }

  lemma {:induction false} ScanUnseenLow<N(!new)>(succ: N -> seq<N>, before: Search<N>, t: Search<N>, t': Search<N>,
                               v: N, low: nat, w: N, wLow: nat)
    requires LowIs(succ, t, v, low) && w in succ(v)
    requires w !in t.indices && Finished(succ, t, t', w, wLow)
    requires wLow < low ==> w in t'.live
    ensures LowIs(succ, t', v, Min(low, wLow))
  {
    ReachEdge(succ, v, w);
    if wLow < low {
      var x :| x in t.live && x in t.indices && t.indices[x] == wLow && Reach(succ, w, x);
      ReachTrans(succ, v, w, x);
      assert t'.indices[x] == wLow;
    } else {
      var x :| x in t.live && x in t.indices && t.indices[x] == low && Reach(succ, v, x);
      assert t'.indices[x] == low;
    }
  }

  lemma {:induction false} GrownTrans<N(!new)>(a: Search<N>, b: Search<N>, c: Search<N>)
    requires Grown(a, b) && Grown(b, c)
    ensures Grown(a, c)
  {
  }

  lemma {:induction false} ScanUnseenReached<N(!new)>(succ: N -> seq<N>, before: Search<N>, t: Search<N>, t': Search<N>, v: N, w: N)
    requires AllReached(succ, before, t, v) && AllReached(succ, t, t', w) && w in succ(v)
    ensures AllReached(succ, before, t', v)
  {
    ReachEdge(succ, v, w);
    forall x | x in t'.indices && x !in before.indices
      ensures Reach(succ, v, x)
    {
      if x !in t.indices {
        ReachTrans(succ, v, w, x);
      }
    }
  }

  lemma {:induction false} ScanUnseenBound<N(!new)>(succ: N -> seq<N>, t: Search<N>, t': Search<N>, v: N, low: nat, w: N, wLow: nat)
    requires Partition(t) && Partition(t') && v in t.live && LowBound(succ, t, v, low)
    requires Finished(succ, t, t', w, wLow)
    ensures LowBound(succ, t', v, Min(low, wLow))
  {
  }

  lemma {:induction false} ScanUnseen<N(!new)>(succ: N -> seq<N>, before: Search<N>, t: Search<N>, t': Search<N>,
                            v: N, low: nat, i: nat, wLow: nat)
    requires i < |succ(v)| && Scanning(succ, before, t, v, low, i)
    requires Partition(t) && Partition(t')
    requires succ(v)[i] !in t.indices && Finished(succ, t, t', succ(v)[i], wLow)
    ensures Scanning(succ, before, t', v, Min(low, wLow), i + 1)
  {
    var w := succ(v)[i];
    ScanUnseenReached(succ, before, t, t', v, w);
    ScanUnseenLow(succ, before, t, t', v, low, w, wLow);
    GrownTrans(before, t, t');
    ScanUnseenBound(succ, t, t', v, low, w, wLow);
  }

  lemma {:induction false} ScanSeen<N(!new)>(succ: N -> seq<N>, before: Search<N>, t: Search<N>, v: N, low: nat, i: nat)
    requires i < |succ(v)| && Scanning(succ, before, t, v, low, i)
    requires succ(v)[i] in t.indices
    ensures Scanning(succ, before, t, v,
                     if succ(v)[i] in t.live then Min(low, t.indices[succ(v)[i]]) else low, i + 1)
  {
    ReachEdge(succ, v, succ(v)[i]);
  }

  lemma {:induction false} ScanYoungest<N(!new)>(succ: N -> seq<N>, before: Search<N>, t: Search<N>, gray: set<N>, v: N, low: nat, i: nat)
    requires Partition(before) && gray <= before.live && Partition(t) && gray <= t.live
    requires i <= |succ(v)| && Scanning(succ, before, t, v, low, i)
    ensures Youngest(t, gray + {v}, v)
  {
  }

  lemma {:induction false} OpenReach<N(!new)>(succ: N -> seq<N>, t: Search<N>, open: set<N>, v: N, w: N)
    requires Partition(t) && open <= t.live && GrayReaches(succ, t, open)
    requires v in open && Youngest(t, open, v) && w in succ(v)
    ensures forall g | g in open :: Reach(succ, g, w)
  {
    ReachEdge(succ, v, w);
    forall g | g in open
      ensures Reach(succ, g, w)
    {
      assert t.indices[g] <= t.indices[v];
      ReachTrans(succ, g, v, w);
    }
  }

  /** All successors scanned and the low-link is still `v`'s own index: nothing
      above `v` leads back into the older stack. */
  lemma {:induction false} ScanIsolates<N(!new)>(succ: N -> seq<N>, before: Search<N>, t: Search<N>, open: set<N>, v: N)
    requires Inv(succ, t, open) && v in open && Youngest(t, open, v)
    requires Scanning(succ, before, t, v, t.indices[v], |succ(v)|)
    ensures Isolated(succ, t, v)
  {
    forall x, y | x in Region(t, v) && y in succ(x)
      ensures y in Region(t, v) || y in t.done
    {
      if x == v {
        var k :| 0 <= k < |succ(v)| && succ(v)[k] == y;
      }
    }
  }

  lemma {:induction false} CloseKept<N(!new)>(succ: N -> seq<N>, before: Search<N>, t: Search<N>, gray: set<N>, v: N, low: nat)
    requires Inv(succ, before, gray) && Inv(succ, t, gray + {v})
    requires Scanning(succ, before, t, v, low, |succ(v)|) && low != t.indices[v]
    ensures Inv(succ, t, gray) && Finished(succ, before, t, v, low)
  {
    ghost var x :| x in t.live && x in t.indices && t.indices[x] == low && Reach(succ, v, x);
    Keeping(succ, t, gray + {v}, v, x);
    assert gray + {v} - {v} == gray;
    assert x in before.live;
  }

  lemma {:induction false} FinishPopped<N(!new)>(succ: N -> seq<N>, before: Search<N>, t: Search<N>, v: N)
    requires Partition(before) && Partition(t) && v in t.live
    requires Scanning(succ, before, t, v, t.indices[v], |succ(v)|)
    ensures Finished(succ, before, Popped(t, v), v, t.indices[v])
  {
    forall x
      ensures x in Popped(t, v).live <==> x in before.live
    {
    }
  }

  lemma {:induction false} ClosePopped<N(!new)>(succ: N -> seq<N>, before: Search<N>, t: Search<N>, gray: set<N>, v: N)
    requires Inv(succ, before, gray) && Inv(succ, t, gray + {v})
    requires Scanning(succ, before, t, v, t.indices[v], |succ(v)|)
    ensures Inv(succ, Popped(t, v), gray) && Finished(succ, before, Popped(t, v), v, t.indices[v])
    ensures v in Region(t, v) && Isolated(succ, t, v)
    ensures forall x, y | x in Region(t, v) ::
              y in Region(t, v) <==> Reach(succ, x, y) && Reach(succ, y, x)
  {
    var open := gray + {v};
    ScanYoungest(succ, before, t, gray, v, t.indices[v], |succ(v)|);
    ScanIsolates(succ, before, t, open, v);
    RegionIsComponent(succ, t, open, v);
    Popping(succ, t, open, v);
    assert gray == open - {v};
    FinishPopped(succ, before, t, v);
  }

  // ---------------------------------------------------------------------------
  // The search
  // ---------------------------------------------------------------------------

  /** The stack lists `live` in the order of the indices. */
  ghost predicate StackOf<N(!new)>(stack: seq<N>, t: Search<N>) {
    && Members(stack) == t.live
    && (forall x | x in stack :: x in t.indices)
    && forall i, j | 0 <= i < j < |stack| :: t.indices[stack[i]] < t.indices[stack[j]]
  }

  lemma {:induction false} PushStack<N(!new)>(t: Search<N>, stack: seq<N>, v: N, index: nat)
    requires StackOf(stack, t) && v !in t.indices
    requires forall x | x in t.indices :: t.indices[x] < index
    ensures Members(stack + [v]) == t.live + {v}
    ensures StackOf(stack + [v], Opened(t, v, index))
  {
    assert Members(stack + [v]) == Members(stack) + {v};
  }

  class TarjanState<N(==,!new)> {
    var indexCounter: nat
    var stack: seq<N>
    var onStack: map<N, bool>
    var indices: map<N, nat>
    var lowlinks: map<N, nat>
    var sccs: seq<seq<N>>

    constructor ()
      ensures indexCounter == 0 && stack == [] && onStack == map[]
      ensures indices == map[] && lowlinks == map[] && sccs == []
    {
      indexCounter, stack, onStack, indices, lowlinks, sccs := 0, [], map[], map[], map[], [];
    }

    ghost function View(): Search<N>
      reads this
    {
      Search(Members(stack), Emitted(sccs), indices)
    }

    /** The bookkeeping fields agree with the stack and the index map. */
    ghost predicate Tables()
      reads this
    {
      && StackOf(stack, View())
      && (forall x | x in indices :: indices[x] < indexCounter)
      && onStack.Keys == indices.Keys == lowlinks.Keys
      && (forall x | x in onStack :: onStack[x] <==> x in stack)
    }

    ghost predicate Valid(succ: N -> seq<N>, gray: set<N>)
      reads this
    {
      Inv(succ, View(), gray) && Components(succ, sccs) && Tables()
    }

    /** Pop the stack down to and including `v`, collecting what was popped. */
    method PopComponent(v: N, ghost base: nat) returns (scc: seq<N>)
      requires base < |stack| && stack[base] == v && NoDup(stack)
      requires forall x | x in stack :: x in onStack
      requires forall x | x in onStack :: onStack[x] <==> x in stack
      modifies this`stack, this`onStack
      ensures stack == old(stack)[..base] && Listed(old(stack), base, scc)
      ensures onStack.Keys == old(onStack).Keys && (forall x | x in onStack :: onStack[x] <==> x in stack)
    {
      scc := [];
      ghost var all := stack;
      var going := true;
      while going
        invariant |scc| <= |all| - base && stack == all[..|all| - |scc|]
        invariant Listed(all, |stack|, scc)
        invariant going <==> |scc| < |all| - base
        invariant onStack.Keys == old(onStack).Keys
        invariant forall x | x in onStack :: onStack[x] <==> x in stack
        decreases |all| - |scc|
      {
        var w := stack[|stack| - 1];
        assert w == all[|all| - 1 - |scc|] && w in all;
        TopIsOnce(stack);
        stack := stack[..|stack| - 1];
        onStack := onStack[w := false];
        scc := scc + [w];
        going := w != v;
      }
    }

    /** Emit the stack from `v` upwards as one component. */
    method EmitComponent(v: N, succ: N -> seq<N>)
      requires Partition(View()) && Tables() && Components(succ, sccs)
      requires v in View().live && Isolated(succ, View(), v)
      requires forall x, y | x in Region(View(), v) ::
                 y in Region(View(), v) <==> Reach(succ, x, y) && Reach(succ, y, x)
      modifies this`stack, this`onStack, this`sccs
      ensures View() == Popped(old(View()), v)
      ensures Tables() && Components(succ, sccs)
    {
      ghost var t := View();
      ghost var base :| 0 <= base < |stack| && stack[base] == v;
      ghost var all := stack;
      var scc := PopComponent(v, base);
      SplitAt(all, t, base, scc);
      AddComponent(succ, sccs, scc);
      sccs := sccs + [scc];
      assert View() == Popped(t, v);
    }

    method Open(v: N, succ: N -> seq<N>, ghost gray: set<N>)
      requires Valid(succ, gray) && v !in indices
      requires forall g | g in gray :: Reach(succ, g, v)
      modifies this
      ensures Valid(succ, gray + {v})
      ensures View() == Opened(old(View()), v, old(indexCounter))
      ensures lowlinks == old(lowlinks)[v := old(indexCounter)]
    {
      ghost var before := View();
      Opening(succ, before, gray, v, indexCounter);
      var index := indexCounter;
      indexCounter := indexCounter + 1;
      indices := indices[v := index];
      lowlinks := lowlinks[v := index];
      stack := stack + [v];
      onStack := onStack[v := true];
      PushStack(before, old(stack), v, index);
      assert View() == Opened(before, v, index);
    }

    method Close(v: N, succ: N -> seq<N>, ghost before: Search<N>, ghost gray: set<N>)
      requires Inv(succ, before, gray)
      requires Valid(succ, gray + {v}) && v in lowlinks
      requires Scanning(succ, before, View(), v, lowlinks[v], |succ(v)|)
      modifies this
      ensures Valid(succ, gray)
      ensures v in lowlinks && Finished(succ, before, View(), v, lowlinks[v])
      ensures lowlinks == old(lowlinks)
    {
      ghost var t := View();
      if lowlinks[v] == indices[v] {
        ClosePopped(succ, before, t, gray, v);
        EmitComponent(v, succ);
      } else {
        CloseKept(succ, before, t, gray, v, lowlinks[v]);
      }
    }

    /** Lower the low-link of `v` to at most `k`. */
    method LowerLow(v: N, k: nat, ghost succ: N -> seq<N>, ghost open: set<N>)
      requires v in lowlinks && Valid(succ, open)
      modifies this`lowlinks
      ensures lowlinks == old(lowlinks)[v := Min(old(lowlinks[v]), k)]
      ensures Valid(succ, open) && View() == old(View())
    {
      if k < lowlinks[v] {
        lowlinks := lowlinks[v := k];
      }
    }

    /** The `i`-th successor `w` of the open node `v` has not been seen: explore it. */
    method ScanUnseenSuccessor(v: N, i: nat, w: N, succ: N -> seq<N>, ghost universe: set<N>,
                               ghost before: Search<N>, ghost gray: set<N>)
      requires Partition(before) && gray <= before.live
      requires Valid(succ, gray + {v}) && Closed(succ, universe) && v in universe
      requires v in lowlinks && i < |succ(v)| && Scanning(succ, before, View(), v, lowlinks[v], i)
      requires w == succ(v)[i] && w !in indices
      modifies this
      ensures Valid(succ, gray + {v})
      ensures v in lowlinks && Scanning(succ, before, View(), v, lowlinks[v], i + 1)
      ensures forall x | x in old(lowlinks) && x != v :: x in lowlinks && lowlinks[x] == old(lowlinks[x])
      ensures old(indices.Keys) <= indices.Keys
      decreases universe - indices.Keys, 1
    {
      ghost var t := View();
      ghost var low := lowlinks[v];
      ScanYoungest(succ, before, t, gray, v, low, i);
      OpenReach(succ, t, gray + {v}, v, w);
      StrongConnect(w, succ, universe, gray + {v});
      var wLow := lowlinks[w];
      ScanUnseen(succ, before, t, View(), v, low, i, wLow);
      LowerLow(v, wLow, succ, gray + {v});
    }

    /** The `i`-th successor `w` of the open node `v` has been seen. */
    method ScanSeenSuccessor(v: N, i: nat, w: N, ghost succ: N -> seq<N>, ghost before: Search<N>, ghost gray: set<N>)
      requires Valid(succ, gray + {v})
      requires v in lowlinks && i < |succ(v)| && Scanning(succ, before, View(), v, lowlinks[v], i)
      requires w == succ(v)[i] && w in indices
      modifies this`lowlinks
      ensures Valid(succ, gray + {v}) && View() == old(View())
      ensures v in lowlinks && Scanning(succ, before, View(), v, lowlinks[v], i + 1)
      ensures forall x | x in old(lowlinks) && x != v :: x in lowlinks && lowlinks[x] == old(lowlinks[x])
    {
      ScanSeen(succ, before, View(), v, lowlinks[v], i);
      if onStack[w] {
        LowerLow(v, indices[w], succ, gray + {v});
      }
    }

    method StrongConnect(v: N, succ: N -> seq<N>, ghost universe: set<N>, ghost gray: set<N>)
      requires Valid(succ, gray) && Closed(succ, universe)
      requires v in universe && v !in indices
      requires forall g | g in gray :: Reach(succ, g, v)
      modifies this
      ensures Valid(succ, gray)
      ensures v in lowlinks && Finished(succ, old(View()), View(), v, lowlinks[v])
      ensures forall x | x in old(lowlinks) :: x in lowlinks && lowlinks[x] == old(lowlinks[x])
      ensures old(indices.Keys) <= indices.Keys
      decreases universe - indices.Keys, 0
    {
      ghost var before := View();
      ScanStart(succ, before, v, indexCounter);
      Open(v, succ, gray);
      for i := 0 to |succ(v)|
        invariant Valid(succ, gray + {v}) && v in lowlinks
        invariant Scanning(succ, before, View(), v, lowlinks[v], i)
        invariant forall x | x in old(lowlinks) :: x in lowlinks && lowlinks[x] == old(lowlinks[x])
        invariant before.indices.Keys + {v} <= indices.Keys
      {
        var w := succ(v)[i];
        if w !in indices {
          ScanUnseenSuccessor(v, i, w, succ, universe, before, gray);
        } else {
          ScanSeenSuccessor(v, i, w, succ, before, gray);
        }
      }
      Close(v, succ, before, gray);
    }

    method VisitRoot(roots: seq<N>, i: nat, succ: N -> seq<N>, ghost universe: set<N>)
      requires Valid(succ, {}) && Closed(succ, universe)
      requires i < |roots| && roots[i] in universe && FromRoots(succ, roots, indices.Keys) && RootsIn(roots, i, indices.Keys)
      modifies this
      ensures Valid(succ, {}) && FromRoots(succ, roots, indices.Keys)
      ensures RootsIn(roots, i + 1, indices.Keys)
    {
      if roots[i] !in indices {
        ghost var before := View();
        StrongConnect(roots[i], succ, universe, {});
        FromOneMore(succ, roots, i, before, View());
      }
    }
  }

  /** `scc` lists the elements of `all` from the top down to position `base`. */
  ghost predicate Listed<N>(all: seq<N>, base: nat, scc: seq<N>) {
    && base + |scc| == |all|
    && forall k | 0 <= k < |scc| :: scc[k] == all[|all| - 1 - k]
  }

  lemma {:induction false} TopIsOnce<N(!new)>(stack: seq<N>)
    requires NoDup(stack) && |stack| > 0
    ensures NoDup(stack[..|stack| - 1])
    ensures forall x :: x in stack[..|stack| - 1] <==> x in stack && x != stack[|stack| - 1]
  {
    var rest := stack[..|stack| - 1];
    assert stack == rest + [stack[|rest|]];
  }

  lemma {:induction false} SplitAt<N(!new)>(all: seq<N>, t: Search<N>, base: nat, scc: seq<N>)
    requires Partition(t) && StackOf(all, t) && base < |all| && Listed(all, base, scc)
    ensures Members(scc) == Region(t, all[base]) && NoDup(scc)
    ensures Members(all[..base]) == t.live - Region(t, all[base])
  {
    var v := all[base];
    forall x
      ensures x in scc <==> x in Region(t, v)
      ensures x in all[..base] <==> x in t.live && x !in Region(t, v)
    {
      if x in t.live {
        var i :| 0 <= i < |all| && all[i] == x;
        if i < base {
          assert all[..base][i] == x;
        } else {
          assert scc[|all| - 1 - i] == x;
        }
      }
    }
  }

  lemma {:induction false} NothingLive<N(!new)>(succ: N -> seq<N>, t: Search<N>)
    requires Inv(succ, t, {})
    ensures t.live == {}
  {
    if y :| y in t.live && ReachesGray(succ, t, {}, y) {
    }
  }

  /** The strongly connected components of everything reachable from `roots`, sinks first. */
  method TarjanSccs<N(!new)>(roots: seq<N>, succ: N -> seq<N>, ghost universe: set<N>) returns (sccs: seq<seq<N>>)
    requires Closed(succ, universe) && forall r | r in roots :: r in universe
    ensures Components(succ, sccs)
    ensures forall x :: x in Emitted(sccs) <==> RootReaches(succ, roots, x)
  {
    var state := new TarjanState<N>();
    EmptyInv(succ);
    for i := 0 to |roots|
      invariant fresh(state) && state.Valid(succ, {})
      invariant RootsIn(roots, i, state.indices.Keys)
      invariant FromRoots(succ, roots, state.indices.Keys)
    {
      state.VisitRoot(roots, i, succ, universe);
    }
    sccs := state.sccs;
    AllScanned(succ, roots, state.View());
  }

  /** Once every root is indexed the components hold exactly what the roots reach. */
  lemma {:induction false} AllScanned<N(!new)>(succ: N -> seq<N>, roots: seq<N>, t: Search<N>)
    requires Inv(succ, t, {}) && FromRoots(succ, roots, t.indices.Keys)
    requires RootsIn(roots, |roots|, t.indices.Keys)
    ensures forall x :: x in t.done <==> RootReaches(succ, roots, x)
  {
    NothingLive(succ, t);
    RootsReachAll(succ, roots, t.done);
  }

  ghost predicate RootReaches<N(!new)>(succ: N -> seq<N>, roots: seq<N>, x: N) {
    exists r :: r in roots && Reach(succ, r, x)
  }

  /** The first `n` roots are in the set. */
  ghost predicate RootsIn<N>(roots: seq<N>, n: nat, s: set<N>)
    requires n <= |roots|
  {
    forall k | 0 <= k < n :: roots[k] in s
  }

  ghost predicate FromRoots<N(!new)>(succ: N -> seq<N>, roots: seq<N>, s: set<N>) {
    forall x {:trigger RootReaches(succ, roots, x)} | x in s :: RootReaches(succ, roots, x)
  }

  lemma {:induction false} EmptyInv<N(!new)>(succ: N -> seq<N>)
    ensures Inv(succ, Search({}, {}, map[]), {})
  {
  }

  lemma {:induction false} FromOneMore<N(!new)>(succ: N -> seq<N>, roots: seq<N>, i: nat, before: Search<N>, after: Search<N>)
    requires i < |roots| && FromRoots(succ, roots, before.indices.Keys)
    requires AllReached(succ, before, after, roots[i])
    ensures FromRoots(succ, roots, after.indices.Keys)
  {
    assert roots[i] in roots;
  }

  lemma {:induction false} RootsReachAll<N(!new)>(succ: N -> seq<N>, roots: seq<N>, s: set<N>)
    requires Closed(succ, s) && FromRoots(succ, roots, s)
    requires forall k | 0 <= k < |roots| :: roots[k] in s
    ensures forall x :: x in s <==> RootReaches(succ, roots, x)
  {
    forall x | RootReaches(succ, roots, x)
      ensures x in s
    {
      var r :| r in roots && Reach(succ, r, x);
      ClosedReach(succ, s, r, x);
    }
  }

  /** The components that carry a cycle. */
  function NonTrivialSccs<N>(sccs: seq<seq<N>>, hasSelfLoop: N -> bool): seq<seq<N>>
    requires forall c | c in sccs :: |c| > 0
  {
    if sccs == [] then [] else
    (if |sccs[0]| > 1 || hasSelfLoop(sccs[0][0]) then [sccs[0]] else []) + NonTrivialSccs(sccs[1..], hasSelfLoop)
  }
}
