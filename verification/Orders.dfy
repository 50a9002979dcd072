/** The orders in which enabled internal transitions are committed
    (crates/checker/src/stabilize.rs). */
module Orders {
  import opened Mapping
  import opened Sorting
  import opened Wrappers

  // ---------------------------------------------------------------------------
  // Permutations
  // ---------------------------------------------------------------------------

  function Without(values: seq<nat>, i: nat): seq<nat>
    requires i < |values|
  {
    values[..i] + values[i + 1..]
  }

  lemma {:induction false} WithoutBag(values: seq<nat>, i: nat)
    requires i < |values|
    ensures multiset(Without(values, i)) == multiset(values) - multiset{values[i]}
  {
    assert values == values[..i] + [values[i]] + values[i + 1..];
  }

  function Prefixed(head: nat, tails: seq<seq<nat>>): (r: seq<seq<nat>>)
    ensures |r| == |tails| && forall i | 0 <= i < |tails| :: r[i] == [head] + tails[i]
  {
    seq(|tails|, i requires 0 <= i < |tails| => [head] + tails[i])
  }

  function Perms(values: seq<nat>): seq<seq<nat>>
    decreases |values|, |values| + 1
  {
    if |values| <= 1 then [values] else PermsHeaded(values, |values|)
  }

  /** The permutations starting with one of the first `n` values. */
  function PermsHeaded(values: seq<nat>, n: nat): seq<seq<nat>>
    requires n <= |values|
    decreases |values|, n
  {
    if n == 0 then [] else
    PermsHeaded(values, n - 1) + Prefixed(values[n - 1], Perms(Without(values, n - 1)))
  }

  /** Recursive generation: each value in turn as the head, followed by the permutations of the others. */
  method Permutations(values: seq<nat>) returns (out: seq<seq<nat>>)
    ensures out == Perms(values)
    decreases |values|
  {
    if |values| <= 1 {
      return [values];
    }
    out := [];
    for index := 0 to |values|
      invariant out == PermsHeaded(values, index)
    {
      var tails := Permutations(Without(values, index));
      ghost var before := out;
      for j := 0 to |tails|
        invariant out == before + Prefixed(values[index], tails)[..j]
      {
        out := out + [[values[index]] + tails[j]];
      }
    }
  }

  ghost predicate IsPermutation(s: seq<nat>, values: seq<nat>) {
    multiset(s) == multiset(values)
  }

  lemma {:induction false} PrefixedHas(head: nat, tails: seq<seq<nat>>, s: seq<nat>)
    ensures s in Prefixed(head, tails) <==> s != [] && s[0] == head && s[1..] in tails
  {
    if s != [] && s[0] == head && s[1..] in tails {
      var i :| 0 <= i < |tails| && tails[i] == s[1..];
      assert Prefixed(head, tails)[i] == s;
    }
  }

  /** The head of `s` is the value at `i` and the rest permutes the other values. */
  ghost predicate HeadedAt(values: seq<nat>, s: seq<nat>, i: nat)
    requires i < |values|
  {
    s != [] && s[0] == values[i] && IsPermutation(s[1..], Without(values, i))
  }

  lemma {:induction false} HeadedIsPermutation(values: seq<nat>, s: seq<nat>, i: nat)
    requires i < |values| && s != [] && s[0] == values[i]
    ensures HeadedAt(values, s, i) <==> IsPermutation(s, values)
  {
    WithoutBag(values, i);
    assert s == [s[0]] + s[1..];
    assert values[i] in multiset(values);
  }

  /** The generated lists are exactly the rearrangements of the values. */
  lemma {:induction false} PermsExact(values: seq<nat>, s: seq<nat>)
    ensures s in Perms(values) <==> IsPermutation(s, values)
    decreases |values|, |values| + 1
  {
    if |values| <= 1 {
      SmallPermutation(values, s);
    } else {
      PermsHeadedExact(values, |values|, s);
      HeadedSomewhere(values, s, |values|);
      if i: nat :| i < |values| && HeadedAt(values, s, i) {
        HeadedIsPermutation(values, s, i);
      }
      if IsPermutation(s, values) {
        SameLength(s, values);
        SameMembers(s, values, s[0]);
        var i: nat :| i < |values| && values[i] == s[0];
        HeadedIsPermutation(values, s, i);
      }
    }
  }

  lemma {:induction false} SameLength(s: seq<nat>, values: seq<nat>)
    requires multiset(s) == multiset(values)
    ensures |s| == |values|
  {
    assert |multiset(s)| == |s| && |multiset(values)| == |values|;
  }

  lemma {:induction false} SmallPermutation(values: seq<nat>, s: seq<nat>)
    requires |values| <= 1
    ensures IsPermutation(s, values) <==> s == values
  {
    if IsPermutation(s, values) {
      SameLength(s, values);
      if |s| == 1 {
        SameMembers(s, values, s[0]);
      }
    }
  }

  lemma {:induction false} PermsHeadedExact(values: seq<nat>, n: nat, s: seq<nat>)
    requires n <= |values|
    ensures s in PermsHeaded(values, n) <==> HeadedBelow(values, s, n)
    decreases |values|, n
  {
    if n > 0 {
      PermsHeadedExact(values, n - 1, s);
      var rest := Without(values, n - 1);
      PrefixedHas(values[n - 1], Perms(rest), s);
      if s != [] {
        PermsExact(rest, s[1..]);
      }
      assert s in Prefixed(values[n - 1], Perms(rest)) <==> HeadedAt(values, s, n - 1);
    }
  }

  /** The head of `s` is one of the first `n` values, and the rest permutes the others. */
  ghost predicate HeadedBelow(values: seq<nat>, s: seq<nat>, n: nat)
    requires n <= |values|
  {
    n > 0 && (HeadedBelow(values, s, n - 1) || HeadedAt(values, s, n - 1))
  }

  lemma {:induction false} HeadedSomewhere(values: seq<nat>, s: seq<nat>, n: nat)
    requires n <= |values|
    ensures HeadedBelow(values, s, n) <==> exists i: nat :: i < n && HeadedAt(values, s, i)
  {
    if n > 0 {
      HeadedSomewhere(values, s, n - 1);
    }
  }

  function Factorial(n: nat): nat {
    if n == 0 then 1 else n * Factorial(n - 1)
  }

  lemma {:induction false} PermsCount(values: seq<nat>)
    ensures |Perms(values)| == Factorial(|values|)
    decreases |values|, |values| + 1
  {
    if |values| <= 1 {
      assert Factorial(1) == 1 * Factorial(0);
    } else {
      PermsHeadedCount(values, |values|);
    }
  }

  lemma {:induction false} PermsHeadedCount(values: seq<nat>, n: nat)
    requires 0 < |values| && n <= |values|
    ensures |PermsHeaded(values, n)| == n * Factorial(|values| - 1)
    decreases |values|, n
  {
    if n > 0 {
      var rest := Without(values, n - 1);
      PermsHeadedCount(values, n - 1);
      PermsCount(rest);
      assert PermsHeaded(values, n) == PermsHeaded(values, n - 1) + Prefixed(values[n - 1], Perms(rest));
      OneMoreTime(n - 1, Factorial(|values| - 1));
    }
  }

  lemma {:induction false} PrefixedDistinct(head: nat, tails: seq<seq<nat>>)
    requires Distinct(tails)
    ensures Distinct(Prefixed(head, tails))
  {
    forall i, j | 0 <= i < j < |tails|
      ensures Prefixed(head, tails)[i] != Prefixed(head, tails)[j]
    {
      assert Prefixed(head, tails)[i][1..] == tails[i] && Prefixed(head, tails)[j][1..] == tails[j];
    }
  }

  lemma {:induction false} WithoutDistinct(values: seq<nat>, i: nat)
    requires i < |values| && Distinct(values)
    ensures Distinct(Without(values, i))
  {
  }

  /** Distinct values never give the same order twice. */
  lemma {:induction false} PermsDistinct(values: seq<nat>)
    requires Distinct(values)
    ensures Distinct(Perms(values))
    decreases |values|, |values| + 1
  {
    if |values| > 1 {
      PermsHeadedDistinct(values, |values|);
    }
  }

  lemma {:induction false} PermsHeadedDistinct(values: seq<nat>, n: nat)
    requires n <= |values| && Distinct(values)
    ensures Distinct(PermsHeaded(values, n))
    decreases |values|, n
  {
    if n > 0 {
      var before, more := PermsHeaded(values, n - 1), Prefixed(values[n - 1], Perms(Without(values, n - 1)));
      PermsHeadedDistinct(values, n - 1);
      WithoutDistinct(values, n - 1);
      PermsDistinct(Without(values, n - 1));
      PrefixedDistinct(values[n - 1], Perms(Without(values, n - 1)));
      forall i, j | 0 <= i < |before| && 0 <= j < |more|
        ensures before[i] != more[j]
      {
        PermsHeadedExact(values, n - 1, before[i]);
        HeadedSomewhere(values, before[i], n - 1);
      }
    }
  }

  // ---------------------------------------------------------------------------
  // Commit tiers
  // ---------------------------------------------------------------------------

  /** The part of a compiled internal transition that decides commit orders. */
  datatype Commit = Commit(writes: seq<nat>, phase: Option<nat>)

  predicate TierLeq(a: Option<nat>, b: Option<nat>) {
    b.None? || (a.Some? && a.value <= b.value)
  }

  predicate Intersects(a: seq<nat>, b: seq<nat>) {
    exists i | 0 <= i < |a| :: a[i] in b
  }

  predicate WriteConflict(commit: nat -> Commit, internal: seq<nat>) {
    exists i, j | 0 <= i < j < |internal| :: Intersects(commit(internal[i]).writes, commit(internal[j]).writes)
  }

  predicate InTierOrder(commit: nat -> Commit, s: seq<nat>) {
    forall i, j | 0 <= i < j < |s| :: TierLeq(commit(s[i]).phase, commit(s[j]).phase)
  }

  /** One pass over neighbours decides tier order. */
  method IsNonDecreasing(commit: nat -> Commit, s: seq<nat>) returns (b: bool)
    ensures b <==> InTierOrder(commit, s)
  {
    for i := 0 to |s|
      invariant InTierOrder(commit, s[..i])
    {
      if i > 0 && !TierLeq(commit(s[i - 1]).phase, commit(s[i]).phase) {
        return false;
      }
      assert forall k | 0 <= k < i - 1 :: TierLeq(commit(s[..i][k]).phase, commit(s[..i][i - 1]).phase);
      assert s[..i + 1] == s[..i] + [s[i]];
    }
    assert s[..|s|] == s;
    b := true;
  }

  predicate OneTier(commit: nat -> Commit, internal: seq<nat>) {
    forall i, j | 0 <= i < |internal| && 0 <= j < |internal| :: commit(internal[i]).phase == commit(internal[j]).phase
  }

  /** The sequences whose tiers never fall. */
  function InOrder(commit: nat -> Commit, sequences: seq<seq<nat>>): seq<seq<nat>> {
    if sequences == [] then [] else
    var n := |sequences| - 1;
    InOrder(commit, sequences[..n]) + if InTierOrder(commit, sequences[n]) then [sequences[n]] else []
  }

  function CommitOrders(commit: nat -> Commit, internal: seq<nat>): seq<seq<nat>> {
    if !WriteConflict(commit, internal) then [internal]
    else if OneTier(commit, internal) then Perms(internal)
    else InOrder(commit, Perms(internal))
  }

  method StabilizingSequences(commit: nat -> Commit, internal: seq<nat>) returns (out: seq<seq<nat>>)
    ensures out == CommitOrders(commit, internal)
  {
    if !WriteConflict(commit, internal) {
      return [internal];
    }
    var sequences := Permutations(internal);
    if OneTier(commit, internal) {
      return sequences;
    }
    out := [];
    for i := 0 to |sequences|
      invariant out == InOrder(commit, sequences[..i])
    {
      assert sequences[..i + 1][..i] == sequences[..i];
      var keep := IsNonDecreasing(commit, sequences[i]);
      if keep {
        out := out + [sequences[i]];
      }
    }
    assert sequences[..|sequences|] == sequences;
  }

  lemma {:induction false} InOrderHas(commit: nat -> Commit, sequences: seq<seq<nat>>, s: seq<nat>)
    ensures s in InOrder(commit, sequences) <==> s in sequences && InTierOrder(commit, s)
  {
    if sequences != [] {
      var n := |sequences| - 1;
      InOrderHas(commit, sequences[..n], s);
      assert sequences == sequences[..n] + [sequences[n]];
    }
  }

  lemma {:induction false} InOrderDistinct(commit: nat -> Commit, sequences: seq<seq<nat>>)
    requires Distinct(sequences)
    ensures Distinct(InOrder(commit, sequences))
  {
    if sequences != [] {
      var n := |sequences| - 1;
      var kept := InOrder(commit, sequences[..n]);
      InOrderDistinct(commit, sequences[..n]);
      forall i | 0 <= i < |kept|
        ensures kept[i] != sequences[n]
      {
        InOrderHas(commit, sequences[..n], kept[i]);
      }
    }
  }

  lemma {:induction false} OneTierAlwaysRises(commit: nat -> Commit, internal: seq<nat>, s: seq<nat>)
    requires OneTier(commit, internal) && IsPermutation(s, internal)
    ensures InTierOrder(commit, s)
  {
    forall i, j | 0 <= i < j < |s|
      ensures TierLeq(commit(s[i]).phase, commit(s[j]).phase)
    {
      SameMembers(s, internal, s[i]);
      SameMembers(s, internal, s[j]);
      var k :| 0 <= k < |internal| && internal[k] == s[i];
      var l :| 0 <= l < |internal| && internal[l] == s[j];
    }
  }

  /** Under a write conflict the commit orders are exactly the rearrangements that
      never fall in tier; without one there is the given order only. */
  lemma {:induction false} CommitOrdersExact(commit: nat -> Commit, internal: seq<nat>, s: seq<nat>)
    ensures s in CommitOrders(commit, internal) <==>
            if WriteConflict(commit, internal) then IsPermutation(s, internal) && InTierOrder(commit, s) else s == internal
  {
    PermsExact(internal, s);
    InOrderHas(commit, Perms(internal), s);
    if OneTier(commit, internal) && IsPermutation(s, internal) {
      OneTierAlwaysRises(commit, internal, s);
    }
  }

  function ByTier(commit: nat -> Commit): (nat, nat) -> bool {
    (a: nat, b: nat) => TierLeq(commit(a).phase, commit(b).phase)
  }

  /** There is always an order to commit in. */
  lemma {:induction false} CommitOrdersExist(commit: nat -> Commit, internal: seq<nat>)
    ensures CommitOrders(commit, internal) != []
  {
    var s := Sort(ByTier(commit), internal);
    SortPermutes(ByTier(commit), internal);
    SortSorts(ByTier(commit), internal);
    if WriteConflict(commit, internal) {
      forall i, j | 0 <= i < j < |s|
        ensures TierLeq(commit(s[i]).phase, commit(s[j]).phase)
      {
        assert ByTier(commit)(s[i], s[j]);
      }
      CommitOrdersExact(commit, internal, s);
    }
  }

  /** No order is tried twice. */
  lemma {:induction false} CommitOrdersDistinct(commit: nat -> Commit, internal: seq<nat>)
    requires Distinct(internal)
    ensures Distinct(CommitOrders(commit, internal))
  {
    PermsDistinct(internal);
    InOrderDistinct(commit, Perms(internal));
  }

  /** One tier in conflict is committed in all `n!` orders. */
  lemma {:induction false} CommitOrdersCount(commit: nat -> Commit, internal: seq<nat>)
    requires WriteConflict(commit, internal) && OneTier(commit, internal)
    ensures |CommitOrders(commit, internal)| == Factorial(|internal|)
  {
    PermsCount(internal);
  }

  // ---------------------------------------------------------------------------
  // Tiers and conflicts in plain terms
  // ---------------------------------------------------------------------------

  /** The commit ordinal, and a rank above all ordinals where there is none. */
  ghost function Rank(c: Commit, top: nat): nat {
    if c.phase.Some? then c.phase.value else top
  }

  /** An order respects the tiers when ordinals never fall and the default tier comes last. */
  lemma {:induction false} TierOrderIsByRank(commit: nat -> Commit, s: seq<nat>, top: nat)
    requires forall i | 0 <= i < |s| && commit(s[i]).phase.Some? :: commit(s[i]).phase.value < top
    ensures InTierOrder(commit, s) <==> forall i, j | 0 <= i < j < |s| :: Rank(commit(s[i]), top) <= Rank(commit(s[j]), top)
  {
    forall i, j | 0 <= i < j < |s|
      ensures TierLeq(commit(s[i]).phase, commit(s[j]).phase) <==> Rank(commit(s[i]), top) <= Rank(commit(s[j]), top)
    {
    }
  }

  /** Two of the transitions write a common variable. */
  lemma {:induction false} ConflictIsCommonWrite(commit: nat -> Commit, internal: seq<nat>)
    ensures WriteConflict(commit, internal) <==>
            exists i, j, v :: 0 <= i < j < |internal| && v in commit(internal[i]).writes && v in commit(internal[j]).writes
  {
    if i, j :| 0 <= i < j < |internal| && Intersects(commit(internal[i]).writes, commit(internal[j]).writes) {
      var k :| 0 <= k < |commit(internal[i]).writes| && commit(internal[i]).writes[k] in commit(internal[j]).writes;
      assert commit(internal[i]).writes[k] in commit(internal[i]).writes;
    }
    if i, j, v :| 0 <= i < j < |internal| && v in commit(internal[i]).writes && v in commit(internal[j]).writes {
      var k :| 0 <= k < |commit(internal[i]).writes| && commit(internal[i]).writes[k] == v;
      assert Intersects(commit(internal[i]).writes, commit(internal[j]).writes);
    }
  }
}
