# The native checker, modelled and verified in Dafny

The repository's native checker (`crates/checker/src`) is an explicit-state model checker. It compiles a
transition system, explores it breadth-first over canonical keys, records the edges, and labels the resulting
graph with CTL formulas; it also decides step invariants while it searches and bounded-response properties
by a memoised search. This project models each stage and proves it against an independent mathematical meaning:

- **Graph and CTL engine.** Tarjan's algorithm as a class with the source's fields returns exactly the
  reachable strongly connected components, sinks first. EG through components is "some infinite path stays
  in F"; every formula is labelled by its path semantics, with AX vacuous at dead ends and EG needing an
  infinite path, and the dualised AU and AF are least fixpoints. The fair-EG loop stops at the greatest
  stable set; where its comment promises more than the code does, the failing graph is given together with
  the exact condition, on the graph and the sets alone.
- **Search.** Seeding, parallel expansion, edge recording, the sharded merge and the limits, over any
  successor function and key function whose equal keys step alike. Rounds are exact distance levels; parents
  form a forest of shortest real runs; workers and merge order do not matter; a limit passes nothing. An
  exhausted search decides every CTL formula, every step property and every bounded response on all runs of
  the whole, possibly infinite, system. What is assumed of keys concerns only states that runs visit, and for
  models without tokens it is proved of the system that the model's own effects, stabilisation and keys give.
- **Step semantics.** Values, nested domains, expressions, effects, mount-scoped variables, commit orders
  and stabilisation. Operators obey the laws of arithmetic, order and logic; the posts of an effect are what a
  step relation leads to; the explored system's steps and initial states are exactly those the model describes.
- **Encoding, independence, bounded response.** Two states have the same canonical bytes exactly when a
  bijection of token strings maps one to the other; independent transitions commute; the memoised search
  answers like the plain one, which finds nothing exactly when every scheduler run meets the goal.

Code that changes things step by step (the component search, the visited set, the search loop, the encoder,
stabilisation, the mount reset, the memoised search) is written as classes and methods with loops, each tied
by its contract to a specification; expression evaluation and classification are functions. One module per
source concern; inductions are always explicit, so every lemma switches automatic induction off.

Text is a byte string (UTF-8), so key order and name order are byte order. Numbers are mathematical
integers; the canonical encoding's widths are explicit and its lemmas ask for values that fit them. A JSON
object is the list of its entries in name order. Iteration over hash sets is an arbitrary choice. The shard
hash is any function into the shards; a transition is its index in id order; library sorting is a stable
insertion sort.

## Model

| member | source | states |
|---|---|---|
| Scc.TarjanState.StrongConnect | crates/checker/src/scc.rs:30-70 | visiting an unindexed node keeps the search invariant, indexes it, and either leaves it on the stack with an older node it reaches or returns its whole component |
| Scc.TarjanState.PopComponent | crates/checker/src/scc.rs:55-68 | popping takes exactly the nodes down to the root off the stack, and off the on-stack marks |
| Scc.TarjanState.EmitComponent | crates/checker/src/scc.rs:55-69 | a node whose low link is its own index yields one complete component, found after everything it leads to |
| Scc.RegionIsComponent | crates/checker/src/scc.rs:54-69 | the nodes above such a root on the stack are a maximal set of nodes that reach one another |
| Scc.TarjanSccs | crates/checker/src/scc.rs:77-89 | the result partitions exactly the nodes reachable from the roots into maximal strongly connected sets, no component having an edge to a later one |
| Ctl.NonTrivialIsCyclic | crates/checker/src/scc.rs:93-101 | the components kept are exactly those whose nodes lie on a cycle |
| Ctl.BuildIndex | crates/checker/src/ctl.rs:26-53 | forward and backward adjacency describe one graph: the recorded edges with both ends in the universe |
| Ctl.BackwardWithin | crates/checker/src/ctl.rs:256-272 | the worklist returns exactly the states from which the seeds are reached along states of the given set |
| Ctl.CyclicClosureIsAlways | crates/checker/src/ctl.rs:293-310 | closing the cyclic components backwards inside F gives exactly the states with an infinite path inside F, by a pigeonhole argument |
| Ctl.EgLabel | crates/checker/src/ctl.rs:275-311 | a state is in the result if and only if some infinite path from it stays in F |
| Ctl.LabelAtom | crates/checker/src/ctl.rs:96-111 | the states satisfying an atom, or the error of a state where it has no value |
| Ctl.LabelNext | crates/checker/src/ctl.rs:137-163 | EX: some recorded successor; AX: every recorded successor, so vacuous at dead ends |
| Ctl.LabelFormula | crates/checker/src/ctl.rs:86-249 | for every formula the label is its set of satisfying states in path semantics, or an error exactly when some atom has no value somewhere |
| Ctl.EfIsReach | crates/checker/src/ctl.rs:166-169 | EF by backward search is reachability of a satisfying state |
| Ctl.AgIsReach | crates/checker/src/ctl.rs:172-181 | the complement of EF-not is "every reachable state satisfies" |
| Ctl.AfIsDual | crates/checker/src/ctl.rs:193-199 | the complement of EG-not is "every infinite path meets the set" |
| Ctl.AuIsDual | crates/checker/src/ctl.rs:219-247 | the complement of the two release sets is A[p U q] on infinite paths and dead-end paths |
| Ctl.CheckTemporal | crates/checker/src/ctl.rs:381-427 | verified, or verified within bounds when the graph is not complete, exactly when every initial state satisfies the formula in the recorded graph; otherwise a vacuous warning for an existential formula and a violation for any other |
| Fixpoint.AlwaysIsGreatestFixpoint | crates/checker/src/ctl.rs:182-191 | EG is the greatest fixpoint of Z = F and EX Z |
| Fixpoint.ExistsUntilIsLeastFixpoint | crates/checker/src/ctl.rs:201-216 | EU is the least fixpoint of q or (p and EX Z) |
| Fixpoint.AllUntilIsLeastFixpoint | crates/checker/src/ctl.rs:218-247 | AU is the least fixpoint of q or (p and AX Z), with AX vacuous at dead ends |
| Fixpoint.EventuallyDual | crates/checker/src/ctl.rs:192-199 | AF fails exactly where EG-not holds |
| Fixpoint.UntilDual | crates/checker/src/ctl.rs:218-247 | AU fails exactly where a release path or an infinite avoiding path exists |
| Fixpoint.EventuallyIsUntil | crates/checker/src/ctl.rs:192-199 | AF q is A[true U q], hence the least fixpoint with vacuous AX |
| Fixpoint.ReachIsUntil | crates/checker/src/ctl.rs:165-169 | EF q is E[true U q] |
| FairCtl.EgFair | crates/checker/src/ctl.rs:327-367 | the Emerson-Lei loop stops at the greatest stable subset of F, and the result is the states with an infinite path inside it |
| FairCtl.CoreIsGreatestStable | crates/checker/src/ctl.rs:338-364 | that subset is stable (every state reaches each fairness set inside it) and contains every stable subset of F |
| FairCtl.FairWalksAreKept | crates/checker/src/ctl.rs:317-326 | every state with a fair infinite path in F is in the result |
| FairCtl.StableWalksFairly | crates/checker/src/ctl.rs:317-326 | in a stable set without dead ends every state has a fair infinite path |
| FairCtl.EgFairIsExactIff | crates/checker/src/ctl.rs:319-320 | a step towards the exact condition: the promised "if and only if" holds exactly when one more pass over the answer drops nothing |
| FairExact.FairAlwaysIsReachingFairCycle | crates/checker/src/ctl.rs:317-326 | a fair infinite path in F starts exactly where a cycle is reached, inside F, whose component inside F meets every fairness set |
| FairExact.CoreIsReachingAnchors | crates/checker/src/ctl.rs:338-364 | the loop's fixpoint is exactly what reaches, inside F, such a fair cycle or a state lying in every fairness set |
| FairExact.EgFairIsExactWhen | crates/checker/src/ctl.rs:319-320 | the promised "if and only if" holds exactly when every cycle inside F that reaches, inside F, a state of all fairness sets also reaches a fair cycle there: a condition on the graph, F and the fairness sets alone |
| FairCtl.EgFairWithoutDeadEnds | crates/checker/src/ctl.rs:327-367 | in particular it holds, and the result is the core, when every core state has a successor in the core |
| FairCtl.EgFairOverApproximates | crates/checker/src/ctl.rs:319-320 | a two-state graph on which a state without any fair path stays in the result |
| Visited.VisitedSet.InsertSeed | crates/checker/src/visited.rs:96-116 | a new key is stored as a root, a known one changes nothing |
| Visited.VisitedSet.InsertChild | crates/checker/src/visited.rs:118-144 | the state gets the next id, its parent's key and its transition |
| Visited.LenIsArena | crates/checker/src/visited.rs:71-73 | in a consistent store the number of keys is the number of stored states |
| Visited.SortMergeCandidates | crates/checker/src/visited.rs:168-192 | bucketing by shard, sorting each and joining |
| Visited.SortedShardsIsSort | crates/checker/src/visited.rs:168-192 | that is a rearrangement of the candidates, sorted by shard, key and discovery position |
| Visited.KeptIsLeast | crates/checker/src/visited.rs:197-220 | the candidate kept for a key is the least of that key in the merge order |
| Visited.KeptIsFirst | crates/checker/src/visited.rs:197-220 | it is the first of them by frontier position, transition, raw branch and stabilisation branch |
| Visited.KeptCovers | crates/checker/src/visited.rs:197-220 | every new key keeps a candidate |
| Visited.KeptIsNew | crates/checker/src/visited.rs:197-220 | what is kept is a candidate whose key was not known |
| Visited.MergeIsConfluent | crates/checker/src/visited.rs:168-220 | any permutation of the candidates keeps the same candidates in the same order |
| Visited.ChunkFrontier | crates/checker/src/frontier.rs:4-14 | at most one non-empty contiguous chunk per worker, together the frontier |
| Bytes.LeqIsLexicographic | crates/checker/src/frontier.rs:16-18 | key order is byte-wise: a prefix comes first, otherwise the smaller byte at the first difference decides |
| Properties.ObserveEdge | crates/checker/src/property.rs:37-82 | verdicts are never overwritten, a new one was found on this edge, and a property without one passes on it |
| Properties.ApplySearchLimitVerdicts | crates/checker/src/search.rs:857-890 | every property ends with a decisive verdict or the limit's error; decisive ones stay |
| Properties.BudgetIgnoresInterleaving | crates/checker/src/search.rs:380-468 | whatever the order of the workers' notes, the stop flag ends up set exactly when the totals alone run into a limit |
| Search.ExpandChunk | crates/checker/src/search.rs:660-779 | one worker: every step of its states as edges, those to unknown keys as candidates |
| Search.ExpandFrontier | crates/checker/src/search.rs:526-568 | the joined worker outputs are those of the whole frontier, for any number of workers |
| Search.EdgesInOrder | crates/checker/src/search.rs:568 | edges are recorded and observed by the key they leave, then transition, then the key they enter |
| Search.RecordEdges | crates/checker/src/search.rs:570-623 | a prefix of the edges is recorded and observed, the verdicts account for exactly those, and the edge count never exceeds its limit |
| Search.RecordAllIs | crates/checker/src/graph.rs:41-119 | the recording of the edges is their adjacency, and their triggers, as far as the recording mode asks for them |
| Search.MergeSorted | crates/checker/src/search.rs:625-650 | the store gains a prefix of the kept candidates, all of them without a limit, and never grows beyond the state limit |
| Search.KeptInsertable | crates/checker/src/search.rs:625-650 | kept candidates have distinct new keys |
| Search.AddAllValid | crates/checker/src/visited.rs:118-144 | inserting them keeps arena, ids, parents and states consistent |
| Search.RunsKeep | crates/checker/src/search.rs:512-658 | what holds initially and is kept by every step holds in every state that a run visits |
| Search.ReachedOccurs | crates/checker/src/search.rs:512-658 | a key at n key steps from the start is the key of a state that a real run of n steps ends in |
| Levels.RoundAdvances | crates/checker/src/search.rs:512-658 | one round moves "stored = within d, frontier = exactly d" to d + 1 |
| Levels.RoundKeepsForest | crates/checker/src/search.rs:625-650 | every stored key keeps a parent one level nearer, by a real step of the stored parent, also when a limit cuts the merge short |
| Levels.RoundExpands | crates/checker/src/search.rs:575-623 | after the round every stored state outside the new frontier has all its steps among the observed edges |
| Levels.DistanceNext | crates/checker/src/search.rs:512-658 | distance d + 1 is one step from distance d and not nearer |
| Levels.StoredOccursAt | crates/checker/src/visited.rs:118-144 | the state stored for a key ends a real run as long as the key's distance |
| Explore.SeedFrontier | crates/checker/src/search.rs:487-510 | the seeds are level zero: stored and in the frontier as roots |
| Explore.SortedByCanon | crates/checker/src/frontier.rs:16-18 | frontiers list their states by ascending key bytes |
| Explore.ExpansionLimit | crates/checker/src/search.rs:526-568 | the limit a round reports after expansion is the one every interleaving of the workers' notes runs into |
| Explore.ExploreDepth | crates/checker/src/search.rs:512-658 | one round keeps the findings consistent and, unless cut short, the level invariant; a limit is reported only when the edges it generates reach a bound that is set |
| Explore.RunSearch | crates/checker/src/search.rs:169-247 | the loop goes on to the depth asked for unless the frontier empties, all verdicts are in or a bound is reached; it ends with consistent findings, the level invariant unless cut short, totals below every bound or a limit that is really reached, and at most max(maxStates, number of seeds) states |
| Checker.EmptyLevelIsAll | crates/checker/src/search.rs:169-172 | an empty frontier means the stored keys are exactly the reachable ones |
| Checker.StoredIsReachable | crates/checker/src/search.rs:625-650 | every stored key is reachable, whatever cut the search short |
| Checker.RecordedIsStep | crates/checker/src/graph.rs:41-100 | after an exhausted search the recorded edges are exactly the step relation on reachable keys |
| Checker.LabelIsTruth | crates/checker/src/ctl.rs:381-427 | a key is labelled with a formula exactly when the formula holds, on the whole system, at every state of a run with that key |
| Checker.FinalizeProperties | crates/checker/src/property.rs:88-155 | each property without a verdict gets what finalising it gives: the verdict of its labelling, or the answer of the response search from its recorded trigger edges; earlier verdicts stay |
| Checker.LabelledIsTruthful | crates/checker/src/ctl.rs:399-427 | on an exhausted search the status is the truth about the initial states, and an error means an atom without a value on a reachable state |
| Judging.ClearedPasses | crates/checker/src/property.rs:37-82 | a step property without a verdict passes on all steps of a really visited state of every key expanded, and, where keys decide its judgements, on every step out of every state of a run with such a key |
| Judging.TriggersAreReal | crates/checker/src/property.rs:207-244 | a resolved trigger edge is, up to the key of its end, a step out of a visited state that sets off the property |
| Judging.TriggersCover | crates/checker/src/graph.rs:54-90 | every step that sets off the property, out of a state near enough, has a recorded trigger edge to the same key |
| Judging.AnswersAreTrue | crates/checker/src/property.rs:157-205 | the verdict on the recorded trigger edges, or its absence, is the truth about the scheduler runs after every triggering step of the system |
| Judging.InjectiveJudges | crates/checker/src/canon.rs:39-41 | with an injective key the judgements of steps, the triggers and the scheduler's moves are decided by keys |
| Checker.FoundIsReal | crates/checker/src/property.rs:70-80 | a violation found during the search names a real step, out of a state that some run visits, that refutes the property |
| Checker.ResponsesAreTrue | crates/checker/src/property.rs:88-205 | after finalising, every bounded-response property with a name of its own has the verdict, or no verdict, that its runs deserve |
| Checker.EmptyLevelIsFar | crates/checker/src/search.rs:169-172 | an empty frontier at depth d means that every state of every run is less than d steps away |
| Checker.LimitPassesNothing | crates/checker/src/search.rs:257-262 | after a limit every verdict is an error or a real violation |
| Checker.CheckModel | crates/checker/src/search.rs:102-280 | the whole check: limits pass nothing, are respected and name a bound that is set; a bounded search reaches the depth asked for and never claims "verified"; exhausted searches decide every temporal property truthfully; step and response verdicts are true of everything within the depth searched, of every run after an exhausted search |
| Checker.InvariantIsEverywhere | crates/checker/src/ctl.rs:172-181 | AG p is true initially exactly when p holds in every state that any run visits |
| Checker.InvariantVerdict | crates/checker/src/ctl.rs:399-427 | after an exhausted check, AG p is reported verified exactly when p holds in every state that any run visits, and violated exactly when it fails in some and has a value in all |
| Checker.InjectiveKeys | crates/checker/src/canon.rs:39-41 | a key that is injective on the states of runs makes equal keys step alike and atoms depend on keys |
| Quotient.QuotientPreserves | crates/checker/src/ctl.rs:391-400 | replacing states by keys that step alike preserves every CTL formula, on infinite systems too |
| Quotient.SemIsHolds | crates/checker/src/ctl.rs:86-249 | on a closed finite graph the labelling meaning is CTL satisfaction state by state |
| Trace.TraceTo | crates/checker/src/trace.rs:19-42 | the trace is a run of real steps from an initial state to the stored state, as long as the key's distance |
| Trace.TraceWithEdge | crates/checker/src/trace.rs:98-111 | the same run continued by the given edge |
| Values.RisingUnique | crates/checker/src/model.rs:40-48 | entries in name order are determined by their names |
| Enumerate.CartesianHas | crates/checker/src/domain.rs:821-835 | the product holds exactly the tuples that pick one item from each list |
| Enumerate.EnumeratedIsValid | crates/checker/src/domain.rs:558-619 | every enumerated value validates and is exactly shaped |
| Enumerate.ValidIsEnumerated | crates/checker/src/domain.rs:629-685 | every mounted, exactly shaped value that validates is enumerated |
| Enumerate.PutBack | crates/checker/src/domain.rs:594-600 | removing an entry and setting it again restores the object |
| Enumerate.NumericAssignStays | crates/checker/src/domain.rs:741-811 | a stored number belongs to the domain unless the range is empty, numbers of the domain are stored unchanged, and exactly overflows under "forbid" and empty domains are refused |
| Enumerate.SaturationIsNearest | crates/checker/src/domain.rs:764-811 | saturation stores a nearest number of a range; out of a set it stores the lower end below and the upper end otherwise |
| Enumerate.WrappingIsByRemainder | crates/checker/src/domain.rs:764-811 | wrapping stores the number of the range or set at the position that is the remainder by its size |
| Canon.TextUnambiguous | crates/checker/src/canon.rs:172-176 | encoded text is prefix-free |
| Canon.IntUnambiguous | crates/checker/src/canon.rs:84-88 | encoded 64-bit integers are prefix-free and injective |
| Canon.TokenNameInjective | crates/checker/src/canon.rs:89-100 | different token numbers have different names |
| Canon.Unambiguous | crates/checker/src/canon.rs:63-170 | if the bytes of two values of a domain start one byte string, they are equal and the second value is the first with its tokens renamed in order of appearance |
| Canon.EncodeSees | crates/checker/src/canon.rs:89-100 | encoding adds exactly the value's tokens to the table, without repetition |
| Canon.RenameKeepsBytes | crates/checker/src/canon.rs:63-170 | renaming tokens injectively, in the value and in the table, keeps the bytes |
| Canon.KeyIsRenamingClass | crates/checker/src/canon.rs:22-41 | two well-typed, exactly shaped states have equal keys if and only if a bijection of token strings, applied at all token positions, maps one to the other |
| Canon.TokenFreeSeesNothing | crates/checker/src/canon.rs:39-41 | without token domains no token is ever numbered |
| Canon.TokenFreeKeyIsInjective | crates/checker/src/canon.rs:22-41 | without token domains the key is injective |
| Encoder.StateEncoder.Number | crates/checker/src/canon.rs:89-97 | a token keeps its number, a new one gets the next |
| Encoder.StateEncoder.EncodeValue | crates/checker/src/canon.rs:63-170 | the buffer grows by the encoding of the value and the table by its tokens |
| Encoder.CanonicalIdentity | crates/checker/src/canon.rs:22-37 | one buffer and one table over all variables give the canonical key |
| Orders.Permutations | crates/checker/src/stabilize.rs:244-263 | the recursive generation with its loops, list for list |
| Orders.PermsExact | crates/checker/src/stabilize.rs:244-263 | the generated lists are exactly the rearrangements of the values |
| Orders.PermsCount | crates/checker/src/stabilize.rs:244-263 | there are n! of them |
| Orders.PermsDistinct | crates/checker/src/stabilize.rs:244-263 | none is generated twice |
| Orders.IsNonDecreasing | crates/checker/src/stabilize.rs:227-242 | one pass over neighbours decides whether tiers never fall, the default tier being last |
| Orders.StabilizingSequences | crates/checker/src/stabilize.rs:93-105 | the commit orders |
| Orders.CommitOrdersExact | crates/checker/src/stabilize.rs:93-105 | under a write conflict exactly the rearrangements that never fall in tier, otherwise the given order alone |
| Orders.TierOrderIsByRank | crates/checker/src/stabilize.rs:198-242 | an order respects the tiers when commit ordinals never fall and the default tier comes last |
| Orders.ConflictIsCommonWrite | crates/checker/src/stabilize.rs:179-196 | a write conflict is a variable that two of the transitions write |
| Orders.CommitOrdersExist | crates/checker/src/stabilize.rs:93-105 | there is always at least one |
| Orders.CommitOrdersDistinct | crates/checker/src/stabilize.rs:93-105 | none is tried twice |
| Orders.CommitOrdersCount | crates/checker/src/stabilize.rs:93-105 | one tier in conflict gives n! |
| Stabilize.CompileTriggers | crates/checker/src/model.rs:645-664 | the trigger index lists, per variable, exactly the internal transitions it triggers |
| Stabilize.IndexedCandidates | crates/checker/src/stabilize.rs:53-76 | candidates from the index, ascending and without repetition |
| Stabilize.FiringByIndex | crates/checker/src/stabilize.rs:25-32 | the indexed search finds exactly the transitions a scan over all of them finds, in order |
| Stabilize.QuiescentMeansNoneFires | crates/checker/src/stabilize.rs:24-91 | at rest no internal transition both is enabled and has no trigger or a changed one |
| Stabilize.ApplyInternalSequence | crates/checker/src/stabilize.rs:107-162 | one commit order applied in place of the list of states |
| Stabilize.ApplySequenceExact | crates/checker/src/stabilize.rs:107-162 | its results are exactly the ends of runs in which each transition is taken where still enabled and skipped elsewhere |
| Stabilize.UniqueKeys | crates/checker/src/stabilize.rs:164-177 | deduplication keeps every key, each once |
| Stabilize.UniqueKeepsFirst | crates/checker/src/stabilize.rs:164-177 | deduplication keeps the first state of every key |
| Stabilize.Stabilize | crates/checker/src/stabilize.rs:13-51 | success returns the first round at rest below the bound, failure means no round below it is at rest |
| Stabilize.StabilizedStates | crates/checker/src/stabilize.rs:13-51 | on success every state is quiescent for its retained changes, reached by rounds of whole commit orders, and no key occurs twice |
| Stabilize.BoundIsMonotone | crates/checker/src/stabilize.rs:21-50 | a larger step bound never changes a success |
| Stabilize.StabilizedIsTheOutcome | crates/checker/src/stabilize.rs:13-51 | stabilising has exactly one outcome, the one the system's steps are built from |
| Stabilize.RestIsReturned | crates/checker/src/stabilize.rs:13-51 | a quiescent state is returned alone |
| Stabilize.RoundsKeepKeys | crates/checker/src/stabilize.rs:24-43 | whatever a round produces from a kept state is represented by its key in the next |
| Stabilize.RoundsKeep | crates/checker/src/stabilize.rs:21-45 | what every internal transition keeps holds in every state on the way to rest |
| Mount.ResetMountLocals | crates/checker/src/mount.rs:13-53 | the loop over variables and states |
| Mount.ResetIsExact | crates/checker/src/mount.rs:13-53 | a state is returned exactly when inactive locals are unmounted, newly active ones hold an initial value, and everything else is untouched |
| Mount.ResetIsIdempotent | crates/checker/src/mount.rs:13-53 | resetting a result against itself returns it alone |
| Mount.ResetBranches | crates/checker/src/mount.rs:35-42 | with guards over globals the number of results is the product of the initial-value counts of the newly active locals |
| Mount.NormalisingIsSingle | crates/checker/src/mount.rs:6-11 | normalising an initial state never branches |
| Expr.WriteThenRead | crates/checker/src/state.rs:41-81 | what is written at a path is read back from it |
| Expr.WriteKeepsOthers | crates/checker/src/state.rs:70-80 | writing at a name leaves an object's other entries alone |
| Operators.AdditionIsAGroup | crates/checker/src/expr.rs:187-188 | addition on integers commutes and associates, zero is neutral, and adding back what was subtracted restores the number |
| Operators.AdditionIsMonotone | crates/checker/src/expr.rs:183-188 | adding respects the order, and adding one gives the next integer |
| Operators.RemainderIsEuclidean | crates/checker/src/expr.rs:189-203 | the remainder lies between zero and the divisor's magnitude and differs from the dividend by a multiple of the divisor |
| Operators.ArithmeticNeedsIntegers | crates/checker/src/expr.rs:187-203 | arithmetic has no value exactly on what is not an integer and on a zero divisor |
| Operators.OrderIsTotal | crates/checker/src/expr.rs:183-186 | of two integers exactly one is less, equal or greater, and the weak comparisons add equality |
| Operators.OrderIsStrict | crates/checker/src/expr.rs:183-186 | "less" is irreflexive and transitive, and nothing but integers compares |
| Operators.OrderIsBySign | crates/checker/src/expr.rs:183-188 | comparing integers agrees with the sign of their difference, and zero is below one |
| Operators.EqualityIsIdentity | crates/checker/src/state.rs:83-112 | equality is identity of values and "not equal" its negation |
| Operators.NegationIsTruth | crates/checker/src/expr.rs:82-85 | only the value true counts as true |
| Operators.DeMorgan | crates/checker/src/expr.rs:60-85 | negation turns conjunctions into disjunctions of the negated values and back |
| Operators.LogicJoins | crates/checker/src/expr.rs:60-81 | conjunction and disjunction join part by part, true and false on no values |
| Operators.ConditionalSelects | crates/checker/src/expr.rs:86-97 | a conditional is its second argument where the first is true and its third everywhere else |
| Operators.LengthsSeparate | crates/checker/src/expr.rs:114-124 | the length category tells lengths zero, one and more apart |
| Operators.TagIsVariant | crates/checker/src/expr.rs:103-113 | on a valid object of the expression's tagged domain the tag test holds for exactly its own variant |
| Operators.NoTagElsewhere | crates/checker/src/expr.rs:103-113 | without a tagged domain, and on anything but an object, no tag is found |
| Operators.FreshIsFirst | crates/checker/src/effect.rs:257-280 | the fresh token is the first name of the domain that the state does not mention |
| Operators.PathsCompose | crates/checker/src/state.rs:41-51 | reading along a path is reading along its parts in turn |
| Operators.SegmentsRead | crates/checker/src/state.rs:41-51 | one segment reads an object's entry by name and a list's item by decimal index |
| Operators.UpdateThenRead | crates/checker/src/expr.rs:98-102 | an updated value reads back the new part at the updated path |
| Operators.PathDomainIsSound | crates/checker/src/domain.rs:687-725 | what is read along a path of a valid value belongs to the domain found along the path, or is not there |
| Checked.EnablednessReadVars | crates/checker/src/expr.rs:289-320 | guard reads and mount-guard reads, closed by repeated passes |
| Checked.CloseIsLeast | crates/checker/src/expr.rs:301-318 | the passes reach the least set that contains the seeds and is closed under mount guards |
| Checked.TouchedIsExact | crates/checker/src/model.rs:530-555 | a transition touches exactly what it declares to write and the least set, closed under mount guards, of its declared and guard reads |
| Checked.AllowedReads | crates/checker/src/expr.rs:995-1010 | exactly the declared reads and what deciding the listed transitions reads |
| Checked.PlainReadsOnly | crates/checker/src/expr.rs:249-287 | an expression of state reads depends only on the variables found in it |
| Checked.EnabledReadsOnly | crates/checker/src/expr.rs:322-331 | whether a transition is enabled depends only on its enabledness variables |
| Checked.CheckedIsEval | crates/checker/src/expr.rs:724-993 | whenever checked evaluation gives a value, plain evaluation gives that value |
| Checked.CheckedReadsOnly | crates/checker/src/expr.rs:724-993 | states and pre-states that agree on the allowed variables give the same value or the same error |
| Effects.ApplyEffectInner | crates/checker/src/effect.rs:54-207 | effects run in place, a sequence keeping its list of states and the operation arguments in force |
| Meaning.PostsAreLed | crates/checker/src/effect.rs:54-207 | the posts of an effect are exactly the states a step relation leads to: the branch the condition chooses, some intermediate state of a sequence with the operation arguments in force, each listed value of a choice |
| Meaning.EnqueueAdds | crates/checker/src/effect.rs:159-186 | an enqueue adds one operation with the given id, continuation and arguments at the end of a queue that was not full |
| Meaning.EnqueueThenDequeue | crates/checker/src/effect.rs:159-202 | dequeuing at the old length right after an enqueue gives back the old queue and the old state |
| Meaning.ArgsAreStored | crates/checker/src/effect.rs:171-174 | an operation stores, by name, the value of the last argument of that name |
| Meaning.DequeuePutsInForce | crates/checker/src/effect.rs:136-147 | reaching a dequeue puts the arguments of the operation it takes in force, any other effect leaves those in force |
| Meaning.QueueIsTheOne | crates/checker/src/model.rs:739-764 | a named queue is the variable of that name in the queue role, an unnamed one the only variable in that role |
| Meaning.AssignThenRead | crates/checker/src/effect.rs:61-96 | after an assignment the variable reads as the value stored, any other as before, and the pre-state as it was |
| Effects.FrameOfEffect | crates/checker/src/effect.rs:54-207 | every post differs from the state at most on what the effect writes |
| Effects.EffectIsLocal | crates/checker/src/effect.rs:54-207 | laying any state around the variables an effect reads and writes commutes with applying it |
| Effects.HavocCoversDomain | crates/checker/src/effect.rs:98-109 | havoc branches to exactly the valid, exactly shaped values |
| Effects.AssignStaysInDomain | crates/checker/src/effect.rs:61-96 | an assignment to a numeric or list variable stores a value of its domain or has no post |
| Effects.LookingBackIsLayered | crates/checker/src/effect.rs:40-51 | mount guards over globals and earlier locals give the reset's side condition |
| Effects.PostsAreReset | crates/checker/src/effect.rs:13-52 | the posts of a transition are exactly the complete mount resets of what its effect leaves |
| Por.NoBarrierIsStraight | crates/checker/src/por.rs:304-313 | an effect without barrier is a sequence of assignments |
| Por.QueueFlagIsScan | crates/checker/src/model.rs:562-583 | no queue variable counts as touched unless the effect holds a queue operation, so the flag is the scan's |
| Por.FootprintSpans | crates/checker/src/model.rs:820-861 | a validated footprint covers what guard and effect read and write |
| Por.IndependenceIsExact | crates/checker/src/por.rs:257-313 | a pair is independent exactly when the transitions differ, are invisible and not internal, carry no barrier, and neither writes what the other reads, writes or is triggered by |
| Por.Undisturbed | crates/checker/src/por.rs:287-299 | where states differ only outside a transition's footprint its guard agrees and its posts correspond |
| Por.IndependentCommute | crates/checker/src/por.rs:257-302 | independent transitions do not change each other's guards, and running them in either order gives the same posts |
| LeadsTo.PlainIsSound | crates/checker/src/property.rs:258-330 | a suffix found is a full run that misses the goal throughout; an error is met on some run |
| LeadsTo.NoneIsAllMeet | crates/checker/src/property.rs:258-330 | nothing is found exactly when every full scheduler run meets the goal within the budget |
| LeadsTo.Visit | crates/checker/src/property.rs:258-317 | the memo only ever holds what the plain search finds |
| LeadsTo.FailingSuffixWithin | crates/checker/src/property.rs:245-330 | where keys decide, the memoised search answers like the plain one, up to keys, and finds nothing exactly when every full run meets the goal |
| LeadsTo.InjectiveAnswer | crates/checker/src/property.rs:281-284 | with a memo key injective on the states it meets the answer is the plain one, and a suffix is a failing run |
| LeadsTo.FinalizeLeadsTo | crates/checker/src/property.rs:157-205 | from the recorded edges: vacuous without triggers, refuted by a trigger with a failing run, undefined by one whose goal has no value, otherwise every trigger is answered |
| LeadsTo.ResolvedHas | crates/checker/src/property.rs:207-243 | the trigger edges are exactly the recorded edges that set off the property between stored states |
| LeadsTo.MovesAreSteps | crates/checker/src/property.rs:332-384 | scheduler moves are exactly the allowed steps |
| LeadsTo.MovesInOrder | crates/checker/src/property.rs:372-379 | scheduler moves are tried by transition, then by the key they lead to |
| Explored.StepsAreExact | crates/checker/src/search.rs:686-770 | a step of the explored system is exactly a stabilised result of a raw post of a transition that is not internal, whose guard holds and whose touched locals are mounted |
| Explored.InitialsAreExact | crates/checker/src/domain.rs:837-860 | the initial states are exactly the choices of declared initial values, normalised and stabilised with every variable changed |
| Explored.RulesListTheModel | crates/checker/src/model.rs:512-660 | stabilisation runs on the internal transitions in index order, with the triggers, writes and ordinals they declare |
| Explored.RulesRunTheModel | crates/checker/src/stabilize.rs:107-152 | it enables them as at the top level, applies them with the round's start as pre-state and without a mount reset, and counts as changed what differs |
| Native.KeysAreInjective | crates/checker/src/canon.rs:22-41 | no two states of a well-typed model's runs share a canonical key when no domain has tokens |
| Native.EffectsKeepRuns | crates/checker/src/search.rs:700-780 | what the normalised initial states satisfy and every effect keeps, mount reset included, holds in every state that a run visits, through stabilisation |
| Native.CheckNative | crates/checker/src/search.rs:102-280 | the check of a well-typed model without tokens, on the system its own effects, stabilisation and keys give: every temporal, step and response verdict is true, with no assumption left on keys, and the depth asked for is reached |
| Typing.EffectKeeps | crates/checker/src/effect.rs:54-207 | a typed effect leads from well-typed states to well-typed states only |
| Typing.ResetKeeps | crates/checker/src/mount.rs:13-53 | the mount reset keeps states well-typed |
| Typing.TypedIsWellTyped | crates/checker/src/domain.rs:558-619 | a static condition on initial values and effects under which every state of every run is well-typed |

## Left out

- Ctl.CheckTemporal: fairness constraints and the witness attached to a violation are not modelled.
- Checker.FinalizeProperties: fairness constraints are not modelled.
- Checker.CheckModel: fairness constraints, the witness attached to a violation, statistics, vacuity warnings and bound hits are not part of the result.
- LeadsTo.FailingSuffixWithin: the source's memo key is a 64-bit hash of the canonical bytes; the model uses the bytes, so hash collisions are not modelled.
- Effects.ApplyEffectInner: bound-hit diagnostics are not modelled.
- Por.IndependentCommute: asks for guards and effects built only from state reads and for a model without mount-scoped variables, because the classification does not look inside `transitionEnabled` terms.
- Checked.CheckedReadsOnly: excludes `freshToken`, which looks at every variable of the state, and guards that ask for other transitions.
- Canon.KeyIsRenamingClass: asks for integers of 64 bits and lengths and token counts below 2^32, the widths the encoding uses.
- Mount.ResetIsExact: top-level effects; an internal transition runs with a pre-state and skips the reset.
- Fair CTL for nested formulas: the labeller sends EX, AX, EF and AG to the unfair one; only fair EG is modelled.
- Native.CheckNative: models whose guards hold only literals, state reads and operators; with token domains, that equal keys step alike stays an assumption of `Checker.CheckModel`.
- Typing.TypedIsWellTyped: enqueuing is not among the typed effects, because its operation records are not checked against the queue's domain.
- Reduced exploration under partial-order reduction, and its statistics: every property kind turns it off.
- The memory guard, elapsed time, worker threads and atomics, JSON input and output, and the TypeScript around the checker.
- Inference of arithmetic result domains, floating-point JSON numbers, and overflow of 64-bit arithmetic in expressions.
- Validation of whole models beyond the footprints, domains and guards named above.
