# Dedekind numbers, third-order algorithm: a Dafny model

DedekindJob computes the Dedekind number of order n with a third-order
formula. It enumerates triples (mu, nu, eta) of antichains, groups them into
classes up to the symmetry group, counts for each class the solutions
(a, b, c) with a∨b = mu, a∨c = nu, b∨c = eta and a∧b∧c = abc, and adds the
weighted counts over a set of MPI nodes. The computation is a checkpointable
state machine that moves through four stages.

This project models the sequential logic underneath that computation.

- **Finite sets.**
  - `SmallBasicSet` models the bit-packed set over {1..12}. It covers the set operations, size and subset count, the binomial helper, the split into n parts, the static tables and ascending iteration.
  - `BasicSet` models the plain reference set.
  - `Bits` holds the bit arithmetic both rest on. `Combinatorics` holds powers of two, factorials and binomials.
- **Antichains.** `AntiChains` is an abstract model: an antichain is a finite set of `set<int>`.
  - Join is the maximal elements of the union.
  - Meet is the maximal elements of the pairwise intersections.
  - `Le` says every element lies below some element of the other.
  - The lemmas show that join and meet are the least upper and greatest lower bounds of that order.
- **Triples.** `MuNuEtas` models ordering, sorting, the canonical form, encoding, the consistency check with its lower bounds, `p3` and the class count. `P3B` models the solution counter: splitting into components, forced placements and the recursive `count`.
- **Graph utilities.** `AntiChainSolver` models the conflict graph, connected-component counting, the transitive closure, `PatricksCoefficient` and the seeding of `equivalenceClasses`.
- **State machine.** `States` models `ComputationState`: its constructors, the non-negative sum, the round-robin counter, and the insert-if-absent and merging map updates. `Stages` models the four stage classes and their checkpoints. `StateFiles` models the checkpoint file name.
- **Coordinator.** `ThirdOrder`, `RoundRobin`, `Gather` and `CountMaps` model the pure parts of `ThirdOrderAlgorithm`:
  - the getters and `compute`;
  - scaling class sizes by binomials;
  - the round-robin loops and the key-wise merge;
  - the displacement arithmetic of `gatherSum`;
  - the eta interval.
- **Helpers.**
  - `Collector` models the map semantics of `CollectorMap`.
  - `SetIterators` models the subset iterator of `IntervalPoset`.
  - `Closures` and `IntervalPosets` model its memoised after/before closures and its levels.

Modelling conventions:
- Java `null` is `Option.None`.
- A thrown exception is a `Result.Failure` naming the exception kind.
- Iteration over Java hash and tree sets is an arbitrary choice (`Wrappers.Choose`), so each proved property holds for every iteration order.
- The unseen antichain operations are parameters of the members that use them, each constrained by the property the code relies on: comparison is a total order, and decode inverts encode.
- The key type of the (mu,nu,eta) map is generic. It is a BigInteger code in `src/` and an `MNECode` in `DedekindJob/src/mympi/FinishedState.java`, so one `Stages` model covers both `FinishedState` classes.

Where the code and its surrounding documentation differ, the model follows the code:
- **Finished accepts a zero sum.** `FinishedState` demands only a non-null, non-negative sum, although its error message speaks of a positive sum.
- **Each checkpoint keeps its own fields.** A store followed by a restore keeps only the fields that stage writes, not every public field:
  - Init keeps the equivalence classes and left interval sizes. It does not persist the counter, which comes back as 0.
  - Preparation keeps the classes, left sizes and triples.
  - Summing keeps the left sizes, triples and sum, but drops the equivalence classes.
  - Finished keeps only the sum.
  - Preparation and Summing restore the counter as the stored value minus one.
- **`getLevel(n)` for n < 1** indexes outside the level array, which is an error.
- **`getAfter` and `getBefore`** give null for an element with no entry in the successor or predecessor map.
- **After `gatherSum`, only the root holds the total.** Every other node's result collection is empty, so its sum is 0.
- **An inconsistent triple has no bottom.** `getBottom` gives null for it.
- **The bottom is a meet.** The comment on `getBottom` (src/step3/MuNuEta.java:161) calls it the join of mina, minb and minc; the code (line 164) takes their meet.
- **The two `combinations` differ when i < j.** `BasicSet.combinations` returns 1 and `SmallBasicSet.combinations` returns 0.

## Model

| member | source | states |
|---|---|---|
| SmallBasicSet.Empty | src/amfsmall/SmallBasicSet.java:58-66 | the empty set has no elements |
| SmallBasicSet.GetBit | src/amfsmall/SmallBasicSet.java:82-84 | an array-index failure exactly for x outside 1..12; otherwise the one-bit pattern holding exactly x |
| SmallBasicSet.FromSeq | src/amfsmall/SmallBasicSet.java:71-76 | an array-index failure exactly when some entry lies outside 1..12; otherwise the set holds exactly the array's entries |
| SmallBasicSet.Union | src/amfsmall/SmallBasicSet.java:177-179 | the elements are exactly A ∪ B |
| SmallBasicSet.Intersection | src/amfsmall/SmallBasicSet.java:187-189 | the elements are exactly A ∩ B |
| SmallBasicSet.Minus | src/amfsmall/SmallBasicSet.java:157-159 | the elements are exactly A \ B |
| SmallBasicSet.TryRemove | src/amfsmall/SmallBasicSet.java:335-337 | an array-index failure exactly for f outside 1..12; otherwise the elements are the old ones without f |
| SmallBasicSet.TryAdd | src/amfsmall/SmallBasicSet.java:196-198 | an array-index failure exactly for x outside 1..12; otherwise the elements are the old ones and x |
| SmallBasicSet.AddAll | src/amfsmall/SmallBasicSet.java:205-209 | an array-index failure exactly when some entry lies outside 1..12; otherwise the old set together with every entry of the array |
| SmallBasicSet.TryContains | src/amfsmall/SmallBasicSet.java:339-341 | an array-index failure exactly for f outside 1..12; otherwise true exactly when f is an element |
| SmallBasicSet.HasAsSubset | src/amfsmall/SmallBasicSet.java:130-132 | true exactly when every element of b is an element of this set |
| SmallBasicSet.IsEmpty | src/amfsmall/SmallBasicSet.java:138-140 | true exactly when there is no element |
| SmallBasicSet.Equals | src/amfsmall/SmallBasicSet.java:147-149 | true exactly when both sets have the same elements |
| SmallBasicSet.PositionsAreElems | src/amfsmall/SmallBasicSet.java:103-105 | the 1-based positions of the set bits are exactly the elements |
| SmallBasicSet.Size | src/amfsmall/SmallBasicSet.java:121-123 | the bit count is the number of elements |
| SmallBasicSet.NumberOfSubsets | src/amfsmall/SmallBasicSet.java:111-114 | the number of subsets is 2 to the number of elements |
| SmallBasicSet.Combinations | src/amfsmall/SmallBasicSet.java:326-333 | 0 when i < j, the binomial C(i, j) computed by exact divisions for 0 ≤ j ≤ i, and 0 when j < 0 ≤ i, where the product passes through 0 |
| SmallBasicSet.Universe | src/amfsmall/SmallBasicSet.java:393-395 | for every int n, the set {1..n mod 32}, since the int shift takes its distance mod 32; a failure when n mod 32 exceeds 12 |
| SmallBasicSet.UniverseWraps | src/amfsmall/SmallBasicSet.java:393-395 | n and n + 32 give the same universe, and −20 gives {1..12} |
| SmallBasicSet.CompareTo | src/amfsmall/SmallBasicSet.java:350-352 | the comparison is 0 exactly for sets with the same elements |
| SmallBasicSet.CompareToExtendsInclusion | src/amfsmall/SmallBasicSet.java:350-352 | a proper subset compares below its superset |
| SmallBasicSet.IncreaseIsSuccessor | src/amfsmall/SmallBasicSet.java:51-56 | increaseSet is a binary increment: applied to the bit positions of n it gives those of n + 1 |
| SmallBasicSet.StaticTables | src/amfsmall/SmallBasicSet.java:28-49 | sets[i] holds the 1-based positions of the set bits of i; compactSets[i] holds exactly for the masks 2^k − 1 |
| SmallBasicSet.IsCompact | src/amfsmall/SmallBasicSet.java:362-365 | true exactly when the set is {1..k} for some k |
| SmallBasicSet.Split | src/amfsmall/SmallBasicSet.java:91-101 | a negative n fails and n = 0 succeeds only for the empty set; otherwise n pairwise disjoint parts whose union is the set, with sizes differing by at most one |
| SmallBasicSet.SkipAbsent | src/amfsmall/SmallBasicSet.java:303-306 | the iterator's skip stops at the next element, or past 12, passing over only non-elements |
| SmallBasicSet.Iterate | src/amfsmall/SmallBasicSet.java:282-318 | the iterator yields every element and nothing else, in strictly ascending order |
| SmallBasicSet.Minimum | src/amfsmall/SmallBasicSet.java:371-376 | the least element, or 0 for the empty set |
| SmallBasicSet.Maximum | src/amfsmall/SmallBasicSet.java:382-387 | the greatest element, or 0 for the empty set |
| SmallBasicSet.Map | src/amfsmall/SmallBasicSet.java:420-425 | a failure exactly when some element i has no table entry or table[i] + 1 lies outside 1..12; otherwise the image holds exactly table[i] + 1 for every element i |
| BasicSet.EmptySet | src/amfsmall/BasicSet.java:16-24 | the empty set contains no element |
| BasicSet.Add | src/amfsmall/BasicSet.java:31-36 | the new set holds x and every old element, and nothing else |
| BasicSet.Remove | src/amfsmall/BasicSet.java:84-89 | the new set lacks f and keeps every other element's membership |
| BasicSet.Contains | src/amfsmall/BasicSet.java:91-93 | true exactly when f is an element |
| BasicSet.Combinations | src/amfsmall/BasicSet.java:76-82 | the binomial C(i, j) for 0 ≤ j ≤ i, 1 when i < j, and 0 when j < 0 ≤ i |
| MuNuEtas.Equals | src/step3/MuNuEta.java:217-224 | two triples are equal exactly when their three antichains are |
| MuNuEtas.CompareIsTotalOrder | src/step3/MuNuEta.java:194-201 | the lexicographic comparison is 0 only on equal triples, antisymmetric in sign and transitive |
| MuNuEtas.Sort | src/step3/MuNuEta.java:244-253 | a sorted triple is returned as is; otherwise the result is a permutation of the three antichains in descending order, flagged sorted |
| MuNuEtas.Standard | src/step3/MuNuEta.java:231-238 | the result is one of the candidates (the sorted triple or a sorted image) and is at most every candidate |
| MuNuEtas.DecodeEncode | src/step3/MuNuEta.java:704-710 | decoding the encoding gives back the same three antichains when antichain decoding inverts encoding |
| MuNuEtas.CodeEquals | src/step3/MuNuEta.java:768-776 | code equality holds exactly for identical codes |
| MuNuEtas.CodeCompareLex | src/step3/MuNuEta.java:750-757 | the code comparison is the lexicographic order on (m, n, e): sign exact, 0 only on equal codes, transitive |
| MuNuEtas.ChainsBelowTop | src/step3/MuNuEta.java:185-189 | each of mu, nu and eta lies below the top mu ∨ nu ∨ eta |
| MuNuEtas.TopCovered | src/step3/MuNuEta.java:185-189 | every set of the top belongs to one of the three antichains |
| MuNuEtas.UnSeenCount | src/step3/MuNuEta.java:105-112 | the chains a top set is missing from, plus the chains it occurs in, make three |
| MuNuEtas.IsNonZero | src/step3/MuNuEta.java:97-127 | null bounds exactly when the triple is inconsistent; otherwise the bounds mina, minb and minc |
| MuNuEtas.SolutionAccounts | src/step3/MuNuEta.java:105-119 | in any solution each top set occurs in at least two chains, and one in exactly two lies below a, b or c as the chains decide |
| MuNuEtas.InconsistentHasNoSolution | src/step3/MuNuEta.java:99-113 | a triple failing the two-occurrence check has no solution (a, b, c) |
| MuNuEtas.BoundsBelowSolutions | src/step3/MuNuEta.java:114-119 | any solution makes the triple consistent and lies above mina, minb and minc |
| MuNuEtas.SolutionBetweenBottoms | src/step3/MuNuEta.java:163-177 | the meet a ∧ b ∧ c of any solution lies between the bottom and the maximal bottom |
| MuNuEtas.SeedBelowSolutions | src/step3/P3B.java:115-126 | the starting a, b and c of `p` lie below the a, b and c of every solution whose meet is abc |
| MuNuEtas.SeedTestSound | src/step3/P3B.java:123-127 | every solution whose meet is abc passes the seed test: the seed's meet is abc |
| MuNuEtas.GetMina | src/step3/MuNuEta.java:133-136 | null exactly for an inconsistent triple; otherwise the top sets in mu and nu only |
| MuNuEtas.GetMinb | src/step3/MuNuEta.java:142-145 | null exactly for an inconsistent triple; otherwise the top sets in mu and eta only |
| MuNuEtas.GetMinc | src/step3/MuNuEta.java:151-154 | null exactly for an inconsistent triple; otherwise the top sets in nu and eta only |
| MuNuEtas.GetBottom | src/step3/MuNuEta.java:163-166 | null exactly for an inconsistent triple; otherwise the meet of the bounds, which lies below the maximal bottom |
| MuNuEtas.P3 | src/step3/MuNuEta.java:78-81 | 0 for an inconsistent triple, and 0 whenever the forced seed's meet differs from abc |
| MuNuEtas.P3ZeroesSound | src/step3/MuNuEta.java:78-81 | both zero cases of p3 are sound: a solution whose meet is abc makes the triple consistent and passes the seed test |
| MuNuEtas.EtaLowBelowHigh | src/step3/MuNuEta.java:522-526 | the lower end of the eta interval lies below its upper end |
| MuNuEtas.FactorMapAdd | src/step3/MuNuEta.java:528-529 | one more enumerated triple adds its mu factor to the total |
| MuNuEtas.EquivalenceClasses | src/step3/MuNuEta.java:514-535 | the class counts add up to the sum of the mu factors over all enumerated triples |
| P3B.Count | src/step3/P3B.java:196-247 | 0 whenever a ∧ b ∧ c ≠ abc, and 1 when it equals abc and no components are left |
| P3B.CountAtMostDistribute | src/step3/P3B.java:201-245 | the pruned count never exceeds the unpruned enumeration of placements |
| P3B.CountSharedExact | src/step3/P3B.java:201-221 | with only shared components left, the count equals the enumeration of placements |
| P3B.PairMissingZero | src/step3/P3B.java:205-211 | a shared component placed in two chains while it meets the third above abc admits no solution |
| P3B.SingleCheck | src/step3/P3B.java:55-61 | true exactly when every set of the fourth argument lies below the first argument or occurs in the second or third |
| P3B.CheckUnique | src/step3/P3B.java:63-79 | true exactly when the three component sets are pairwise disjoint |
| P3B.ConflictingPairs | src/step3/P3B.java:149-169 | collects exactly the first and the second members of the pairs that meet above abc |
| P3B.SplitParts | src/step3/P3B.java:99-110 | the sets shared by all three chains are split off, and the remaining parts of mu, nu and eta are disjoint from them |
| P3B.Seed | src/step3/P3B.java:115-126 | the starting a, b and c lie above abc and above the pairwise intersections of the parts |
| P3B.JoinEach | src/step3/P3B.java:172-174 | joining the components one by one gives the join with all of them |
| P3B.Force | src/step3/P3B.java:146-174 | the forced sets are the conflicting members named by the pairs; success exactly when they are pairwise disjoint, and then a, b, c are joined with them |
| P3B.P | src/step3/P3B.java:92-182 | 0 when the seed's meet differs from abc or a component is forced twice; never above the enumeration; equal to it when only shared components remain |
| P3B.CountBounded | src/step3/P3B.java:180-181 | the count never exceeds the enumeration of placements, and equals it when only shared components remain |
| AntiChainSolver.BuildGraph | src/amfsmall/AntiChainSolver.java:47-57 | the vertices are r2, and r links to s exactly when r ∩ s is not below r1 |
| AntiChainSolver.BuildGraphSymmetric | src/amfsmall/AntiChainSolver.java:47-57 | the conflict graph is symmetric |
| AntiChainSolver.BuildGraphEdges | src/amfsmall/AntiChainSolver.java:47-57 | both ends of an edge lie outside the down-set of r1 |
| AntiChainSolver.DoNode | src/amfsmall/AntiChainSolver.java:89-93 | the search marks only vertices reachable from n and leaves the marked set closed under edges |
| AntiChainSolver.CountConnected | src/amfsmall/AntiChainSolver.java:59-70 | the count is the size of a family of mutually unreachable start vertices covering the graph; on a symmetric graph every such family has that size, so it is the number of connected components; at most the vertex count, and 0 exactly for the empty graph |
| AntiChainSolver.CloseNode | src/amfsmall/AntiChainSolver.java:94-99 | every vertex added to the root's set is reachable from it and has an incoming edge |
| AntiChainSolver.TransitiveClosure | src/amfsmall/AntiChainSolver.java:72-87 | each root occurs once, no root reaches an earlier one, each root's set holds only vertices it reaches, and every vertex is assigned |
| AntiChainSolver.ComponentsConnect | src/amfsmall/AntiChainSolver.java:38-45 | a set outside the down-set shares a component with t exactly when t is reachable from it in the conflict graph |
| AntiChainSolver.GetConnectedComponents | src/amfsmall/AntiChainSolver.java:38-45 | the components are pairwise disjoint, hold exactly the sets of f outside the down-set of the modulus, and put two such sets together exactly when they are connected in the conflict graph |
| AntiChainSolver.JavaIntShift | src/amfsmall/AntiChainSolver.java:35 | Java's int shift 1 << n is 2^(n mod 32) below 31 and negative at 31 |
| AntiChainSolver.PatricksCoefficientAsWritten | src/amfsmall/AntiChainSolver.java:25-35 | 0 when r1 ≤ r2 fails, 1 when r1 = r2, 2 when only r1 is empty, otherwise the int shift 1 << k, where k is the number of connected components of the conflict graph of r1 over r2 \ r1 |
| AntiChainSolver.PatricksCoefficient | src/amfsmall/AntiChainSolver.java:25-35 | the same cases, with 2^k for that number of components k, which is at most the size of r2 \ r1 and is 0 exactly when r2 ⊆ r1 |
| AntiChainSolver.ComponentCount | src/amfsmall/AntiChainSolver.java:35 | the number of connected components of the conflict graph of r1 over f: every covering family of mutually unreachable representatives has this size; at most the number of sets, and 0 exactly for none |
| AntiChainSolver.RepresentativesAgree | src/amfsmall/AntiChainSolver.java:59-70 | on a symmetric graph, any two covering families of mutually unreachable vertices have the same size |
| AntiChainSolver.ShiftAgreesBelow31 | src/amfsmall/AntiChainSolver.java:35 | the int shift equals 2^n below 31 and differs from it from 31 on |
| AntiChainSolver.ShiftWraps | src/amfsmall/AntiChainSolver.java:35 | 31 components give a negative coefficient and 35 give 8 |
| AntiChainSolver.EquivalenceClasses | src/amfsmall/AntiChainSolver.java:109-121 | a negative bound fails; otherwise till + 1 maps, the first seeded with the two empty functions and each next derived from its predecessor |
| States.NewInit | src/mympi/ComputationState.java:78-85 | an order below 3 is rejected; otherwise a valid Init state with the given rank, node count and order and no data |
| States.CopyAs | src/mympi/ComputationState.java:97-105 | the copy keeps rank, nodes, order, data and timings, resets the counter to 0, and fails as the base constructor does |
| States.NewPreparation | src/mympi/PreparationState.java:28-34 | beyond the base constructor's conditions, succeeds exactly when the equivalence classes are present and non-empty; the data moves over with counter 0 |
| States.NewSumming | src/mympi/SumState.java:28-37 | succeeds exactly when the triples and left sizes are present and non-empty |
| States.NewFinished | src/mympi/FinishedState.java:33-39 | succeeds exactly when the sum is present and non-negative, zero included |
| States.SetSum | src/mympi/ComputationState.java:177-183 | a negative value is rejected and the state is unchanged apart from the sum, so the sum stays non-negative |
| States.AddToSum | src/mympi/ComputationState.java:341-349 | a negative addend is rejected; a null sum counts as 0; the sum grows by nr |
| States.AddAllToSumTotal | src/mympi/ComputationState.java:341-349 | adding a sequence succeeds exactly when all addends are non-negative, and adds their total |
| States.IncrementCounter | src/mympi/ComputationState.java:218-221 | from a counter in [−1, nodes) the result is in [0, nodes) and is the successor modulo nodes |
| States.MyTurn | src/mympi/ComputationState.java:230-233 | the turn belongs to this rank exactly when the incremented counter equals it |
| States.TurnsOwner | src/mympi/ComputationState.java:230-233 | the j-th call is this rank's turn exactly when the rank is (counter + j + 1) mod nodes |
| States.OneOwner | src/mympi/ComputationState.java:230-233 | every call belongs to exactly one rank in [0, nodes) |
| States.OneTurnPerWindow | src/mympi/ComputationState.java:230-233 | any nodes consecutive calls give a rank exactly one turn |
| States.AddEquivalenceClass | src/mympi/ComputationState.java:253-259 | insert-if-absent on the classes; everything else in the state is unchanged |
| States.AddLeftIntervalSize | src/mympi/ComputationState.java:273-279 | insert-if-absent on the left interval sizes; everything else is unchanged |
| States.FirstAddWins | src/mympi/ComputationState.java:253-279 | a second add under an existing key changes nothing |
| States.AddToTriple | src/mympi/ComputationState.java:297-303 | nr is added to the code's entry, a missing entry counts as 0, other entries stay, and the total grows by nr |
| States.AddAllToTriples | src/mympi/ComputationState.java:319-331 | every entry becomes the key-wise sum of the old map and the argument, so the totals add |
| States.AddEach | src/mympi/ComputationState.java:305-331 | adding the argument's entries one at a time gives the key-wise sum |
| States.AddTiming | src/mympi/ComputationState.java:362-364 | the message's time grows by the given amount and every other entry is unchanged |
| Stages.Run | src/mympi/InitState.java:41-47 | a stage operation keeps tag, rank, nodes and order and installs the computed data apart from the timings |
| Stages.ComputeClasses | src/mympi/InitState.java:41-47 | Init computes the classes and stays in Init; every later stage returns its stored classes unchanged |
| Stages.ComputeLeft | src/mympi/InitState.java:49-60 | Init fails with an illegal state without classes, and as the preparation constructor does; otherwise it moves to Preparation with counter 0 unless interrupted, and an interrupted node stays in Init holding the computed data; later stages return the stored sizes |
| Stages.InterruptedLeftStaysInit | src/mympi/ThirdOrderAlgorithm.java:189-194 | interruption does not change whether the left-size step succeeds, and an interrupted node's checkpoint reads back as Init with the computed classes and left sizes |
| Stages.ComputeTriples | src/mympi/PreparationState.java:46-58 | unsupported in Init; Preparation moves to Summing unless interrupted; later stages return the stored triples |
| Stages.ComputeSum | src/mympi/SumState.java:54-66 | unsupported before Summing; Summing moves to Finished unless interrupted; Finished returns its sum |
| Stages.StagesKeepValid | src/mympi/ComputationState.java:177-183 | every stage operation keeps the order at least 3 and the sum non-negative |
| Stages.FinishedIsTerminal | DedekindJob/src/mympi/FinishedState.java:30-48 | in Finished all four operations return stored values without a transition, and computeSum is idempotent |
| Stages.Store | src/mympi/PreparationState.java:66-73 | the checkpoint records the stage, rank, nodes, order and timings |
| Stages.Restore | src/mympi/SumState.java:78-86 | a restored state keeps the checkpoint's stage, rank, nodes, order and timings, has a non-negative sum and a counter of 0 unless its stage counts iterations; a finished state brings back no classes or sizes; the only failures are an unreadable checkpoint and an illegal argument |
| Stages.RestoreStore | src/mympi/SumState.java:68-86 | restore after store gives back each stage's persisted fields, and the counter minus one where it is persisted |
| Stages.RestoreRejectsNegativeSum | src/mympi/SumState.java:77-86 | a stored negative sum is rejected on restore |
| Stages.ResumeSameClaims | src/mympi/PreparationState.java:75-84 | a node resumed from a checkpoint takes exactly the turns it would have taken without the interruption |
| Stages.HeadResumeShifts | src/mympi/SumState.java:84-85 | after the flag is seen at the loop head before item x, the restored counter makes the turns of the uninterrupted pass from item x − 1 on, so with two or more nodes item x goes to a different rank |
| StateFiles.ParseFilePathInverts | src/mympi/ComputationState.java:459-462 | the order, rank and node count can be read back from the file path |
| StateFiles.FilePathInjective | src/mympi/ComputationState.java:459-462 | distinct (order, rank, nodes) give distinct file paths |
| CountMaps.Merge | src/mympi/ComputationState.java:302 | merge adds v to the key's entry, a missing entry counting as 0, and keeps all others |
| CountMaps.PutIfAbsent | src/mympi/ComputationState.java:258 | an existing key keeps its value; a new key gets v |
| CountMaps.KeywiseSum | src/mympi/ComputationState.java:324-330 | every key's entry is the sum of its entries in both maps |
| CountMaps.TotalMerge | src/mympi/ComputationState.java:302 | merging v raises the total of all entries by v |
| CountMaps.TotalKeywiseSum | src/mympi/ComputationState.java:319-331 | the total of a key-wise sum is the sum of the totals |
| CountMaps.MergeEach | src/mympi/ComputationState.java:324-330 | merging the entries one at a time gives the key-wise sum |
| Collector.NewCollector | src/auxiliary/CollectorMap.java:19-25 | a new collector is empty with zero iterations and time |
| Collector.Register | src/auxiliary/CollectorMap.java:44-48 | the factor is added to v's value (0 if absent), the iterations and time are accumulated, and other keys are unchanged |
| Collector.RegisterTotal | src/auxiliary/CollectorMap.java:77-80 | registering raises the total of all values by the factor |
| Collector.CSet | src/auxiliary/CollectorMap.java:55-57 | assigns only when the key is absent; afterwards the key is valued, other keys are unchanged, and the admission bound and totals are unchanged |
| Collector.CSetIdempotent | src/auxiliary/CollectorMap.java:55-57 | a second cset of the same key changes nothing |
| Collector.Set | src/auxiliary/CollectorMap.java:64-66 | the key takes the new value, and other keys and the totals are unchanged |
| Collector.SetOverwrites | src/auxiliary/CollectorMap.java:64-66 | the last set of a key wins |
| Collector.Valued | src/auxiliary/CollectorMap.java:73-75 | true exactly when t has a count; a key without one counts as 0 |
| Collector.ValuedStaysValued | src/auxiliary/CollectorMap.java:44-75 | register values its key, and a valued key stays valued under register, cset and set |
| RoundRobin.ClaimsPartition | src/mympi/ThirdOrderAlgorithm.java:374-390 | the parts the ranks claim in a round-robin pass add up to the whole |
| RoundRobin.TripleRound | src/mympi/ThirdOrderAlgorithm.java:308-326 | with the flag seen at the loop head before item x, or at the check before item x's tally: every visited class is removed, the rank tallies exactly the classes before x it owns, the counter advances once per visited class, and the snapshot when the flag is seen holds the classes from x on |
| RoundRobin.ResumeLosesNothing | src/mympi/SumState.java:78-86 | claims before the checkpoint and claims after the restore add up to an uninterrupted pass |
| RoundRobin.MergeAll | src/mympi/ThirdOrderAlgorithm.java:331-337 | the merged map is the key-wise sum of all node maps and has exactly their keys |
| RoundRobin.MergedClaims | src/mympi/ThirdOrderAlgorithm.java:328-340 | when each node holds its round-robin share, the merge gives every key's full total |
| RoundRobin.SumRound | src/mympi/ThirdOrderAlgorithm.java:374-390 | with the flag seen at the loop head before code x, or at the check before code x's addition: visited codes are removed, the counter advances once per visited code, the sum grows by exactly the contributions before x this rank owns, classes, left sizes and timings are untouched, and the pass fails (with an illegal argument) exactly when one of the contributions before x that this rank owns is negative |
| Gather.Displacements | src/mympi/ThirdOrderAlgorithm.java:494-499 | displs[0] = 0, each next is the previous plus the previous length, and the buffer size is the total length |
| Gather.GatherRecovers | src/mympi/ThirdOrderAlgorithm.java:500-510 | cutting the concatenated buffer at the displacements gives back every node's bytes in rank order |
| Gather.GatheredSumIsTotal | src/mympi/ThirdOrderAlgorithm.java:392-399 | the root's gathered sum is the sum over all items, and every other node ends with 0 |
| Gather.Contribution | src/mympi/ThirdOrderAlgorithm.java:378-386 | p3 times left size times rhoIntegral times multiplicity, summed over the interval; a NullPointerException failure exactly when some standard form has no left size |
| ThirdOrder.ClassesOrEmpty | src/mympi/ThirdOrderAlgorithm.java:197-200 | the stored equivalence classes, or the empty map when there are none |
| ThirdOrder.LeftOrEmpty | src/mympi/ThirdOrderAlgorithm.java:203-206 | the stored left interval sizes, or the empty map when there are none |
| ThirdOrder.TriplesOrEmpty | src/mympi/ThirdOrderAlgorithm.java:209-212 | the stored (mu,nu,eta) classes, or the empty map when there are none |
| ThirdOrder.SumOrZero | src/mympi/ThirdOrderAlgorithm.java:215-218 | the stored sum, or 0 when there is none; never negative in a valid state |
| ThirdOrder.FreshStateReadsEmpty | src/mympi/ThirdOrderAlgorithm.java:196-218 | the getters of a fresh state give empty maps and a zero sum |
| ThirdOrder.GettersSeeUpdates | src/mympi/ThirdOrderAlgorithm.java:196-218 | the getters see what the updates wrote: the first value added under a key, a (mu,nu,eta) count grown by the addend, and a sum grown by the addend |
| ThirdOrder.Compute | src/mympi/ThirdOrderAlgorithm.java:229-235 | compute returns the final state's sum and never moves backwards; each stage sees the interrupted flag as it stands then, so a successful run ends in Summing exactly when the flag is up at the sum stage and the node had not finished, and in Finished otherwise; from Init a flag up at the left-size or triple stage, and from Preparation one up at the triple stage, makes the next stage throw |
| ThirdOrder.ComputeFromScratch | src/mympi/ThirdOrderAlgorithm.java:229-235 | from Init with stages that produce their data and no interruption before the sum stage, compute returns normally with a non-negative sum: in Finished holding that sum when the flag stays down, still in Summing when it rises during the sum |
| ThirdOrder.ComputeAgain | src/mympi/ThirdOrderAlgorithm.java:229-235 | once a run ends in Finished, computing again from its result changes nothing and returns the same sum, whatever the flag |
| ThirdOrder.AddLevels | src/mympi/ThirdOrderAlgorithm.java:247-260 | every level's classes are loaded, and only the classes field changes |
| ThirdOrder.EachClassScaled | src/mympi/ThirdOrderAlgorithm.java:250-256 | a class from level i is stored with its size times C(n − 3, i) |
| ThirdOrder.AddLeftSizes | src/mympi/ThirdOrderAlgorithm.java:272-279 | every class gets its lattice size unless it already had one, and old entries keep their values |
| ThirdOrder.EtaInterval | src/mympi/ThirdOrderAlgorithm.java:438-448 | the interval runs from (mu \ common) ∨ (nu \ common) up to mu ∨ nu and is non-empty |
| ThirdOrder.EtaIntervalHoldsEta | src/mympi/ThirdOrderAlgorithm.java:438-448 | for mu = a ∨ b and nu = a ∨ c, the eta b ∨ c lies in the interval |
| SetIterators.Start | src/posets/IntervalPoset.java:176-186 | the iterator starts at subset number 0, so the empty set comes first |
| SetIterators.BumpCounts | src/posets/IntervalPoset.java:202-219 | one step of the iterator adds one to the binary counter, wrapping at 2^k |
| SetIterators.SubsetOfEmpty | src/posets/IntervalPoset.java:193-195 | subset number t is empty exactly for t = 0, so the empty set comes first |
| SetIterators.NextCounts | src/posets/IntervalPoset.java:193-223 | next returns subset number t and moves to t + 1; it is finished exactly after 2^k calls |
| SetIterators.Remove | src/posets/IntervalPoset.java:225-228 | remove always fails as unsupported |
| SetIterators.SubsetOfInjective | src/posets/IntervalPoset.java:193-222 | different counter values below 2^k give different subsets |
| SetIterators.SubsetOfComplete | src/posets/IntervalPoset.java:193-222 | every subset of the elements has a counter value below 2^k |
| SetIterators.Enumerate | src/posets/IntervalPoset.java:172-223 | the iteration yields exactly 2^k distinct subsets, the empty one first, and every subset appears |
| Closures.ReachIffPath | src/posets/IntervalPoset.java:23-30 | the elements after v are exactly those reachable along one or more edges |
| Closures.Get | src/posets/IntervalPoset.java:41-45 | an element with an entry gets its closure and is memoised; any other gets null; the memo stays sound and only grows |
| Closures.Build | src/posets/IntervalPoset.java:23-30 | building records v's closure in the memo and keeps every other entry sound |
| IntervalPosets.GetAfter | src/posets/IntervalPoset.java:41-45 | the memoised closure over successors, null for an element without an entry; only the after-memo changes |
| IntervalPosets.GetBefore | src/posets/IntervalPoset.java:47-51 | the memoised closure over predecessors, null for an element without an entry; only the before-memo changes |
| IntervalPosets.GetLevel | src/posets/IntervalPoset.java:125-129 | a number past the last level gives an empty level; a number below 1 is an error |
| IntervalPosets.LevelOf | src/posets/IntervalPoset.java:134-137 | the level of a set is its number of elements, at most 12 |

## Left out

- **MPI transport.** Barrier, broadcast, gather and gatherv are not modelled, nor is waiting for the other nodes. Only their arithmetic is: the round-robin share, the key-wise merge, the displacements and the buffer cutting.
- **Object serialisation.** Conversion to bytes and back is not modelled. A node's bytes are an opaque sequence.
- **Checkpoint file I/O.** Storing, recovering and walking the state directory are left out, as are `main`, the shutdown hook and `toString`. A checkpoint is the datatype `Stages.Checkpoint`, with the fields each stage writes. `StateFiles` models only the file name.
- **Time.** The wall clock is a parameter (`elapsed`).
- **Concurrency.** `CollectorMap.enter`, `leave` and `isReady` (wait/notify) are left out, as are `AThread` and the thread-pool variants in `MuNuEta` and `AntiChainSolver`. These are thread coordination around the sequential logic modelled here.
- **Unseen classes.** The `AntiChain` and `AntiChainInterval` classes are not part of this model. Their uses become parameters:
  - `compareTo` is constrained to be a total order.
  - `encode`/`decode` are constrained to round-trip.
  - `symmetryGroup` and `map` are parameters.
  - The interval enumeration is a parameter.
  - `latticeSize` and `rhoIntegral` are parameters.
- **`algorithm7` and `Storage`.** These are unseen, so `algorithm7` is the `next` parameter of `AntiChainSolver.EquivalenceClasses` and `Storage.store` is its `store` parameter.
- **`IntervalPoset.getLatticeSize` and `getPosetFrom`.** They depend on unseen classes. `BasicIntervalCollection`, `IntervalCollection`, `PoSet`, `Pair` and `DoubleNodeCreationError` carry nothing to verify.
- **Integer widths.**
  - Java `long` arithmetic is unbounded `int`. Overflow of `long` sums is not modelled.
  - Bits above 12 of the `long` inside a `SmallBasicSet` are not modelled. The raw `long` constructor and `universe(n)` with n mod 32 above 12 can set them.
  - The one `int` shift that matters is modelled; see Findings.
- **Poset construction.** `src/posets/IntervalPoset.java` declares no constructor and never assigns `level`, `successors`, `predecessors`, `before` or `after` (lines 16-20); the one method that would build a poset, `getPosetFrom` (152-165), has its body commented out and returns null. A default-constructed instance would therefore throw a `NullPointerException` in `getAfter`, `getBefore` and `getLevel`. The model does not model that failure: it starts from a poset whose fields are already filled in, and `IntervalPosets.Valid` (successor and predecessor maps closed and graded by size) is an assumption about a construction that is not in the source, not something the source establishes. Construction from `AntiChainInterval` is not part of this model either.
- **Memoisation and hashing.** The memoisation flags inside `isNonZero` and `getTop` are not modelled; the values are recomputed. `hashCode` methods are left out.
- MuNuEtas.P3: states only the two zero cases, which `MuNuEtas.P3ZeroesSound` shows are sound. The non-zero value is `P3B.P`'s, which is not proved to be the number of solutions.
- P3B.P: its contract relates the count to the enumeration of placements, not to the solutions (a, b, c). Only the seed-test zero is tied to the solutions (`MuNuEtas.SeedTestSound`). The zero for a component forced twice, and the non-zero count, are not.
- SmallBasicSet.Universe: for n mod 32 in 13..31 the source builds a set with elements above 12. The model answers a Failure there, because its patterns hold only bits 1..12.
- RoundRobin.TripleRound: assumes the checkpoint stores the snapshot taken when the flag is seen. The source stores from the shutdown hook (src/mympi/ThirdOrderAlgorithm.java:178-181), concurrently with the loop, so the stored state can fall at another point of the iteration, for instance in the middle of an `addAll` or before an item's removal.
- RoundRobin.ResumeLosesNothing: covers the flag seen at the check before the tally, with the checkpoint timing of `RoundRobin.TripleRound`. When the flag is seen at the loop head instead, the resumed turns shift by one item (`Stages.HeadResumeShifts`), and a store at another point of the iteration can repeat or skip a claim.
- Stages.ResumeSameClaims: rests on the same checkpoint timing; the counter it restores is the one after the interrupted item's claim. The head-of-loop case is `Stages.HeadResumeShifts`.
- P3B.Count: the contract is bounded by the unpruned enumeration `P3B.Distribute` and is exact only when only shared components remain. From `count`'s own arguments alone, the forced placements of two-chain components are not sound; they rely on how `p` built those arguments from mu, nu and eta.
- MuNuEtas.EquivalenceClasses: states the total of the class counts rather than each class's count, because the canonical form's uniqueness rests on the unseen symmetry-group mapping.
- ThirdOrder.Compute: the stage operations are parameters (`classes`, `left`, `triples`, `sum`), so the contract speaks of tags and the returned sum and not of the numbers computed.
- IntervalPosets.GetLevel: the contents of an existing level are whatever the given `level` array holds, since no code in the source fills it in; only the bounds cases are stated.

## Findings

| source | as written | input that shows it | evidently intended | confidence | as-written member | corrected member |
|---|---|---|---|---|---|---|
| src/amfsmall/AntiChainSolver.java:35 | `BigInteger.valueOf(1 << CountConnected(...))`, a 32-bit `int` shift whose count is taken mod 32 | a pair r1 ≤ r2, r1 non-empty, whose conflict graph has 31 components gives a negative coefficient; 35 components give 8 instead of 2^35 | 2 to the number of components, as a BigInteger | not executed | AntiChainSolver.PatricksCoefficientAsWritten (with AntiChainSolver.ShiftWraps) | AntiChainSolver.PatricksCoefficient |
