# Pareto dominance and fast non-dominated sort (arb-ea), in Dafny

This project models the core of the Rust crate `arb-ea`. It has two parts.

**Dominance.** `src/tuples.rs` defines `Dom::dominates` for several kinds of value:
- heterogeneous tuples, folded position by position with `DomReducer`;
- `()`;
- `Reverse<T>`;
- `BTreeMap<K, V>`.

`DominationOrd` turns any `Dom` into a `PartialOrd`, so that a dominance value can sit inside a tuple. The answer is an `Option<Ordering>`:
- `Some(Less)`: the left value dominates;
- `Some(Greater)`: the right value dominates;
- `Some(Equal)`: neither is strictly better;
- `None`: the two are incomparable.

**Sorting.** `src/lib.rs` implements `fast_non_dominated_sort`, the NSGA-II front-peeling algorithm. It returns every individual's rank and the list of fronts.

The files are:
- `orderings.dfy` (module `Orderings`): `Ordering`, `Option`, and `Ordering::reverse` lifted to options and to sequences.
- `tuples.dfy` (module `Tuples`): tuples as sequences of components. It has `TupleLen`, `partial_cmp_many`, `fold`/`reduce`, `DomReducer`, tuple dominance, `Reverse` and `DominationOrd`. Tuple dominance is proved to be the Pareto outcome of the per-position comparisons.
- `sparse.dfy` (module `SparseDom`): `BTreeMap` dominance. A map is a key-sorted sequence of pairs. There are two versions:
  - a recursive function following the iterator walk;
  - the `while` loop itself, as a method proved equal to that function.

  The file characterises the outcome over the merged key sequence, and isolates the one case where the code departs from Pareto dominance (see Findings).
- `nds.dfy` (module `NonDominatedSort`): `fast_non_dominated_sort` as an imperative method.
  - The vectors `s`, `n` and `ranks` are arrays updated in place.
  - The pairwise phase and the peeling phase are loops, each with its own invariants.
  - The result is proved to satisfy `NonDominatedFronts`. That predicate covers:
    - front 0 is exactly the undominated individuals, in ascending order;
    - every individual appears in exactly the front its rank names;
    - the front sizes sum to the population size;
    - a recorded domination always raises the rank;
    - each member of a later front has a dominator in the front before;
    - each front is listed in the order peeling discovers it;
    - an empty population gives `[[]]`;
    - a non-empty population gives no empty front.
  - The source's loop runs forever when the recorded edges form a cycle, which NaN objectives can cause. `StoppingNonDominatedSort` is the corrected variant: it stops at the first empty front (see Findings).
- `scenarios.dfy` (module `Scenarios`): the worked populations of `tests/moors.rs` and `tests/tree_dom.rs`, with the fronts and ranks the sort produces for them, and a three-individual population with NaN objectives whose recorded edges form a cycle.

What becomes a parameter:
- **`dominates`:** the sort's `Dom` bound becomes a function parameter `dom`. Every `dominates` of a component type becomes a comparison function parameter `cmp`.
- **`f64`:** modelled as `F64`, a real number or NaN; `partial_cmp` gives `None` exactly on NaN.
- **Map keys:** `int`, since only their order matters.
- **`usize`:** 64-bit; `usize::MAX` is the initial rank.

## Model

| member | source | states |
|---|---|---|
| Orderings.Flip | src/tuples.rs:173 | `Ordering::reverse` mirrors the order: the result sits at position 2 minus the input's position in `Less < Equal < Greater` |
| Orderings.FlipOpt | src/tuples.rs:173 | `Option::map(Ordering::reverse)`: `None` stays `None`, and `Less` and `Greater` swap |
| Orderings.FlipOptInvolutive | src/tuples.rs:173 | reversing an optional ordering twice gives it back |
| Orderings.FlipAll | src/tuples.rs:173 | reversing a sequence of outcomes reverses each one and keeps the length |
| Tuples.TupleLen | src/tuples.rs:6-19 | the length constant of a tuple is its number of components (`()` has 0; a cons cell has 1 more than its tail) |
| Tuples.PartialCmpMany | src/tuples.rs:21-48 | the per-position comparisons: same length, and position `i` holds `cmp(a[i], b[i])` |
| Tuples.FoldAppend | src/tuples.rs:80-91 | folding a concatenation folds the second part from the first part's result (left fold with an accumulator) |
| Tuples.ReduceSnoc | src/tuples.rs:100-108 | reduce seeds the fold with the head, so reducing `xs + [y]` applies the reducer once more to `y` |
| Tuples.ContinueValue | src/tuples.rs:155-159 | `continue_value` is `None` exactly on `Break` and is the carried ordering on `Continue` |
| Tuples.DomStep | src/tuples.rs:115-146 | `DomReducer::apply`: `Break` absorbs; a `None` position keeps the accumulator; it breaks exactly when the two orderings strictly conflict; otherwise it keeps the stronger one |
| Tuples.BreakAbsorbs | src/tuples.rs:143 | once the fold has broken, it stays broken for any remaining positions |
| Tuples.FoldFromAccumulator | src/tuples.rs:115-159 | folding from `Continue(a)` gives the Pareto outcome of `a` followed by the positions |
| Tuples.Outcome | src/tuples.rs:155-159 | the fold from `Continue(Equal)` followed by `continue_value` is `None` exactly when some position is `Less` and another `Greater` |
| Tuples.OutcomeIsPareto | src/tuples.rs:155-159 | the fold started at `Continue(Equal)` equals the independent Pareto outcome |
| Tuples.OutcomeCharacterised | src/tuples.rs:115-159 | `None` iff some position is `Less` and some is `Greater`; `Less` iff some `Less` and no `Greater`; `Greater` symmetrically; `Equal` iff neither occurs (a `None` position is skipped) |
| Tuples.OutcomeFlip | src/tuples.rs:115-159 | reversing every position reverses the outcome |
| Tuples.TupleDominates | src/tuples.rs:148-160 | tuple dominance, all four outcomes as if-and-only-if statements over the positions where `a` is less or greater |
| Tuples.TupleDominatesPareto | src/tuples.rs:148-160 | tuple dominance is the Pareto outcome of `partial_cmp_many` |
| Tuples.TupleDominatesSwap | src/tuples.rs:148-160 | for component comparisons that reverse under swapping, swapping the tuples reverses the dominance |
| Tuples.TupleDominatesSelf | src/tuples.rs:148-160 | a tuple whose components never compare strictly with themselves is `Equal` to itself |
| Tuples.ReverseDominates | src/tuples.rs:168-175 | `Reverse` maps `None` to `None` and `Equal` to `Equal`, and swaps `Less` and `Greater` |
| Tuples.ReverseTwice | src/tuples.rs:168-175 | `Reverse<Reverse<T>>` dominates exactly as `T` does |
| Tuples.OrdEq | src/tuples.rs:263-270 | `eq` holds exactly when `dominates` is `Some(Equal)` |
| Tuples.OrdPartialCmp | src/tuples.rs:276-278 | `partial_cmp` is `Some(Equal)` exactly when `eq` holds |
| Tuples.OrdConsistent | src/tuples.rs:263-279 | `eq` agrees with `partial_cmp == Some(Equal)`; incomparable values are neither equal nor ordered; `partial_cmp` is `Less` exactly when `dominates` is |
| SparseDom.Walk | src/tuples.rs:182-258 | a flag once set is never undone: after the first map has been ahead the answer is never `Less` or `Equal`, and after only the second has been ahead it is never `Greater`; an answer favouring a map needs its flag set or a key left in it |
| SparseDom.MapDominates | src/tuples.rs:182-258 | a map is ahead of the other (`Greater` for the first, `Less` for the second) only when it has at least one key |
| SparseDom.MapDominatesLoop | src/tuples.rs:182-258 | the `while let`/`loop` walk with its two flags, as a method, returns the recursive walk's answer |
| SparseDom.Signals | src/tuples.rs:190-234 | each merge step gives a direction: a key only in the first map gives `Greater`, one only in the second gives `Less`, a shared key gives its values' comparison |
| SparseDom.MergeOnlyFirst | src/tuples.rs:235-241 | when the second map is exhausted, every remaining key is first-only and signals `Greater` |
| SparseDom.MergeOnlySecond | src/tuples.rs:244-251 | when the first map is exhausted, every remaining key is second-only and signals `Less`; the merge then ends on second-only keys |
| SparseDom.WalkExhausted | src/tuples.rs:235-257 | with one map exhausted, the walk's answer is the as-written verdict over the flags and the remaining signals |
| SparseDom.VerdictShift | src/tuples.rs:196-231 | recording a non-`None` signal into the flags does not change the final verdict |
| SparseDom.WalkCharacterised | src/tuples.rs:190-257 | from any flag state, the walk returns the as-written verdict over the seen and merged signals |
| SparseDom.WalkShared | src/tuples.rs:202-225 | a shared key advances both iterators and contributes its value comparison |
| SparseDom.MergeNonEmpty | src/tuples.rs:190-234 | a merge of two maps, not both empty, visits at least one key |
| SparseDom.MapDominatesCharacterised | src/tuples.rs:182-258 | map dominance is: `None` on an incomparable value or on signals both ways; `Greater` when only the first is ahead; `Less` only when the second is ahead and the merge ends on second-only keys; `Equal` otherwise |
| SparseDom.MapDominatesBoundaries | src/tuples.rs:244-257 | empty vs empty is `Equal`; empty vs non-empty is `Less`; non-empty vs empty is `Greater` |
| SparseDom.MapDefect | src/tuples.rs:244-257 | the source differs from Pareto dominance exactly when the intended answer is `Less` and the merge does not end on second-only keys; there the source answers `Equal` |
| SparseDom.MapDominatesAsymmetric | src/tuples.rs:252-256 | `{1:0}` vs `{1:1}` is `Equal`, but the reverse order gives `Greater`; the intended answer for the first is `Less` |
| SparseDom.IntCmp | src/tuples.rs:204 | the total order on keys and integer values: always `Some`, and `Less`/`Greater` exactly on `<`/`>` |
| SparseDom.MergeSwap | src/tuples.rs:190-234 | for an antisymmetric value comparison, swapping the maps reverses every merged signal |
| SparseDom.CorrectedMapDominates | src/tuples.rs:244-257 | the intended map dominance over the merged signals: `None` exactly on an incomparable value or signals both ways; `Less` exactly when only the second map is ever ahead; `Greater` exactly when only the first is |
| SparseDom.CorrectedSwap | src/tuples.rs:244-257 | the corrected map dominance reverses when the maps are swapped |
| SparseDom.MergeKeys | src/tuples.rs:190-234 | on key-sorted maps the merge lists as first-only exactly the keys only the first map has, as second-only those only the second has, and shares only common keys |
| NonDominatedSort.UnwrapOr | src/lib.rs:25 | `unwrap_or` gives the carried ordering, or the default on `None` |
| NonDominatedSort.Compare | src/lib.rs:25-29 | comparing `p < q` answers `Less` exactly when it records the edge `p -> q`, and `Greater` exactly when it records `q -> p` |
| NonDominatedSort.RecordLists | src/lib.rs:25-30 | every domination list only grows at its end; comparing `(p, q)` adds the dominated index to the dominator's list and nothing to any other list |
| NonDominatedSort.PairwiseStep | src/lib.rs:23-31 | one comparison of the pair `(p, q)`: the dominator's list gains the dominated index and that index's count grows by one |
| NonDominatedSort.CompareRow | src/lib.rs:23-32 | after the row of `p`, `n[p]` counts all dominators of `p` |
| NonDominatedSort.CompareOne | src/lib.rs:22-36 | after the row of `p`, `p` joins front 0 with rank 0 exactly when it has no dominator |
| NonDominatedSort.CompareAll | src/lib.rs:22-37 | after all rows, every pair `p < q` has been compared, and the domination lists, the counts, front 0 and the initial ranks are complete |
| NonDominatedSort.Pairwise | src/lib.rs:17-37 | the pairwise phase: `s[d]` lists ascending exactly what `d` dominates; `n[x]` is the in-degree of `x`; front 0 is exactly the undominated individuals, ascending; ranks are 0 there and `usize::MAX` elsewhere |
| NonDominatedSort.PeelEdge | src/lib.rs:50-55 | one entry `q` of a domination list: the count drops by one without underflow; `q` joins the next front with rank `i + 1` exactly when its last dominator is consumed |
| NonDominatedSort.PeelEdges | src/lib.rs:50-56 | walking one domination list keeps the peeling invariant and consumes its owner |
| NonDominatedSort.PeelList | src/lib.rs:49-56 | the same for one member of the current front |
| NonDominatedSort.PeelLists | src/lib.rs:48-57 | walking every member of the current front consumes the whole front |
| NonDominatedSort.PeelFront | src/lib.rs:47-60 | peeling the last front appends a non-empty next front, and `remaining` drops by its length without underflow |
| NonDominatedSort.PeelNext | src/lib.rs:45-59 | one peel, without assuming acyclic edges: a non-empty next front extends the loop invariant by one front; an empty one leaves every rank as it was; the unranked count falls by the front's length; under acyclic edges the front is not empty |
| NonDominatedSort.PeelEnd | src/lib.rs:47-59 | the same four facts about the state the walk over the current front leaves |
| NonDominatedSort.PeelEndGrow | src/lib.rs:47-60 | a non-empty next front keeps the loop invariant, one front further on |
| NonDominatedSort.PeelEndEmpty | src/lib.rs:47-57 | an empty next front means that no rank changed |
| NonDominatedSort.PeelEndNonEmpty | src/lib.rs:47-57 | with acyclic edges and individuals left unranked, the next front is not empty |
| NonDominatedSort.PeelEndUnassigned | src/lib.rs:53-59 | the unranked count falls by exactly the length of the new front |
| NonDominatedSort.PeelLevel | src/lib.rs:42-60 | one iteration of the outer loop keeps the loop invariant and front 0 |
| NonDominatedSort.PeelFronts | src/lib.rs:39-61 | the outer loop ends with every individual ranked and front sizes summing to the population size; an empty population gives `[[]]` |
| NonDominatedSort.SourceExists | src/lib.rs:42-61 | under acyclic edges every non-empty set of individuals has a member that nothing in the set dominates |
| NonDominatedSort.CycleFromRepeat | src/lib.rs:42-61 | a path of edges that visits an individual twice contradicts acyclicity |
| NonDominatedSort.AcyclicByLevel | src/lib.rs:42-61 | edges that each raise some level function never close a cycle |
| NonDominatedSort.FirstFrontNonEmpty | src/lib.rs:33-36 | with acyclic edges a non-empty population has a non-empty front 0 |
| NonDominatedSort.LastDom | src/lib.rs:49-54 | the position in a front of the last dominator of `x`, which is when `x` joins the next front |
| NonDominatedSort.EdgesRise | src/lib.rs:53 | once all are ranked, every recorded edge raises the rank |
| NonDominatedSort.AllRanked | src/lib.rs:19 | once all are ranked, no rank is `usize::MAX`, and every individual is in the front its rank names |
| NonDominatedSort.LayersOf | src/lib.rs:47-60 | later fronts are non-empty; each member has a dominator in the front before; each front is in discovery order |
| NonDominatedSort.SortEnd | src/lib.rs:63 | the final state satisfies every clause of `NonDominatedFronts` about fronts, ranks and edges |
| NonDominatedSort.SortResult | src/lib.rs:63 | with acyclic edges, a peel that ranked everyone satisfies `NonDominatedFronts` |
| NonDominatedSort.PeelOrStop | src/lib.rs:42-60 | corrected loop body: either it peels a non-empty front and `remaining` drops, or it reports that it is stuck, with nothing ranked and the edges cyclic |
| NonDominatedSort.PeelUntilStuck | src/lib.rs:39-61 | corrected outer loop: it ends either with everyone ranked and the loop invariant, or stuck with someone unranked and the edges cyclic |
| NonDominatedSort.StoppingNonDominatedSort | src/lib.rs:13-64 | corrected sort, for any edges: everyone gets a rank below `usize::MAX` exactly when the edges are acyclic, and then the result satisfies `NonDominatedFronts` |
| NonDominatedSort.FastNonDominatedSort | src/lib.rs:13-64 | under acyclic edges the result satisfies `NonDominatedFronts`: front 0 is exact, ranks name fronts, sizes sum to N, edges raise ranks, each later member has a dominator in the previous front, fronts are in discovery order, `[[]]` for N = 0, no empty front otherwise |
| Scenarios.F64Cmp | src/tuples.rs:34-39 | `f64::partial_cmp`: `None` exactly when NaN is involved, otherwise the order of the reals |
| Scenarios.MoorsDominates | tests/moors.rs:11-19 | cases 1 and 2 of `dominates` give `Less` and `Greater`; case 4 (lines 26-29) gives `Equal` |
| Scenarios.MoorsTradeOff | tests/moors.rs:21-24 | case 3, a trade-off between positions, gives `None` |
| Scenarios.NaNPositionSkipped | src/tuples.rs:124-125 | a position with no answer (NaN) is skipped, and the other positions decide |
| Scenarios.DominatesByPositions | src/tuples.rs:148-160 | once the per-position outcomes are known, tuple dominance is their Pareto outcome |
| Scenarios.TwoFronts | src/lib.rs:13-64 | when the recorded edges are exactly the pairs from a set `top` to its complement (every such pair is an edge, and no other pair is), the sort gives two ascending fronts, `top` and the rest, with ranks 0 and 1 |
| Scenarios.TopAcyclic | src/lib.rs:13-64 | edges from `top` to its complement close no cycle |
| Scenarios.MoorsEdges | tests/moors.rs:35-41 | in the five-individual population, individuals 0-2 each dominate 3 and 4, and no other pair is ordered |
| Scenarios.MoorsOutcome | tests/moors.rs:44-54 | any result satisfying `NonDominatedFronts` for that population is `[[0, 1, 2], [3, 4]]`, with ranks `[0, 0, 0, 1, 1]` |
| Scenarios.SortMoors | tests/moors.rs:32-55 | the sort returns fronts `[[0, 1, 2], [3, 4]]` |
| Scenarios.TreeDominations | tests/tree_dom.rs:19-38 | for the six `Reverse` maps, `c` dominates `i` exactly for the listed pairs |
| Scenarios.TreePairs | tests/tree_dom.rs:7-40 | of the comparisons the sort makes (`i < j`), only those with `i = 0` are ordered (`Greater`) |
| Scenarios.TreeOutcome | tests/tree_dom.rs:40-46 | a sorted result for that population is `[[1, 2, 3, 4, 5], [0]]`, with ranks `[1, 0, 0, 0, 0, 0]` |
| Scenarios.SortTree | tests/tree_dom.rs:7-47 | the sort returns fronts `[[1, 2, 3, 4, 5], [0]]` |
| Scenarios.CorrectedDefectPairs | src/tuples.rs:252-256 | with the intended map dominance, pairs (1, 2), (3, 5) and (4, 5) are ordered |
| Scenarios.CorrectedAgrees | src/tuples.rs:252-256 | intended and as-written reversed map dominance agree wherever the as-written one is not `Equal` |
| Scenarios.CorrectedTreeEdges | src/tuples.rs:177-258 | with the intended map dominance, the edges of the tree population are exactly 1-5 over 0, 2 over 1, and 5 over 3 and 4 |
| Scenarios.SortTreeCorrected | tests/tree_dom.rs:40-46 | with the intended map dominance, front 0 is `[2, 5]` and the ranks are `[2, 1, 0, 1, 1, 0]` |
| Scenarios.FrontAbove | src/lib.rs:49-57 | an individual whose highest-ranked dominator is `d` sits exactly one front below `d` |
| Scenarios.MixedOutcome | tests/tree_dom.rs:49-59 | for `(0usize, 1.0, DominationOrd(Reverse(map)))`, the outcome is the map outcome, with `None` read as `Equal` (the incomparable position is skipped) |
| Scenarios.MixedDominations | tests/tree_dom.rs:61-80 | for the mixed tuples, `c` dominates `i` exactly for the listed pairs |
| Scenarios.SortMixed | tests/tree_dom.rs:49-89 | the sort returns fronts `[[1, 2, 3, 4, 5], [0]]` for the mixed tuples |
| Scenarios.SingleOutcome | src/lib.rs:13-64 | a population of one has ranks `[0]` and fronts `[[0]]` |
| Scenarios.CycleDominations | src/tuples.rs:115-159 | for the three NaN tuples, 0 dominates 1, 1 dominates 2, and 2 dominates 0, because NaN positions are skipped |
| Scenarios.CycleEdges | src/lib.rs:22-31 | the pairwise phase records the edges `0 -> 1`, `1 -> 2` and `2 -> 0` |
| Scenarios.TriangleCycle | src/lib.rs:42-61 | three edges `a -> b -> c -> a` contradict acyclicity |
| Scenarios.NaNCycle | src/lib.rs:33-61 | every individual of that population has a dominator, so front 0 is empty, and the edges are cyclic |
| Scenarios.SortCycle | src/lib.rs:42-61 | on that population the corrected sort leaves some individual at rank `usize::MAX` |
| Scenarios.SortSingle | src/lib.rs:13-64 | the sort returns ranks `[0]` and fronts `[[0]]` for one individual |

## Left out

- **`Evaluator` and `EvaluateTuple`** (src/tuples.rs:281-320): they apply user closures to an input and compute nothing of their own.
- **Type-level machinery:** the traits `TupleLen`, `TuplePartialOrd`, `TupleFold`, `TupleReduce` and `Reducer` are resolved at compile time. A tuple is modelled as a sequence of values of one component type, compared by one function. Heterogeneous tuples use a sum type of their component kinds (`Scenarios.Component`).
- **Floating point:** beyond `partial_cmp` (NaN gives `None`; otherwise the order of the reals), no rounding or signed zero is modelled.
- **`BTreeMap` internals:** a map is a key-sorted sequence of `(key, value)` pairs. Keys are integers; values are compared by a parameter.
- **Allocation:** `Vec::with_capacity`, `Box<[usize]>` and `into_boxed_slice` are not modelled; fronts are sequences.
- NonDominatedSort.FastNonDominatedSort: it requires that the recorded edges are acyclic. On a cycle, the source's outer loop finds an empty next front, and it then pushes empty fronts forever while `remaining` stays positive. That is non-termination, which the model does not represent. The crate's own `f64` tuple dominance can record a cycle, because it skips NaN positions (`Scenarios.NaNCycle`; see Findings). `NonDominatedSort.StoppingNonDominatedSort` drops the requirement and stops at the first empty front. Every `Dom` that is a strict partial order gives acyclic edges; that general fact is not proved here. The scenarios prove acyclicity for their populations.
- NonDominatedSort.FastNonDominatedSort: it requires `|pop| <= usize::MAX`. `n[q] -= 1` and `remaining -= …` are proved never to underflow. The rank `i + 1` is proved to stay below `usize::MAX`.
- Scenarios.MoorsTradeOff: case 3 of `tests/moors.rs` compares the result with a bare `Ordering::Equal`. The code returns `None` for a trade-off, so the model proves `None` instead of that expectation.
- **Panics:** the `unreachable!` of `DomReducer` (src/tuples.rs:137) is not modelled as a panic. `Tuples.DomStep` keeps the branch as its last case, `case _ => assert false`, so the verifier proves that no pair of sorted orderings reaches it.

## Findings

| source | as written | input that shows it | evidently intended | confidence | as-written member | corrected member |
|---|---|---|---|---|---|---|
| src/tuples.rs:252-256 | when both maps run out together, `second_greater` is ignored, and the answer is `Equal` even when the second map was ahead | `{1:0}` vs `{1:1}` gives `Equal`, while `{1:1}` vs `{1:0}` gives `Greater` | `Some(Less)` when only the second map was ever ahead | not executed | SparseDom.MapDominatesAsymmetric | SparseDom.CorrectedMapDominates, SparseDom.CorrectedSwap |
| src/lib.rs:42-61 | on cyclic edges the next front comes out empty, and the loop pushes empty fronts forever because `remaining` never reaches 0 | the `f64` tuples `(0, NaN, 1)`, `(1, 0, NaN)` and `(NaN, 1, 0)`: skipping NaN positions gives the edges `0 -> 1`, `1 -> 2` and `2 -> 0`, and front 0 is empty | stop when a front comes out empty, and leave the individuals still unranked at `usize::MAX` | not executed | Scenarios.NaNCycle | NonDominatedSort.StoppingNonDominatedSort |

Because of this defect, the expected fronts in `tests/tree_dom.rs:40-46` hold only for the as-written comparison (`Scenarios.SortTree`). Examples are `{(1,1)}` vs `{(0,0),(1,1)}` and `{(1,0),(2,0)}` vs `{(1,0),(2,1)}`. The sort compares these pairs only in the order that hits the defect, so it records no edge between them. With the intended comparison the fronts change (`Scenarios.SortTreeCorrected`: front 0 is `[2, 5]`). `SparseDom.MapDefect` states that the two comparisons differ in exactly this case and no other.
