# PAES archive — a Dafny model

This project models the archive of EvoSuite's PAES search (`MyArchive`). The archive is a
bounded list of mutually non-dominated chromosomes. It holds at most `MAX_SIZE` = 100 of them,
in insertion order, and keeps an adaptive grid beside the list that estimates crowding.

Its operations:

- `add(c)` first sweeps out every member that `c` dominates. It then rejects `c` if a surviving
  member dominates it. Below capacity it appends `c`. At capacity it asks the grid for the most
  crowded region and for `c`'s own region. From those answers it either rejects `c` or evicts the
  first member of the most crowded region and appends `c`.
- `removeDominated(c)` is the sweep on its own.
- `decide(candidate, current)` is the acceptance comparator of the (1+1) search step. It has an
  optional score-count override, followed by the grid's crowding comparison.

Modules:

- `Dominance` (dominance.dfy): chromosomes as an identity plus a coverage vector, and Pareto
  dominance. Dominance is defined by recursion over the dimensions, shown equal to the usual
  per-dimension statement, and proved irreflexive, asymmetric and transitive.
- `Sweep` (sweep.dfy): the sweep (`Survivors`), the collected `dominated` list, `List.removeAll`
  and `List.remove(Object)` as functions on sequences. Also their order, idempotence and partition
  lemmas.
- `Grid` (grid.dfy): the grid seen only through what the archive relies on. A multiset of held
  chromosomes, and queries that may return any answer inside their contracts.
- `Admission` (admission.dfy): `Admit`, the admission rule of `add` as a function of the list, the
  candidate and the grid's two answers. Lemmas give its properties: capacity, non-domination,
  rejection leaves the list alone, replacement swaps exactly one member.
- `BestScore` (best_score.dfy): the score-count override of `decide`, and the scan as written.
- `PaesArchive` (archive.dfy): the class `MyArchive`. It has the list, the grid and the two
  configuration flags. Its `Valid()` invariant says three things: the grid holds exactly the
  listed members, there are at most 100 of them, and none dominates another. `Add` is proved
  against `Admit`; its `else` branch is `AddAtCapacity`, whose replacement step is `ReplaceOne`.
  `RemoveDominated` is a loop proved against `Survivors`.

## Model

| member | source | states |
|---|---|---|
| `Dominance.Dominates` | client/src/main/java/org/evosuite/ga/metaheuristics/paes/MyArchive.java:52 | Pareto dominance on coverage vectors, larger is better: it holds only between vectors of equal length with at least one dimension (the full per-dimension meaning is `Dominance.DominatesMeans`) |
| `Dominance.DominatesMeans` | client/src/main/java/org/evosuite/ga/metaheuristics/paes/MyArchive.java:52 | dominance holds iff the vectors have equal length, the first is at least the second in every dimension and exceeds it in some dimension |
| `Dominance.DominatesIrreflexive` | client/src/main/java/org/evosuite/ga/metaheuristics/paes/MyArchive.java:52 | no chromosome dominates itself, so equal vectors neither veto nor sweep each other |
| `Dominance.DominatesAsymmetric` | client/src/main/java/org/evosuite/ga/metaheuristics/paes/MyArchive.java:52 | two chromosomes never dominate each other both ways |
| `Dominance.DominatesTransitive` | client/src/main/java/org/evosuite/ga/metaheuristics/paes/MyArchive.java:125 | dominance is transitive, which the non-domination proofs rely on |
| `Sweep.Survivors` | client/src/main/java/org/evosuite/ga/metaheuristics/paes/MyArchive.java:122-129 | the sweep never makes the list longer |
| `Sweep.Dominated` | client/src/main/java/org/evosuite/ga/metaheuristics/paes/MyArchive.java:123-126 | the collected `dominated` list is never longer than the list it was collected from |
| `Sweep.RemoveAll` | client/src/main/java/org/evosuite/ga/metaheuristics/paes/MyArchive.java:127 | `removeAll(d)` never makes the list longer |
| `Sweep.SurvivorsMembers` | client/src/main/java/org/evosuite/ga/metaheuristics/paes/MyArchive.java:122-129 | after the sweep, a chromosome is listed iff it was listed before and `c` does not dominate it |
| `Sweep.SurvivorsKeepInvariant` | client/src/main/java/org/evosuite/ga/metaheuristics/paes/MyArchive.java:122-129 | a mutually non-dominated list stays mutually non-dominated after the sweep, and no survivor is dominated by `c` |
| `Sweep.DominatedMembers` | client/src/main/java/org/evosuite/ga/metaheuristics/paes/MyArchive.java:123-126 | the collected `dominated` list holds exactly the listed members that `c` dominates |
| `Sweep.RemoveAllMembers` | client/src/main/java/org/evosuite/ga/metaheuristics/paes/MyArchive.java:127 | `removeAll(d)` keeps exactly the members not in `d` |
| `Sweep.RemoveFirst` | client/src/main/java/org/evosuite/ga/metaheuristics/paes/MyArchive.java:72 | `remove(deleted)` takes one occurrence off a list that holds it, and leaves any other list unchanged |
| `Sweep.FirstIndex` | client/src/main/java/org/evosuite/ga/metaheuristics/paes/MyArchive.java:72 | the position `remove` works on holds the element, and no earlier position does |
| `Sweep.SurvivorsKeepOrder` | client/src/main/java/org/evosuite/ga/metaheuristics/paes/MyArchive.java:122-129 | the survivors keep their original relative order |
| `Sweep.SurvivorsIdempotent` | client/src/main/java/org/evosuite/ga/metaheuristics/paes/MyArchive.java:122-129 | a second `removeDominated(c)` changes nothing |
| `Sweep.SurvivorsUnchangedIff` | client/src/main/java/org/evosuite/ga/metaheuristics/paes/MyArchive.java:122-129 | the sweep leaves the list unchanged iff `c` dominates no member (both directions) |
| `Sweep.NoneDominatedSurvive` | client/src/main/java/org/evosuite/ga/metaheuristics/paes/MyArchive.java:122-129 | when `c` dominates no member, the sweep returns the list unchanged |
| `Sweep.SurvivorsFullLength` | client/src/main/java/org/evosuite/ga/metaheuristics/paes/MyArchive.java:50-54 | a sweep that keeps as many members as it was given removed nothing |
| `Sweep.SweepPartitions` | client/src/main/java/org/evosuite/ga/metaheuristics/paes/MyArchive.java:123-128 | the dominated and the surviving members together make up the former list (as multisets), so `deleteAll` leaves the grid holding the survivors |
| `Sweep.RemoveAllDominated` | client/src/main/java/org/evosuite/ga/metaheuristics/paes/MyArchive.java:123-127 | `removeAll` of the collected list equals the survivors of the sweep |
| `Sweep.RemoveFirstKeepsOrder` | client/src/main/java/org/evosuite/ga/metaheuristics/paes/MyArchive.java:72 | what is left after `remove` is a subsequence of the list before |
| `Grid.GridNode.constructor` | client/src/main/java/org/evosuite/ga/metaheuristics/paes/MyArchive.java:42 | a new grid has the given bounds and depth and holds nothing |
| `Grid.GridNode.Add` | client/src/main/java/org/evosuite/ga/metaheuristics/paes/MyArchive.java:56 | `grid.add(c)` adds one occurrence of `c` to what the grid holds |
| `Grid.GridNode.AddToRegion` | client/src/main/java/org/evosuite/ga/metaheuristics/paes/MyArchive.java:67-68 | `region.add(c)`, on a region of the grid whose box holds `c`, adds one occurrence of `c` |
| `Grid.GridNode.Delete` | client/src/main/java/org/evosuite/ga/metaheuristics/paes/MyArchive.java:71 | `grid.delete(x)` removes one occurrence of `x`, and does nothing when the grid does not hold `x` |
| `Grid.GridNode.DeleteAll` | client/src/main/java/org/evosuite/ga/metaheuristics/paes/MyArchive.java:128 | `deleteAll(d)` removes one occurrence per element of `d` |
| `Grid.GridNode.MostCrowdedRegion` | client/src/main/java/org/evosuite/ga/metaheuristics/paes/MyArchive.java:59-60 | the region returned is non-empty, everything it holds is held by the grid, and it lies in the region's box |
| `Grid.GridNode.RecursiveMostCrowdedRegion` | client/src/main/java/org/evosuite/ga/metaheuristics/paes/MyArchive.java:59-60 | the same contract, for the recursive-descent query |
| `Grid.GridNode.Region` | client/src/main/java/org/evosuite/ga/metaheuristics/paes/MyArchive.java:63 | `region(c)` is null, or it is a region of the grid whose box holds `c` |
| `Grid.GridNode.Decide` | client/src/main/java/org/evosuite/ga/metaheuristics/paes/MyArchive.java:99 | `grid.decide(candidate, current, recursive)` returns some integer; it has no contract, because the density comparison lives in the cell tree |
| `Grid.Location.IsInBounds` | client/src/main/java/org/evosuite/ga/metaheuristics/paes/MyArchive.java:61 | a point inside a region's box has one coordinate per dimension of the box, and the box is non-empty along each of them |
| `Grid.Location.Count` | client/src/main/java/org/evosuite/ga/metaheuristics/paes/MyArchive.java:64 | a region's count is 0 exactly when it holds no candidate |
| `Admission.Admit` | client/src/main/java/org/evosuite/ga/metaheuristics/paes/MyArchive.java:49-76 | the rule of `add`: an accepted `c` was vetoed by no surviving member and ends the list; a rejected `c` leaves exactly the survivors of the sweep |
| `Admission.VetoSweepsNothing` | client/src/main/java/org/evosuite/ga/metaheuristics/paes/MyArchive.java:50-53 | in a mutually non-dominated list, a surviving member that dominates `c` means the sweep removed nothing |
| `Admission.RejectedWhenDominated` | client/src/main/java/org/evosuite/ga/metaheuristics/paes/MyArchive.java:50-53 | a dominated candidate is rejected and leaves a mutually non-dominated list exactly as it was |
| `Admission.AtCapacitySweepsNothing` | client/src/main/java/org/evosuite/ga/metaheuristics/paes/MyArchive.java:54-58 | the at-capacity branch is reached only when the sweep removed nothing and the list holds exactly 100 members |
| `Admission.CrowdingRejectionKeepsArchive` | client/src/main/java/org/evosuite/ga/metaheuristics/paes/MyArchive.java:59-65 | at capacity, `c` is rejected with no change when it lies in the most crowded region's bounds, or (exhaustive mode) when its own region exists and is at least as crowded |
| `Admission.ReplacementSwapsOne` | client/src/main/java/org/evosuite/ga/metaheuristics/paes/MyArchive.java:66-74 | otherwise `c` is accepted: the first member of the most crowded region is removed at its first occurrence, `c` goes to the end, the rest keep their order; the size stays 100 and the members change by exactly that swap |
| `Admission.AdmissionKeepsInvariant` | client/src/main/java/org/evosuite/ga/metaheuristics/paes/MyArchive.java:49-76 | from a list of at most 100 mutually non-dominated members, `add` leaves a list of at most 100 mutually non-dominated members |
| `Admission.AdmissionAppendsInOrder` | client/src/main/java/org/evosuite/ga/metaheuristics/paes/MyArchive.java:49-76 | an accepted `c` ends the list and the members before it are former members in their original order; a rejected `c` leaves exactly the survivors of the sweep |
| `Admission.SweepThenAccept` | client/src/main/java/org/evosuite/ga/metaheuristics/paes/MyArchive.java:50-57 | when `c` dominates some member of a valid list, `add` accepts it without reaching the crowding step: the list becomes the survivors followed by `c`, and its size drops by the number of dominated members less one |
| `BestScore.DefeatedSnoc` | client/src/main/java/org/evosuite/ga/metaheuristics/paes/MyArchive.java:107-114 | scanning one more archived member adds exactly the dimensions on which the chromosome beats it |
| `BestScore.ScanStep` | client/src/main/java/org/evosuite/ga/metaheuristics/paes/MyArchive.java:108-112 | one inner step flags and counts a dimension only when it is not yet flagged and the chromosome beats the member there |
| `BestScore.DefeatedBound` | client/src/main/java/org/evosuite/ga/metaheuristics/paes/MyArchive.java:103-116 | each dimension counts at most once, so the score is at most the number of dimensions |
| `BestScore.ScanAsWrittenAborts` | client/src/main/java/org/evosuite/ga/metaheuristics/paes/MyArchive.java:105-109 | as written, the scan aborts on its first lookup whenever there is a member and a dimension to compare, and otherwise returns 0 |
| `BestScore.ScanAsWritten` | client/src/main/java/org/evosuite/ga/metaheuristics/paes/MyArchive.java:103-116 | the scan as written, from a given member, dimension, flag map and count: when it finishes, its count is at least the count it started from (that an absent flag aborts it is `BestScore.ScanAsWrittenAborts`) |
| `BestScore.Defeated` | client/src/main/java/org/evosuite/ga/metaheuristics/paes/MyArchive.java:103-116 | the reference for the score: the dimensions of the chromosome on which it beats some listed member, each one a dimension of its vector, none for an empty list |
| `PaesArchive.MyArchive.constructor` | client/src/main/java/org/evosuite/ga/metaheuristics/paes/MyArchive.java:33-43 | the archive starts empty and valid; the grid gets `[min_value, max_value]` in every dimension and depth 10 |
| `PaesArchive.MyArchive.Add` | client/src/main/java/org/evosuite/ga/metaheuristics/paes/MyArchive.java:49-76 | keeps `Valid()`; the result and the new list are `Admit` of the old list, `c` and the grid's answers; at capacity those answers are a non-empty region drawn from the list, and a region that holds `c` |
| `PaesArchive.MyArchive.AddAtCapacity` | client/src/main/java/org/evosuite/ga/metaheuristics/paes/MyArchive.java:58-74 | with a full list that neither vetoes `c` nor is swept by it, keeps `Valid()`; the result and the new list are `Admit` of the old list and the grid's answers, a non-empty region drawn from the list and a region that holds `c` |
| `PaesArchive.MyArchive.ReplaceOne` | client/src/main/java/org/evosuite/ga/metaheuristics/paes/MyArchive.java:66-73 | the new list is the old one with the first occurrence of `deleted` removed and `c` appended, and the grid still holds exactly the listed members |
| `PaesArchive.MyArchive.GetChromosomes` | client/src/main/java/org/evosuite/ga/metaheuristics/paes/MyArchive.java:82-84 | the listed members: at most 100, none dominating another, the same multiset the grid holds |
| `PaesArchive.MyArchive.Decide` | client/src/main/java/org/evosuite/ga/metaheuristics/paes/MyArchive.java:90-101 | with the override on, a strictly higher score count decides; otherwise the result is true iff `dif`, the grid's crowding comparison, is positive — `dif` is an unconstrained oracle, since the grid is not modelled |
| `PaesArchive.MyArchive.GetBestScoreCount` | client/src/main/java/org/evosuite/ga/metaheuristics/paes/MyArchive.java:103-116 | the count is the number of dimensions on which the chromosome beats at least one listed member, at most the number of dimensions |
| `PaesArchive.MyArchive.RemoveDominated` | client/src/main/java/org/evosuite/ga/metaheuristics/paes/MyArchive.java:122-129 | keeps `Valid()`; the list becomes exactly the survivors of the sweep, so no listed member is dominated by `c` |

## Left out

- The grid's internals: the cell tree, splitting along `depth mod dimensions`, redistribution,
  half-open cell bounds, per-node counts, the two crowding traversals and `GRID_LAYER_DEPTH` as
  a limit. The grid classes are not part of this model. `Grid.GridNode` keeps only the multiset
  of chromosomes it holds. Its queries may return any answer within their contracts.
- Grid.GridNode.MostCrowdedRegion: its contract does not say that the region is the most
  crowded one. Cell counts are not modelled, so only "non-empty and drawn from the grid" is stated.
- Grid.GridNode.RecursiveMostCrowdedRegion: its contract does not say that the region is the one
  the recursive descent would reach. It is a second oracle with the same contract as
  `Grid.GridNode.MostCrowdedRegion`, because the traversal happens inside the cell tree.
- Grid.GridNode.Region: its contract does not say when the region exists. That depends on the
  cell tree.
- `Grid.GridNode.Decide`: the crowding comparison of `grid.decide` may return any integer.
  `MyArchive.Decide` reports it as `dif` and states that the result is true iff `dif > 0`.
- `Grid.Location.IsInBounds` is a closed box test. The grid's half-open cell boundaries are
  not modelled.
- `region.add(c)` (line 68) is a method on a region in the source. Here it is
  `Grid.GridNode.AddToRegion`, with the same effect on the grid's members.
- `Chromosome.dominates` and `getCoverageValues` are outside this model. Dominance is Pareto
  dominance on one coverage vector of reals: larger is better, and vectors must be of equal
  length. Doubles are reals, with no rounding and no NaN.
- The set of fitness functions is modelled by its size. Dimension `d` is the d-th function.
  A coverage vector without dimension `d` reads 0 there.
- Chromosome equality, which `remove` and `removeAll` use, is value equality of identity and
  coverage vector. Java's `equals` on chromosomes is not modelled.
- `getChromosomes` returns the live `ArrayList` in the source, so callers can alias and mutate
  it. Here the list is returned as a value.
- `USE_RECURSIVE_GRID_CROWDED` and `USE_BEST_SCORE` are static flags, both false in the source.
  Here they are constructor parameters, so both settings are modelled.
- PaesArchive.MyArchive.GetBestScoreCount: an absent flag reads as false. As written, the
  source throws on the first lookup (see Findings).
- `MyArchive.Add` and `MyArchive.AddAtCapacity` also return the grid's answers as ghost values
  (`crowded`, `region`). That
  way its contract can name them. The source's `add` returns only the boolean.
- The source raises no fault for an empty dimension set, `min_value >= max_value`, a coverage
  vector of the wrong shape or out-of-bounds coordinates, and this model follows the source.
- `BytecodeInstrumentation.java` is not part of this model.

## Findings

| source | as written | input that shows it | evidently intended | confidence | as-written member | corrected member |
|---|---|---|---|---|---|---|
| client/src/main/java/org/evosuite/ga/metaheuristics/paes/MyArchive.java:105-109 | `defeated` starts as an empty map, and `!defeated.get(ff)` unboxes the `null` it returns for a dimension not yet seen | `USE_BEST_SCORE` true, one archived chromosome, a candidate with one coverage value: the first lookup throws `NullPointerException` | a dimension not yet flagged counts as not defeated, so the score is the number of dimensions on which the candidate beats some member | high for the code as written; the path is unreachable while `USE_BEST_SCORE` is false; not executed | `BestScore.ScanAsWritten` (shown by `BestScore.ScanAsWrittenAborts`) | `PaesArchive.MyArchive.GetBestScoreCount` |
