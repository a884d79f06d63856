# Verified model of the P-vs-NP benchmark solvers

The repository benchmarks exact and heuristic algorithms for three NP-complete
problems. This project models the solvers and their checkers in Dafny and proves
what each one computes:

- **SAT** (`core/sat_solver.py`). A formula is a number of variables and a list of
  clauses of non-zero integer literals.
  - `SATBruteForce` enumerates counters 0 .. 2^n - 1 and decodes each one into a
    truth assignment.
  - `SATOptimizedSolver` runs DPLL: it simplifies, propagates unit literals,
    eliminates pure literals and branches on the first unassigned variable.
  - `verify_sat_solution` checks an assignment.
- **Subset Sum** (`core/subset_sum.py`):
  - the bitmask brute force;
  - the dynamic-programming table with its backtracking reconstruction;
  - the solution checker;
  - the enumeration of all solutions.
- **TSP** (`core/traveling_salesman.py` and the instance class in
  `generators/tsp_generator.py`):
  - the exhaustive solver over `itertools.permutations` of cities 1 .. n-1;
  - the nearest-neighbour heuristic tried from every start city;
  - nearest neighbour followed by 2-opt local search;
  - the tour checker and the improvement report;
  - the distance-matrix validator.

Modules:

| file | module | contents |
|---|---|---|
| `bitmask.dfy` | `Bitmask` | counters read as bit vectors, `2^n` |
| `sat_solver.dfy` | `SatSolver` | clause semantics, the brute-force solver, the checker |
| `sat_dpll.dfy` | `SatDpll` | the DPLL steps; a reference function `Search` for one recursive call; the solver class `DpllSolver`, whose counters are fields and whose partial assignment is an array, proved equal to `Search` |
| `subset_sum.dfy` | `SubsetSum` | both solvers, the checker and the all-solutions enumeration |
| `tsp_instance.dfy` | `TspInstance` | the instance, path and tour lengths, `calculate_tour_distance`, `validate_distance_matrix` |
| `tsp_tours.dfy` | `TspTours` | tours, the permutation enumeration, counting facts |
| `tsp_brute_force.dfy` | `TspBruteForce` | the exhaustive TSP solver |
| `tsp_nearest.dfy` | `TspNearestNeighbor` | the nearest-neighbour heuristic |
| `tsp_two_opt.dfy` | `TspTwoOpt` | 2-opt exchanges and the combined solver |
| `tsp_checks.dfy` | `TspChecks` | `verify_tsp_solution`, `calculate_tour_improvement` |
| `wrappers.dfy` | `Wrappers` | `Option` and `Result` |

Modelling conventions:

- Python's `float('inf')` for "no tour" is `None`.
- A raised `ValueError` is a `Failure` of a `Result`.
- Each solver's returned dictionary is a datatype with one field per key.
- Distances are exact `real`s.

## Model

| member | source | states |
|---|---|---|
| Bitmask.Pow2 | core/sat_solver.py:43 | `2 ** n` by its recursive definition; the contract keeps only the fact the callers need, that it is positive, so the counter range always holds counter 0 |
| Bitmask.Bits | core/sat_solver.py:50-54 | a decoded counter has one entry per variable |
| Bitmask.BitsAt | core/sat_solver.py:52-54 | entry i of a decoded counter is bit i of the counter (lowest bit first) |
| Bitmask.FromBits | core/sat_solver.py:43-54 | every truth vector of length n is the decoding of a counter below 2^n |
| Bitmask.EveryVectorIsAMask | core/sat_solver.py:43-54 | the counters 0 .. 2^n - 1 reach every assignment of n variables |
| Bitmask.NoBitSetIsZero | core/subset_sum.py:55-56 | the only counter below 2^n with none of its n low bits set is 0 |
| SatSolver.EvaluateClause | core/sat_solver.py:83-99 | a clause holds iff one of its literals is true; a positive literal needs its variable true, a negative one needs it false; the empty clause never holds |
| SatSolver.EvaluateAssignment | core/sat_solver.py:71-106 | true iff every clause holds; the empty formula holds; a formula with an empty clause does not |
| SatSolver.SatisfiableIffSomeMask | core/sat_solver.py:42-57 | a formula is satisfiable iff some counter below 2^n decodes to a satisfying assignment |
| SatSolver.DecodeCounter | core/sat_solver.py:50-54 | the inner loop yields exactly the decoding of the counter |
| SatSolver.SolveBruteForce | core/sat_solver.py:22-69 | satisfiable iff the formula is; on success, the assignment is the decoding of counter `tried - 1`, it satisfies every clause, and no earlier counter does; on failure, no assignment and 2^n tries |
| SatSolver.VerifySatSolution | core/sat_solver.py:388-432 | an assignment of the wrong length is an error; otherwise the verdict is true iff every clause holds |
| SatDpll.Complete | core/sat_solver.py:200 | the final assignment agrees with every assigned variable and turns each unassigned one into False |
| SatDpll.AllUnassigned | core/sat_solver.py:193 | the search starts with every variable unassigned |
| SatDpll.Assign | core/sat_solver.py:240-241 | assigning a literal's variable makes that literal true |
| SatDpll.SimplifyClause | core/sat_solver.py:290-308 | a clause is dropped iff one of its literals is true; otherwise exactly its unassigned literals are kept (the two laws below fix their order and repeats) |
| SatDpll.SimplifyClauseSingle | core/sat_solver.py:294-304 | a one-literal clause is dropped if the literal is true, kept as it is if the literal is unassigned, and emptied if it is false |
| SatDpll.SimplifyClauseConcat | core/sat_solver.py:291-307 | simplifying c + d is simplifying c and d in turn: dropped if either part is dropped, otherwise the two kept lists joined in order |
| SatDpll.Simplify | core/sat_solver.py:277-310 | the list never grows, and every literal left mentions an unassigned variable (the two laws below fix the exact list) |
| SatDpll.SimplifySingle | core/sat_solver.py:290-308 | a one-clause list becomes empty if the clause is dropped, and otherwise holds its simplified form |
| SatDpll.SimplifyConcat | core/sat_solver.py:277-310 | simplifying a + b is simplifying a and then b, with the survivors in their original order |
| SatDpll.FindUnitLiteral | core/sat_solver.py:312-325 | the literal of the first one-literal clause, or None iff there is no such clause |
| SatDpll.OccursUnassigned | core/sat_solver.py:298-300 | every literal of a simplified list belongs to an unassigned variable |
| SatDpll.Literals | core/sat_solver.py:337-342 | exactly the literals that occur in some clause |
| SatDpll.FirstPure | core/sat_solver.py:346-360 | a candidate whose negation does not occur, or None iff every candidate's negation occurs |
| SatDpll.FindPureLiteral | core/sat_solver.py:327-362 | a literal that occurs while its negation does not, or None iff every occurring literal's negation also occurs |
| SatDpll.FirstUnassignedFrom | core/sat_solver.py:374-377 | the 1-based number of the first unassigned variable at or after a position, or None iff none remains |
| SatDpll.ChooseBranchVariable | core/sat_solver.py:364-377 | the 1-based number of the lowest unassigned variable, or None iff every variable is assigned |
| SatDpll.FixingDecreasesCount | core/sat_solver.py:240-241 | assigning an unassigned variable lowers the number of unassigned variables by one, so the recursion terminates |
| SatDpll.NextMove | core/sat_solver.py:226-253 | the decision of one call in the source's order (empty clause, empty list, unit, pure, branch); a unit literal comes from a one-literal clause, and every chosen literal or variable is unassigned |
| SatDpll.Search | core/sat_solver.py:214-275 | reference definition of a `_dpll` call: verdict, final assignment and counter increments. Its own contract only says that the final assignment keeps one entry per variable; correctness is `SatDpll.SearchCorrect` |
| SatDpll.SearchBranch | core/sat_solver.py:257-275 | reference definition of the two branches, true first; the final assignment keeps its length |
| SatDpll.SimplifyClauseKeepsMeaning | core/sat_solver.py:290-308 | under any full assignment extending the partial one, a dropped clause is true and a kept clause means what the original did |
| SatDpll.SimplifyKeepsMeaning | core/sat_solver.py:277-310 | simplification keeps the formula's value under every full assignment that extends the partial one |
| SatDpll.PureLiteralKeepsSatisfied | core/sat_solver.py:244-250 | making a pure literal true keeps every satisfied clause satisfied |
| SatDpll.FixKeepsEquivalent | core/sat_solver.py:240-241 | assigning a variable keeps the current clauses equivalent to the original formula |
| SatDpll.SimplifyKeepsEquivalent | core/sat_solver.py:226 | simplifying keeps the current clauses equivalent to the original formula |
| SatDpll.SearchCorrect | core/sat_solver.py:214-275 | soundness and completeness: true means the final assignment satisfies the original formula; false means no extension of the partial assignment does |
| SatDpll.SomeVariableUnassigned | core/sat_solver.py:252-255 | a non-empty simplified list without an empty clause leaves a variable to branch on, so the "None, return True" fallback cannot be reached |
| SatDpll.UnitStepCorrect | core/sat_solver.py:236-242 | propagating a unit literal keeps the outcome correct |
| SatDpll.PureStepCorrect | core/sat_solver.py:244-250 | eliminating a pure literal keeps the outcome correct, since a solution exists after the step iff one existed before |
| SatDpll.BranchStepCorrect | core/sat_solver.py:257-275 | trying true and then false on the branch variable keeps the outcome correct |
| SatDpll.DpllAgreesWithBruteForce | core/sat_solver.py:195-212 | DPLL answers true iff some counter below 2^n satisfies the formula (the brute-force answer), and its assignment passes `verify_sat_solution` |
| SatDpll.DpllSolver.constructor | core/sat_solver.py:187-189 | all three counters start at 0 |
| SatDpll.DpllSolver.Solve | core/sat_solver.py:169-212 | result and counters are those of `Search` from the all-unassigned state; satisfiable iff the formula is; a returned assignment passes the checker |
| SatDpll.DpllSolver.Dpll | core/sat_solver.py:214-275 | the verdict, the final array contents and each counter's increase equal `Search` on the old array contents |
| SatDpll.DpllSolver.Propagate | core/sat_solver.py:236-250 | the unit and pure cases: same result and counter increases as `Search` |
| SatDpll.DpllSolver.Branch | core/sat_solver.py:257-275 | for any unassigned variable v: tries true and then false, each on a copy; result, final array and counter increases equal `SearchBranch` on the old contents |
| SatDpll.CopyOf | core/sat_solver.py:259 | `assignment[:]` is a fresh array with the same contents |
| SatDpll.CopyBack | core/sat_solver.py:263 | `assignment[:] = assignment_copy` makes the destination equal to the source and leaves the source unchanged |
| SubsetSum.IndicesFacts | core/subset_sum.py:55-58 | the taken indices increase, lie below n, and index i is taken iff bit i is set |
| SubsetSum.PickedMatches | core/subset_sum.py:55-58 | the subset lists exactly the numbers at the taken indices, in order |
| SubsetSum.PickedSum | core/subset_sum.py:55-59 | the running sum equals the sum of the subset |
| SubsetSum.SelectionFacts | core/subset_sum.py:50-59 | the three facts above for one selection |
| SubsetSum.PrefixSumNonNegative | core/subset_sum.py:218-232 | with non-negative numbers no selection sums below 0 |
| SubsetSum.SolvableIffSomeMask | core/subset_sum.py:45-62 | some subset sums to the target iff some counter below 2^n selects one |
| SubsetSum.Extend | core/subset_sum.py:55-59 | one step of the bit loop appends number i and index i, and adds number i, exactly when bit i is set |
| SubsetSum.SubsetOfMask | core/subset_sum.py:50-59 | the inner loop builds the subset, the indices and the sum that the counter selects |
| SubsetSum.SolveBruteForce | core/subset_sum.py:22-78 | found iff solvable; a found subset comes from counter `tried - 1`, its indices increase, and it sums to the target; no earlier counter hits the target; otherwise 2^n tries |
| SubsetSum.Table | core/subset_sum.py:218-232 | the cell the fill loop computes, as a recursive definition: column 0 true, row 0 false elsewhere, otherwise the cell above or the cell above shifted by the number; TableMeaning states its meaning |
| SubsetSum.TableMeaning | core/subset_sum.py:216-232 | `dp[i][j]` holds iff some selection of the first i numbers sums to j |
| SubsetSum.TableWitness | core/subset_sum.py:244-256 | a true cell has a selection of the first i numbers summing to j |
| SubsetSum.AllFalseSumsToZero | core/subset_sum.py:221-222 | the empty selection sums to 0, which is why column 0 is all true |
| SubsetSum.TableComplete | core/subset_sum.py:225-232 | every selection's sum is marked in the table |
| SubsetSum.FillTable | core/subset_sum.py:218-232 | the filled table is (n+1) x (target+1) and every cell equals its meaning |
| SubsetSum.FillRow | core/subset_sum.py:226-232 | the inner loop fills row i from row i-1 and leaves every other row unchanged |
| SubsetSum.Reconstruct | core/subset_sum.py:244-260 | backtracking from a true `dp[n][target]` yields numbers at increasing indices that sum to the target |
| SubsetSum.BacktrackTake | core/subset_sum.py:252-255 | when a true cell's upper neighbour is false, number i-1 fits in j and the cell up-left is true |
| SubsetSum.SolveDp | core/subset_sum.py:175-268 | target 0 gives the empty solution with size 0; a negative target gives none with size 0; otherwise size (n+1)(target+1); found iff solvable; a solution has increasing indices and sums to the target |
| SubsetSum.VerifySubsetSumSolution | core/subset_sum.py:137-162 | an element absent from the numbers is an error, and the first such element is the one reported; otherwise the verdict is sum == target |
| SubsetSum.FirstMissing | core/subset_sum.py:157-159 | the first element not among the numbers, or None iff all occur |
| SubsetSum.PickedPassesChecker | core/subset_sum.py:137-162 | every selection passes the checker with verdict "sums to target" |
| SubsetSum.MembershipCheckAcceptsRepeats | core/subset_sum.py:157-162 | the checker accepts [1, 1] for numbers [1] and target 2, which no subset reaches |
| SubsetSum.VerifySubsetSumSolutionCounted | core/subset_sum.py:137-162 | corrected checker: an error iff some element is used more often than it occurs; otherwise the verdict is sum == target |
| SubsetSum.FirstOverused | core/subset_sum.py:157-159 | the first element used more often than it occurs, or None iff none is |
| SubsetSum.SubMultisetIsChoice | core/subset_sum.py:137-162 | any sub-multiset of the numbers is the subset of some selection with the same sum |
| SubsetSum.CountedCheckerSound | core/subset_sum.py:137-162 | the corrected checker's verdict true implies the instance is solvable |
| SubsetSum.PickedIsSubMultiset | core/subset_sum.py:55-58 | a selection uses each number at most as often as it occurs |
| SubsetSum.PickedPassesCountedChecker | core/subset_sum.py:137-162 | every selection passes the corrected checker with verdict "sums to target" |
| SubsetSum.SolutionsBelow | core/subset_sum.py:298-308 | the solutions the enumeration loop collects for counters below k, in counter order; at most one per counter |
| SubsetSum.SolutionsBelowExact | core/subset_sum.py:298-308 | the list for counters below k holds exactly the subsets of those counters that sum to the target |
| SubsetSum.FindAllSolutions | core/subset_sum.py:279-310 | the loop returns the solutions of all 2^n counters in counter order; each sums to the target; the list is non-empty iff solvable |
| SubsetSum.AllSolutionsMeaning | core/subset_sum.py:279-310 | every listed subset sums to the target, and the list is non-empty iff the instance is solvable |
| SubsetSum.ZeroTargetOnlyEmpty | core/subset_sum.py:279-310 | with positive numbers and target 0, the only solution listed is the empty subset |
| SubsetSum.ZeroTargetBelow | core/subset_sum.py:298-308 | the same, for every prefix of the counter range |
| SubsetSum.TakenPositive | core/subset_sum.py:55-59 | with positive numbers, a selection taking any element sums above 0 |
| TspInstance.GetDistance | generators/tsp_generator.py:34-45 | the matrix entry, never negative; on a symmetric matrix either direction |
| TspInstance.PathLength | generators/tsp_generator.py:60-64 | the open path's length is never negative |
| TspInstance.TourDistance | generators/tsp_generator.py:47-66 | the closed tour's length is never negative |
| TspInstance.PathLengthSnoc | generators/tsp_generator.py:61-64 | appending a city adds the edge to it |
| TspInstance.PathLengthConcat | generators/tsp_generator.py:61-64 | joining two paths adds the edge between them |
| TspInstance.Reverse | core/traveling_salesman.py:404 | `[::-1]`: same length, entry k is entry n-1-k |
| TspInstance.PathLengthReverse | core/traveling_salesman.py:404 | on a symmetric matrix a reversed path has the same length |
| TspInstance.RotationKeepsDistance | generators/tsp_generator.py:60-66 | a tour read from any of its cities has the same length |
| TspInstance.TwoCityTour | core/traveling_salesman.py:51-60 | the two-city tour is d(0,1) + d(1,0) |
| TspInstance.CycleSumIsPathLength | generators/tsp_generator.py:61-64 | the first i terms of the loop's sum are the length of the path through the first i+1 cities |
| TspInstance.SmallMod | generators/tsp_generator.py:63 | `(i + 1) % len(tour)` is i + 1 before the last city |
| TspInstance.CycleSumIsTourDistance | generators/tsp_generator.py:60-66 | the whole modular sum is the closed tour length |
| TspInstance.CalculateTourDistance | generators/tsp_generator.py:47-66 | a wrong-length tour is an error; otherwise the loop returns the closed tour length |
| TspInstance.ValidateDistanceMatrix | generators/tsp_generator.py:433-493 | a non-square matrix reports every flag false; a square one reports symmetry, zero diagonal and triangle inequality, each within the tolerance, each iff it holds |
| TspInstance.CheckSymmetric | generators/tsp_generator.py:461-469 | the nested scan with early exit is true iff every pair agrees within the tolerance |
| TspInstance.CheckTriangle | generators/tsp_generator.py:474-486 | the triple scan with early exit is true iff every triple of distinct cities satisfies the inequality within the tolerance |
| TspTours.Range | core/traveling_salesman.py:63 | `range`: the consecutive cities lo .. hi-1 |
| TspTours.Factorial | core/traveling_salesman.py:70 | n! by its recursive definition, used to count permutations; the contract keeps only positivity, so the exhaustive solver always has a candidate tour |
| TspTours.RemoveAt | core/traveling_salesman.py:70 | removing one entry shortens the sequence by one |
| TspTours.Prepend | core/traveling_salesman.py:70 | puts one entry in front of each sequence, keeping order and count |
| TspTours.Perms | core/traveling_salesman.py:70 | `itertools.permutations` as a recursive definition: each position's entry followed by the permutations of the rest; every sequence it yields has the input's length |
| TspTours.PermsFrom | core/traveling_salesman.py:70 | the permutations led by positions i onwards; each has the input's length and starts with an entry at position i or later |
| TspTours.PermsCount | core/traveling_salesman.py:70 | `itertools.permutations` of m items yields m! sequences |
| TspTours.PermsFromCount | core/traveling_salesman.py:70 | the permutations led by positions i .. m-1 number (m-i)(m-1)! |
| TspTours.PermsSound | core/traveling_salesman.py:70 | every enumerated sequence is a rearrangement of the input |
| TspTours.PermsFromSound | core/traveling_salesman.py:70 | the same, for the permutations led by positions i onwards |
| TspTours.PermsFromGrows | core/traveling_salesman.py:70 | later leading positions enumerate a subset of the earlier ones |
| TspTours.PermsComplete | core/traveling_salesman.py:70 | every rearrangement of the input is enumerated |
| TspTours.DistinctMultiset | core/traveling_salesman.py:453-454 | a sequence without repeats holds each entry once |
| TspTours.CountedOnceIsDistinct | core/traveling_salesman.py:453-454 | a sequence holding each entry at most once has no repeats |
| TspTours.RearrangedTour | core/traveling_salesman.py:74 | a rearrangement of a tour is a tour |
| TspTours.ElementsCount | core/traveling_salesman.py:453 | `len(set(tour)) <= len(tour)`, with equality iff no city repeats |
| TspTours.CitiesFacts | core/traveling_salesman.py:449 | `set(range(n))` has n elements, exactly the cities below n |
| TspTours.TourIffAllCities | core/traveling_salesman.py:445-450 | a sequence of length n is a tour iff its set is {0, .., n-1} |
| TspTours.DistinctSameElements | core/traveling_salesman.py:449-454 | two repeat-free sequences with the same set are rearrangements of each other |
| TspTours.TourFromZero | core/traveling_salesman.py:70-74 | `[0] + perm` is a tour iff perm rearranges cities 1 .. n-1 |
| TspBruteForce.Candidates | core/traveling_salesman.py:63-74 | the (n-1)! enumerated tours, each a tour starting at city 0 |
| TspBruteForce.CandidatesComplete | core/traveling_salesman.py:70-74 | every tour that starts at city 0 is enumerated |
| TspBruteForce.RotatedTour | core/traveling_salesman.py:70-74 | rotating a tour gives a tour |
| TspBruteForce.CandidatesSuffice | core/traveling_salesman.py:63-82 | a length no longer than every candidate is no longer than every tour, since a tour rotates to one starting at 0 |
| TspBruteForce.SolveBruteForce | core/traveling_salesman.py:23-89 | under 2 cities, no tour; with 2, [0, 1] after one try; otherwise (n-1)! tries, and the result is the first shortest candidate with its length, no longer than any tour |
| TspBruteForce.TwoCityOptimal | core/traveling_salesman.py:51-60 | with two cities [0, 1] is a tour and as short as any |
| TspBruteForce.TwoCitySingleCandidate | core/traveling_salesman.py:51-60 | with two cities the enumeration would yield only [0, 1] |
| TspNearestNeighbor.NearestAmong | core/traveling_salesman.py:243-253 | the city the inner scan must choose, as a predicate: unvisited, no farther than any unvisited city, and strictly nearer than every lower-numbered one; NearestBelowMeaning ties the scan to it |
| TspNearestNeighbor.NearestBelow | core/traveling_salesman.py:243-253 | the scan's choice is an unvisited city |
| TspNearestNeighbor.NearestBelowMeaning | core/traveling_salesman.py:243-253 | the scan finds nothing iff all cities are visited; otherwise its choice is nearest, and the lowest-numbered among equals |
| TspNearestNeighbor.NearestIsUnique | core/traveling_salesman.py:251-253 | the strict `<` leaves no choice: the nearest, first-among-equals city is unique |
| TspNearestNeighbor.DistinctBound | core/traveling_salesman.py:242 | a repeat-free list of cities below n has at most n entries |
| TspNearestNeighbor.AllVisitedIsFull | core/traveling_salesman.py:242 | once no city is unvisited, the tour has all n cities |
| TspNearestNeighbor.GreedyExtend | core/traveling_salesman.py:242-259 | continuing a partial greedy tour yields a tour that extends it |
| TspNearestNeighbor.GreedyExtendDone | core/traveling_salesman.py:242 | when no city is unvisited the extension stops |
| TspNearestNeighbor.GreedyExtendNext | core/traveling_salesman.py:256-259 | otherwise the extension continues from the prefix with the nearest city appended |
| TspNearestNeighbor.NearestTour | core/traveling_salesman.py:221-266 | the greedy tour from a start is a tour beginning there |
| TspNearestNeighbor.GreedyExtendSteps | core/traveling_salesman.py:242-259 | every city added while extending is the nearest unvisited one |
| TspNearestNeighbor.NearestTourIsGreedy | core/traveling_salesman.py:242-259 | the tour from a start is greedy at every step |
| TspNearestNeighbor.GreedyTourUnique | core/traveling_salesman.py:242-259 | a tour that is greedy at every step is the one the heuristic builds from its first city |
| TspNearestNeighbor.GreedyToursAgree | core/traveling_salesman.py:242-259 | two greedy tours from the same city agree on every prefix |
| TspNearestNeighbor.TriangleClosedForm | core/traveling_salesman.py:247-249 | the lookups of the scans, 0 + 1 + .. + u, are u(u+1)/2 |
| TspNearestNeighbor.LookupsPerRunClosedForm | core/traveling_salesman.py:239-264 | one run makes n(n-1)/2 + 1 lookups |
| TspNearestNeighbor.AdvanceRun | core/traveling_salesman.py:256-259 | moving to the nearest city keeps the visited list and the unvisited set in step, and the set shrinks by one |
| TspNearestNeighbor.FinishedRun | core/traveling_salesman.py:242 | a run with nothing unvisited holds the greedy tour |
| TspNearestNeighbor.StartRun | core/traveling_salesman.py:234-237 | a run starts with only the start city visited |
| TspNearestNeighbor.NearestFromCity | core/traveling_salesman.py:221-266 | returns the greedy tour from the start, its closed length, and n(n-1)/2 + 1 lookups |
| TspNearestNeighbor.BuildGreedyPath | core/traveling_salesman.py:233-259 | the `while unvisited` loop builds the greedy tour and its open path length, with (n-1)n/2 lookups |
| TspNearestNeighbor.VisitNearest | core/traveling_salesman.py:243-259 | one outer step keeps the run state, shrinks the unvisited set by one, adds the edge length and counts the lookups |
| TspNearestNeighbor.ScanUnvisited | core/traveling_salesman.py:243-253 | the inner scan returns the nearest unvisited city (first among equals) and its distance, after one lookup per unvisited city |
| TspNearestNeighbor.FirstShortestStep | core/traveling_salesman.py:208-211 | the best start is replaced only by a strictly shorter tour, so the first shortest start is kept |
| TspNearestNeighbor.BestStart | core/traveling_salesman.py:197-211 | the start loop returns the first start whose greedy tour is shortest, that tour and its length, and n runs of lookups |
| TspNearestNeighbor.SolveNearestNeighbor | core/traveling_salesman.py:154-219 | under 2 cities, no tour; with 2, [0, 1] with two lookups; otherwise the first shortest greedy tour over all starts, with its start city and lookup count |
| TspTwoOpt.Succ | core/traveling_salesman.py:391-394 | `(k + 1) % n` for k < n |
| TspTwoOpt.TwoOptMove | core/traveling_salesman.py:404 | `tour[:i+1] + tour[i+1:j+1][::-1] + tour[j+1:]`, entry by entry |
| TspTwoOpt.ReverseMultiset | core/traveling_salesman.py:404 | reversing a segment keeps its cities |
| TspTwoOpt.MoveKeepsTour | core/traveling_salesman.py:404-405 | an exchange turns a tour into a tour with the same first city |
| TspTwoOpt.Delta | core/traveling_salesman.py:391-399 | the four lookups and the change they give, as a definition; MoveDistance states its meaning |
| TspTwoOpt.MoveDistance | core/traveling_salesman.py:391-406 | on a symmetric matrix the computed change is exactly the change of the tour length, which justifies `best_distance += distance_change` |
| TspTwoOpt.ReverseMiddle | core/traveling_salesman.py:391-404 | reversing an inner segment of a path swaps two edges for two others |
| TspTwoOpt.MovePathInside | core/traveling_salesman.py:391-404 | the same for an exchange that ends before the last city |
| TspTwoOpt.MoveDistanceInside | core/traveling_salesman.py:391-406 | the closed-tour change for such an exchange |
| TspTwoOpt.ReverseTail | core/traveling_salesman.py:391-404 | reversing the tail of a closed tour swaps two edges, one of them the closing edge |
| TspTwoOpt.MoveDistanceAtEnd | core/traveling_salesman.py:391-406 | the closed-tour change for an exchange whose segment runs to the last city |
| TspTwoOpt.RowCount | core/traveling_salesman.py:382-385 | the pairs in row i below j, with the pair (0, n-1) skipped |
| TspTwoOpt.RowsCount | core/traveling_salesman.py:381-385 | the pairs in rows below i, in closed form |
| TspTwoOpt.PairCountClosedForm | core/traveling_salesman.py:381-385 | a full scan examines n(n-3)/2 pairs |
| TspTwoOpt.PairsBeforeBound | core/traveling_salesman.py:381-396 | a pass that stops at a pair has examined at most a full scan's pairs |
| TspTwoOpt.ScanForImprovement | core/traveling_salesman.py:381-412 | the nested loops find the first pair in scan order whose change is below -1e-10, with 4 lookups per examined pair; none is found iff the tour is locally optimal |
| TspTwoOpt.ScanRow | core/traveling_salesman.py:382-409 | the inner loop finds the first j in row i with change below -1e-10, or none; 4 lookups per examined pair |
| TspTwoOpt.RowsBelowStep | core/traveling_salesman.py:381-382 | the rows below i + 1 are the rows below i plus row i |
| TspTwoOpt.UnitsAbove | core/traveling_salesman.py:402 | a finite length is below a whole number of 1e-10 units, which bounds the passes |
| TspTwoOpt.ExchangeStep | core/traveling_salesman.py:402-408 | an improving exchange gives a tour with the same first city and the length plus the change |
| TspTwoOpt.FirstPairFrom | core/traveling_salesman.py:381-404 | the scan order as a recursive definition; what it returns is a valid pair whose change is below -1e-10 |
| TspTwoOpt.FirstPairFound | core/traveling_salesman.py:381-404 | started anywhere up to the first improving pair, the scan returns that pair |
| TspTwoOpt.NoPairFound | core/traveling_salesman.py:381-404 | on a locally optimal tour the scan returns nothing |
| TspTwoOpt.FirstPairSound | core/traveling_salesman.py:381-404 | the pair returned improves, and no valid pair between the start and it does |
| TspTwoOpt.FirstPairComplete | core/traveling_salesman.py:381-404 | when the scan returns nothing, no valid pair from its start on improves |
| TspTwoOpt.ScanFindsNothingIffOptimal | core/traveling_salesman.py:381-412 | the full scan finds nothing iff the tour is locally optimal |
| TspTwoOpt.ImprovingStepIsFirstMove | core/traveling_salesman.py:381-410 | a step to the exchange where the scan stops is exactly the first improving exchange in scan order |
| TspTwoOpt.ScanCostAt | core/traveling_salesman.py:381-396 | a pass that stops at the first improving pair makes four lookups per pair up to and including it |
| TspTwoOpt.ScanCostOptimal | core/traveling_salesman.py:381-396 | a pass over a locally optimal tour makes four lookups per pair of a full scan |
| TspTwoOpt.ScanCostsAppend | core/traveling_salesman.py:394 | the lookups of earlier passes are unchanged when a pass is added |
| TspTwoOpt.ImprovePass | core/traveling_salesman.py:377-412 | one pass makes the first improving exchange, as the scan definition picks it, and shortens the tour by more than 1e-10; or it finds none, which means the tour is locally optimal; its lookups are exactly the scan cost of the tour |
| TspTwoOpt.CountedPass | core/traveling_salesman.py:377-412 | one pass with its bookkeeping: the lookups are added and the new tour is appended to the trace, keeping the loop state |
| TspTwoOpt.TwoOptImprovement | core/traveling_salesman.py:358-414 | the result is a tour with the same first city; its reported length is exact; it is 2-opt locally optimal; each exchange saved more than 1e-10; a trace runs from the initial tour to the result in `iterations` steps, each the first improving exchange of the tour before it; the lookups are exactly one pass's cost for each tour of the trace |
| TspTwoOpt.SolveTwoOpt | core/traveling_salesman.py:287-356 | under 2 cities, no tour; with 2, [0, 1] and two lookups; otherwise the improvement starts from the nearest-neighbour tour of the first shortest start, whose length is the initial distance; the trace of first improving exchanges leads to the returned locally optimal tour; the lookups are those of the nearest-neighbour stage plus one pass per tour of the trace |
| TspChecks.VerifyTour | core/traveling_salesman.py:425-457 | a length error iff the length is wrong; true iff the list is a tour |
| TspChecks.DuplicateCheckUnreachable | core/traveling_salesman.py:453-454 | the duplicate check can never raise: the set check before it already rules repeats out |
| TspChecks.Compare | core/traveling_salesman.py:477-485 | the improvement report as a definition; CompareMeaning states its meaning |
| TspChecks.CompareMeaning | core/traveling_salesman.py:477-485 | an improvement iff the new tour is shorter iff the percentage is positive; the percentage is at most 100, and exactly 100 iff the new length is 0 |
| TspChecks.CalculateImprovement | core/traveling_salesman.py:460-486 | an error iff either tour has the wrong length; otherwise the report compares the two closed tour lengths |

## Left out

- I/O, timing and the `isinstance` type checks are not modelled; the type checks are guaranteed by Dafny's types.
- The result containers (`SATResult`, `SubsetSumResult`, `TSPResult`), `__str__`, `to_dict`, `get_complexity_class` and `get_algorithm_name` are not modelled; they carry no logic.
- The random instance generators in `generators/` are not part of this model; only `TSPInstance` and `validate_distance_matrix` are.
- Floating point is modelled as exact `real` arithmetic. Rounding in tour lengths, in the running `best_distance` of 2-opt and in the 1e-10 and tolerance comparisons is not captured.
- The nearest-neighbour scan iterates a `set` of the cities 0 .. n-1. CPython yields such small non-negative integers in ascending order, and the model scans them in that order, so ties go to the lowest-numbered city.
- SatDpll.FirstPure: the source iterates a `set` of literals, and CPython's order for it is neither ascending nor the clause order (negative literals hash differently). The model instead takes the first pure literal in clause order. It can therefore eliminate a different pure literal, so the final assignment and the counters may differ from the source's. The verdict cannot: `PureStepCorrect` holds for every pure literal.
- SatSolver.SolveBruteForce: requires every literal to be non-zero and to name one of the n variables. The source would index `assignment[-1]` for literal 0 and raise `IndexError` for an out-of-range one; neither case is modelled.
- SatDpll.DpllSolver.Solve: the same well-formedness requirement.
- SatSolver.VerifySatSolution: the same well-formedness requirement.
- SubsetSum.SolveDp: requires non-negative numbers. With a negative number the source's table lookup `dp[i-1][j - numbers[i-1]]` goes past the row; that out-of-range behaviour is not modelled.
- SubsetSum.Reconstruct: builds the lists by prepending, where the source appends and then reverses; the resulting lists are the same.
- SubsetSum.SolveDp: `dp_table_size` is an `int`, to avoid an unbounded-product subtype check; its value is as in the source.
- TspTwoOpt.SolveTwoOpt: requires a symmetric matrix. Without symmetry the computed change is not the length change, and the `while improved` loop has no termination argument.
- TspTwoOpt.TwoOptImprovement: requires a symmetric matrix, for the same reason.
- TspInstance.CalculateTourDistance: a tour of the right length must name cities below n. The source would raise `IndexError`, or wrap a negative index; that is not modelled.
- TspChecks.CalculateImprovement: the same requirement, for both tours.
- TspChecks.VerifyTour: tours are lists of natural numbers, so a negative city number, which the source rejects through its set check, cannot be written down.
- The source's unreachable branches are proved unreachable, not modelled:
  - DPLL's "no branch variable, return True" (`SatDpll.SomeVariableUnassigned`);
  - the duplicate check of `verify_tsp_solution` (`TspChecks.DuplicateCheckUnreachable`);
  - the "nearest neighbour found no tour" early return of the 2-opt solver, which cannot happen with three or more cities.

## Findings

| source | as written | input that shows it | evidently intended | confidence | as-written member | corrected member |
|---|---|---|---|---|---|---|
| core/subset_sum.py:157-162 | `verify_subset_sum_solution` only checks that each element occurs somewhere in the numbers, so an element can be used more often than it occurs | numbers [1], target 2, solution [1, 1] is accepted as valid, though no subset of [1] sums to 2 | each element must be matched by its own occurrence, so that a solution accepted as valid is a real subset | not executed; high that the check is membership-only, medium that multiplicity was intended | SubsetSum.MembershipCheckAcceptsRepeats | SubsetSum.CountedCheckerSound |
