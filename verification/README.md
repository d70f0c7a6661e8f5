# Verified models of the D-Wave client libraries

These Dafny modules model the algorithms of the client libraries that are hardest to get right, and prove what
their documentation, tests and callers rely on. `dafny verify dfyconfig.toml` checks everything. One module stands
for one component; the names of operations follow the C++ and Python names.

**Fixing variables by roof duality** (`CompressedMatrix`, `SparseMatrix`, `Qubo`, `Posiform`, `Network`, `Flow`,
`RoofDuality`, `MinimumCuts`, `Graphs`, `Residual`, `FixStandard`, `SymmetricResidual`, `Components`, `OptimizedTheory`,
`FixOptimized`, `Worklist`, `FixVariables`, `MaximalFixing`, `FixQubo`, `Substitution`, `Scaling`, `TruncationLoss`,
`FixProblem`, `ReducedProblem`, `TruncationExample`, `TiedExample`, `ProductExample`). A quadratic problem over 0/1
variables is made upper triangular, scaled to 64-bit integers, rewritten as a posiform and turned into a skew-symmetric
network. Fixed variables are read off a maximum flow, by a search ("standard", method 2) or by strongly connected
components and an out-degree worklist ("optimized", method 1), and substituted into the problem. The header promises
that standard fixes hold in every optimal solution, that optimized fixes hold in some optimal solution, and that the
former are among the latter. The proof goes through minimum cuts: the capacity of the true literals is twice the energy
without its constant, cut capacity is submodular and invariant under taking mirror images, and the search finds the
least minimum cut. The optimized method stops at a minimum cut without complements that no larger one contains;
`ProductExample` is a problem where it fixes everything and the standard method nothing. What is left of the problem is
determined by the fixed variables. The promises are proved of the integer problem without restriction. They do not
survive the truncation to integers on every input, and what survives is measured by the fractions that truncation drops.
On every input the fixed values cost at most their sum. A problem is *separated* when its scaled coefficients are
multiples of a quantum larger than that sum; integer coefficients are separated when their number times the largest one
is at most 2^53. In a separated problem exactly those optimal solutions stay optimal that lose most, so some optimal
solution has the fixed values, and the optimal solutions are the same as before if and only if they all lose the same;
then everything documented holds, in particular when there is only one. Neither condition can be dropped:
`TruncationExample` has a problem, not separated, where the standard method fixes a variable against every optimal
solution, and `TiedExample` a separated one with two optimal solutions of which truncation keeps one. Truncation keeps
all values if and only if no scaled coefficient has a fraction.

**Quadratization** (`DegreeReduction`, `Moebius`, `Quadratization`). A table of function values becomes a polynomial
by Moebius inversion, terms are reduced to degree two by greedy pair substitution with an index from pairs to terms,
and penalty gadgets tie the ancillas to their products. With a penalty weight above the sum of the absolute
coefficients, the minimum over the ancillas is the original function. The threshold under which coefficients are
dropped makes that fail exactly when it drops one that is not zero.

**Embedding and unembedding** (`Ising`, `Chains`, `CleanEmbedding`, `SmearEmbedding`, `EmbedProblem`, `ChainStrength`,
`Unembedding`). Validation, cleaning by leaf pruning, smearing by chain growth, spreading of coefficients over chains
and couplers, and repair or removal of broken chains. With chain couplings that outweigh all other coefficients,
optimal spins of the embedded problem are exactly the spread optimal spins of the logical one. Spins are reals in the
energy functions.

**JSON** (`Json`, `JsonParser`, `JsonTexts`, `JsonRoundTrip`, `JsonSoundness`). The recursive printer and the parser
with an explicit stack of open containers. A grammar says in what ways a value can be written, with white space, escapes
and digits of either case; the parser accepts exactly the texts of the grammar and reads each as its value, and so
undoes the printer. A string is a sequence of bytes.

**Searching for embeddings** (`ShortestPaths`, `GraphComponents`, `EmbeddingAttempts`, `EmbeddingSearch`). Dijkstra's
algorithm with lazy deletion, connected components, and the loop that embeds component by component: which attempt is
kept, and which vertices it gives to which chain. The choices of the heuristic, the clock, the sorting and the final
check are parameters, so the result holds on every run.

**Wire formats** (`Base64`, `QpAnswer`, `QpProblem`). The "qp" codec between the C++ client and the Python server over
base64 (section 4 of RFC 4648).

**Thread pool** (`ThreadPool`). Every critical section is a step of a protocol; a run is any interleaving of steps,
spurious wakeups included. The class performs the steps.

`Results`, `Arithmetic`, `Sums`, `Queues` and `Fixings` hold shared definitions. A method with a loop is proved
against a specification, and the properties are proved about that specification. Code that is not part of the
libraries enters through its contract: the maximum-flow routine is a function that returns a feasible flow whose
residual graph does not lead from source to sink, and the component routine a function that numbers mutually
reachable vertices equally.

## Model


| member | source | states |
|---|---|---|
| CompressedMatrices.FromMap | fix-variables/include/compressed_matrix.hpp:372-396 | fails exactly when some key of the map is outside the matrix; otherwise the three vectors are valid and stand for exactly the map |
| CompressedMatrices.CompressedMatrixToMap | fix-variables/include/compressed_matrix.hpp:559-572 | rebuilds exactly the map a matrix stands for, so map to matrix to map is the identity |
| CompressedMatrices.Csr.Get | fix-variables/include/compressed_matrix.hpp:429-457 | fails exactly on an index outside the matrix; otherwise the binary search returns the stored entry, or zero when nothing is stored |
| CompressedMatrices.Csr.Ordered | fix-variables/include/compressed_matrix.hpp:385-391 | entries lie in row-major order of their positions |
| SparseMatrices.CompressedMatrix.constructor | fix-variables/include/compressed_matrix.hpp:366-370 | a new matrix is valid and stands for the empty map |
| SparseMatrices.CompressedMatrix.Search | fix-variables/include/compressed_matrix.hpp:466-490 | finds the entry of a position, or the one place in its row where it belongs |
| SparseMatrices.CompressedMatrix.At | fix-variables/include/compressed_matrix.hpp:459-499 | fails exactly on an index outside the matrix and then changes nothing; otherwise the returned place holds the addressed entry, a missing one has been inserted as zero, every other entry is unchanged, and the matrix is valid |
| SparseMatrices.CompressedMatrix.RaiseOffsets | fix-variables/include/compressed_matrix.hpp:492-493 | the offsets of later rows, and no others, move up by one |
| SparseMatrices.CompressedMatrix.Assign | fix-variables/include/compressed_matrix.hpp:459-499 | writing through the reference changes the addressed entry of the map and nothing else |
| SparseMatrices.InsertMissing | fix-variables/include/compressed_matrix.hpp:466-499 | inserting at the found place keeps offsets monotone and columns ascending and adds one entry to the map |
| SparseMatrices.ConstIterator.constructor | fix-variables/include/compressed_matrix.hpp:533-550 | `begin()` stands on the first entry, past any empty leading rows |
| SparseMatrices.ConstIterator.Advance | fix-variables/include/compressed_matrix.hpp:647-672 | `++` moves to the next entry and to the row that entry lies in, past any empty rows |
| SparseMatrices.ConstIterator.NotAtEnd | fix-variables/include/compressed_matrix.hpp:692-699 | comparing rows with `end()` decides exactly whether an entry is left |
| SparseMatrices.Traverse | fix-variables/include/compressed_matrix.hpp:533-550 | a loop from `begin()` to `end()` meets every stored entry exactly once, in row-major order, with its value |
| SparseMatrices.SameRepresentation | fix-variables/include/compressed_matrix.hpp:372-396 | two valid matrices of the same size that stand for the same map are equal, vector by vector |
| PosiformConstruction.PosiformEqualsQubo | fix-variables/src/fix_variables.cpp:107-141 | for every 0/1 assignment the posiform has the value x'Qx, and all its coefficients but the constant are positive |
| PosiformConstruction.PosiformMerged | fix-variables/src/fix_variables.cpp:107-141 | an upper-triangular problem gives at most one term per variable and per pair of variables |
| PosiformConstruction.BQPToPosiform | fix-variables/src/fix_variables.cpp:69-141 | the loops build the posiform those two results speak about |
| ImplicationNetwork.PosiformToImplicationNetwork1 | fix-variables/src/fix_variables.cpp:209-266 | the matrix has exactly the two mirrored arcs of every term, in the numbering with the source first |
| ImplicationNetwork.PosiformToImplicationNetwork2 | fix-variables/src/fix_variables.cpp:268-323 | the same network in the numbering with the source in the middle |
| ImplicationNetwork.NetworkKeys | fix-variables/src/fix_variables.cpp:221-263 | every arc joins two different variables or a variable and a terminal; none enters the source or leaves the sink |
| ImplicationNetwork.NetworkSkew | fix-variables/src/fix_variables.cpp:221-320 | in both numberings the network is skew-symmetric: each arc has its mirror image with equal capacity |
| ImplicationNetwork.NetworkMapCut | fix-variables/src/fix_variables.cpp:221-320 | no arc is overwritten by a later term and none has a reverse arc; the cut capacity is the sum over the terms |
| ImplicationNetwork.NetworkCut | fix-variables/src/fix_variables.cpp:221-320 | in both numberings the capacity out of a separating vertex set is the posiform cut of its literals |
| MinimumCuts.AssignmentCut | fix-variables/src/fix_variables.cpp:221-320 | for every assignment the capacity from true to false literals is 2(x'Qx - cst), in both numberings |
| Flows.NetOutIsValue | fix-variables/src/fix_variables.cpp:380 | conservation: the net flow across any set that separates source from sink is the flow value |
| Flows.CutsAgainstFlow | fix-variables/src/fix_variables.cpp:380 | no cut has less capacity than the flow value, with equality exactly for residual-closed sets |
| Flows.MinimumIffClosed | fix-variables/src/fix_variables.cpp:380 | under a maximum flow the minimum cuts are exactly the sets closed under residual arcs |
| MinimumCuts.ClosedIsMinimumCut | fix-variables/src/fix_variables.cpp:1062-1082 | a residual-closed vertex set is a minimum cut of the posiform |
| MinimumCuts.MinimumCutIsClosed | fix-variables/src/fix_variables.cpp:1062-1082 | and every minimum cut of the posiform is residual-closed |
| RoofDuality.Submodular | fix-variables/src/fix_variables.cpp:209-323 | the cut capacity is submodular |
| RoofDuality.MirrorCut | fix-variables/src/fix_variables.cpp:209-323 | a cut and its mirror image have equal capacity |
| RoofDuality.CutIsTwiceValue | fix-variables/src/fix_variables.cpp:209-323 | the cut of the true literals is twice the posiform without its constant |
| RoofDuality.OverwriteNeverRaises | c-client/include/dwave_sapi.h:103-106 | making the literals of a complement-free minimum cut true never raises the value of any assignment, and lowers it when the literals already true are not themselves a minimum cut |
| RoofDuality.LeastIsComplementFree | fix-variables/src/fix_variables.cpp:1094-1104 | the least minimum cut never contains both signs of a variable |
| RoofDuality.StrongPersistency | c-client/include/dwave_sapi.h:103-106 | a literal of the least minimum cut is true in every optimal assignment |
| RoofDuality.WeakPersistency | c-client/include/dwave_sapi.h:108-109 | some optimal assignment makes all literals of a complement-free minimum cut true |
| Graphs.ReachesIffPath | fix-variables/src/fix_variables.cpp:459-473 | being in every closed set that contains the start is having a path of nonzero entries from it |
| Residuals.ResidualForMethod2 | fix-variables/src/fix_variables.cpp:1016-1082 | the matrix has exactly the residual arcs that neither leave the sink nor enter the source |
| Residuals.ClosedIffResidualClosed | fix-variables/src/fix_variables.cpp:1062-1082 | dropping those arcs does not change which separating sets are closed |
| Residuals.MissingEntries | fix-variables/src/fix_variables.cpp:426-439 | the missing entries are exactly the reverses of the arcs that carry flow |
| Residuals.ResidualForMethod1 | fix-variables/src/fix_variables.cpp:386-448 | the completed matrix has exactly the residual arcs, with nonnegative values |
| FixStandard.BfsForMethod2 | fix-variables/src/fix_variables.cpp:451-476 | marks exactly the vertices reachable from the start |
| FixStandard.ReachableIsLeast | fix-variables/src/fix_variables.cpp:1088-1104 | what is reachable from the source is the least minimum cut, whatever maximum flow was found |
| FixStandard.CollectForced | fix-variables/src/fix_variables.cpp:1094-1104 | the fixed variables are exactly the marked literals, each once |
| FixStandard.ApplyImplication | fix-variables/src/fix_variables.cpp:956-1113 | the fixed literals are the least minimum cut of the posiform |
| SymmetricResiduals.MakeResidualSymmetric | fix-variables/src/fix_variables.cpp:478-530 | an arc is present exactly when it or its mirror image is residual, except into the source and out of the sink |
| SymmetricResiduals.MirrorArc | fix-variables/src/fix_variables.cpp:491-523 | the symmetrised graph is skew-symmetric |
| SymmetricResiduals.MirrorReaches | fix-variables/src/fix_variables.cpp:491-523 | a path has a mirror image between the negations in the other direction |
| Components.ListComponents | fix-variables/src/fix_variables.cpp:589-598 | the lists of each component hold exactly its vertices and literals, each literal once, and its first vertex is its smallest |
| Components.BuildCondensation | fix-variables/src/fix_variables.cpp:600-625 | one entry of value 1 for every ordered pair of components joined by an arc, and no other |
| Components.ClassifyComponents | fix-variables/src/fix_variables.cpp:630-654 | 0 exactly for the components that contain a variable with both signs |
| OptimizedTheory.ClosedSetIsMinimumCut | fix-variables/src/fix_variables.cpp:478-530 | a separating set that no symmetrised arc leaves is a minimum cut |
| OptimizedTheory.SymmetricClosedSet | fix-variables/src/fix_variables.cpp:478-530 | a complement-free closed separating set exists: a minimum cut met with its mirror image |
| OptimizedTheory.ReachedIsComplementFree | fix-variables/src/fix_variables.cpp:702-704 | the source never reaches a literal and its negation, nor the sink |
| OptimizedTheory.CoInvolution | fix-variables/src/fix_variables.cpp:706-725 | the component of the negated literals is well defined, and complementing twice gives the component back |
| OptimizedTheory.MirrorComponentArc | fix-variables/src/fix_variables.cpp:600-617 | the condensation is skew-symmetric under complementation |
| OptimizedTheory.TerminalsAlone | fix-variables/src/fix_variables.cpp:519-523 | source and sink are components of their own |
| OptimizedTheory.CondensationReaches | fix-variables/src/fix_variables.cpp:702-704 | what the search reaches among components is reached among vertices |
| FixOptimized.ShortestPath | fix-variables/src/fix_variables.cpp:656-679 | marks the start with 1, exactly the other reachable components with 2, and the rest with 0 |
| FixOptimized.LocateTerminals | fix-variables/src/fix_variables.cpp:685-700 | finds the components of source and sink and lists exactly the other components that are not their own complement |
| FixOptimized.ComplementPairs | fix-variables/src/fix_variables.cpp:706-725 | the table pairs every listed component with its complement |
| Worklist.Transpose | fix-variables/src/fix_variables.cpp:729-737 | the transposed graph has exactly the reversed arcs |
| Worklist.InitialDegrees | fix-variables/src/fix_variables.cpp:739-750 | the counters start as the out-degrees of the undecided components, and every component with out-degree 0 is queued |
| Worklist.DecrementPredecessors | fix-variables/src/fix_variables.cpp:776-786 | the counters of exactly the undecided predecessors drop by one, and those that reach 0 are queued |
| FixVariables.FixComponent | fix-variables/src/fix_variables.cpp:814-818 | appends the literals of the component, each once |
| FixVariables.FixVisited | fix-variables/src/fix_variables.cpp:752-767 | all reached components are fixed, and they and their complements leave the count |
| FixVariables.SettleVisited | fix-variables/src/fix_variables.cpp:770-801 | afterwards each counter is the number of successors that are still undecided |
| FixVariables.MayFix | fix-variables/src/fix_variables.cpp:806-818 | a component all of whose successors are decided may be fixed: the fixed set stays closed and free of complements |
| FixVariables.FixNext | fix-variables/src/fix_variables.cpp:804-846 | each round keeps that, keeps all counters exact, and brings the loop nearer to its end |
| FixVariables.FixVariables | fix-variables/src/fix_variables.cpp:681-851 | the fixed components are closed under arcs, exclude their complements, include everything reached, and when the loop ends no further component qualifies |
| MaximalFixing.MinimumCutIsHalf | fix-variables/src/fix_variables.cpp:478-530 | the vertices of a complement-free minimum cut are closed under the symmetrised arcs and contain no vertex with its negation |
| MaximalFixing.LastComponent | fix-variables/src/fix_variables.cpp:600-625 | the condensation has no cycle: in every nonempty set of components some component has no successor in the set |
| MaximalFixing.NothingLeftOut | fix-variables/src/fix_variables.cpp:804-846 | what the worklist ends with is not contained in any larger closed set of components without complements |
| MaximalFixing.FixedIsMaximal | fix-variables/src/fix_variables.cpp:681-851 | hence the only complement-free minimum cut that contains all fixed literals is the set of the fixed literals |
| FixQubo.Standard | fix-variables/src/fix_variables.cpp:1234-1247 | method 2: the fixed literals are the least minimum cut, each listed once |
| FixQubo.Optimized | fix-variables/src/fix_variables.cpp:1194-1233 | method 1: the fixed literals are a complement-free minimum cut, each listed once, and are contained in no larger one, so no further variable can be fixed in this way |
| FixQubo.StandardHoldsInEveryOptimum | c-client/include/dwave_sapi.h:114-115 | variables fixed by the standard method take the fixed value in every optimal solution of the integer problem |
| FixQubo.OptimizedHoldsInSomeOptimum | c-client/include/dwave_sapi.h:116-117 | some optimal solution of the integer problem has all the values fixed by the optimized method |
| FixQubo.StandardWithinOptimized | c-client/include/dwave_sapi.h:112-113 | whatever the standard method fixes the optimized method fixes to the same value, whichever flow each found |
| QuboScaling.UpperEnergy | fix-variables/src/fix_variables.cpp:1143-1158 | folding the lower triangle up does not change x'Qx |
| QuboScaling.UpperTriangle | fix-variables/src/fix_variables.cpp:1143-1158 | builds that form and the set of exactly the variables that occur |
| QuboFixing.Prepare | fix-variables/src/fix_variables.cpp:1143-1182 | the integer problem is the truncation of the scaled upper-triangular problem, with the scale factor of the source |
| QuboScaling.TruncationError | fix-variables/src/fix_variables.cpp:1177-1180 | truncation changes the value of an assignment by at most 1 per coefficient, and by nothing when every scaled coefficient is an integer |
| TruncationLoss.LossRange | fix-variables/src/fix_variables.cpp:1177-1180 | the sum of the fractions that truncation drops is less than 1 per coefficient, and 0 exactly when every scaled coefficient is an integer |
| TruncationLoss.TruncatedEnergy | fix-variables/src/fix_variables.cpp:1177-1180 | at every assignment the integer problem has the scaled value without the dropped fractions |
| TruncationLoss.ExactIffSameValues | fix-variables/src/fix_variables.cpp:1177-1180 | truncation keeps the value of every assignment if and only if every scaled coefficient is an integer |
| TruncationLoss.SeparatedOrder | fix-variables/src/fix_variables.cpp:1177-1180 | when the scaled coefficients are multiples of a quantum larger than all dropped fractions together, an assignment that is no worse after truncation was no worse before |
| TruncationLoss.IntegerSeparated | fix-variables/src/fix_variables.cpp:1162-1180 | integer coefficients are so separated whenever their number times the largest absolute value is at most 2^53 |
| QuboScaling.ScaledOrder | fix-variables/src/fix_variables.cpp:1177-1180 | scaling keeps the order of the values of all assignments |
| QuboFixing.NearOptimum | fix-variables/src/fix_variables.cpp:1162-1182 | on every input an optimal solution of the integer problem misses the optimum of the scaled problem by at most the sum of the dropped fractions |
| QuboFixing.SeparatedOptima | fix-variables/src/fix_variables.cpp:1162-1182 | a solution of a separated problem is optimal after truncation if and only if it was optimal before and loses at least as much to truncation as every other optimal solution |
| QuboFixing.SameOptimaIffSameLoss | fix-variables/src/fix_variables.cpp:1162-1182 | a separated problem has the same optimal solutions before and after truncation if and only if they all lose the same |
| QuboFixing.ExactOptima | fix-variables/src/fix_variables.cpp:1162-1182 | an exactly scaled problem is separated and loses nothing, so it has the same optimal solutions as the original |
| QuboFixing.OrdinaryIntegers | fix-variables/src/fix_variables.cpp:1162-1180 | every problem with integer coefficients whose number times the largest absolute value is at most 2^53 is separated |
| QuboFixing.OrdinaryPromise | c-client/include/dwave_sapi.h:111-117 | for such a problem the reported values hold in some optimal solution of the original, and with a single optimal solution everything that is documented holds |
| QuboFixing.DistinctVariables | fix-variables/src/fix_variables.cpp:1249-1250 | no variable is fixed twice, so the list is never longer than the number of variables |
| QuboFixing.KeepUsed | fix-variables/src/fix_variables.cpp:1252-1260 | exactly the fixed variables that occur in the problem are kept |
| QuboFixing.PromiseKept | c-client/include/dwave_sapi.h:103-117 | on every input some solution with the fixed values misses the optimum by at most the dropped fractions; in a separated problem some optimal solution has the fixed values, and all documented promises hold if the optimal solutions lose the same |
| QuboFixing.FixQuboVariables | fix-variables/src/fix_variables.cpp:1120-1269 | fails exactly for a non-square matrix or an unknown method, never because of the number of fixed variables; the new problem and the offset give the original value at every assignment with the fixed values; the new problem is upper triangular, has no zeros and does not mention the fixed variables, or is the upper-triangular form itself when nothing is fixed; the result consists of the used variables fixed in the integer problem, by method 1 a maximal set; the promises hold as in the row above |
| ReducedProblems.LeftIsDetermined | fix-variables/src/fix_variables.cpp:853-954 | for given fixed variables there is one matrix of that shape and one offset that give the original value at every assignment with the fixed values |
| QuboFixing.StandardAmongOptimized | c-client/include/dwave_sapi.h:111-112 | whatever two runs of the whole procedure report for one problem, the standard fixes are among the optimized fixes |
| QuboFixing.FixBoth | c-client/include/dwave_sapi.h:111-117 | the two runs, each with its own flow: the reported standard fixes are among the reported optimized fixes |
| TruncationExample.MisleadingScaled | fix-variables/src/fix_variables.cpp:1162-1180 | a concrete 3-variable problem whose scale factor is 1, and its truncated integer problem |
| TruncationExample.TruncationMisleads | fix-variables/src/fix_variables.cpp:1177-1180 | on that problem the standard method fixes a variable to 0 although every optimal solution of the original sets it to 1 |
| TruncationExample.MisleadingBroken | fix-variables/src/fix_variables.cpp:1120-1269 | nothing that the whole procedure can report for that problem holds in any optimal solution of the original |
| TruncationExample.FixMisleading | fix-variables/src/fix_variables.cpp:1120-1269 | running the procedure on it succeeds and breaks the promise, so the problem is not separated |
| TiedExample.TiedScaled | fix-variables/src/fix_variables.cpp:1162-1180 | a problem with coefficients 1, -2, 1 and 3, its scale factor 2^53/3, and its truncated integer problem |
| TiedExample.TiedBroken | c-client/include/dwave_sapi.h:113-114 | the standard method reports values for it that some optimal solution does not have, so with several optimal solutions separation alone does not keep the promise |
| TiedExample.FixTied | fix-variables/src/fix_variables.cpp:1120-1269 | running the procedure on it succeeds, with values that hold in some optimal solution but not in all |
| ProductExample.ProductMinimum | fix-variables/src/fix_variables.cpp:1194-1233 | the minimum cuts of the problem x0 x1: those that no arc leaves |
| ProductExample.OptimizedFixesBoth | c-client/include/dwave_sapi.h:108-109 | for x0 x1 the optimized method reports a value of both variables |
| ProductExample.StandardFixesNone | c-client/include/dwave_sapi.h:103-106 | while the standard method reports none |
| ProductExample.FixProduct | fix-variables/src/fix_variables.cpp:1120-1269 | running the procedure with both methods on it |
| Substitution.IndexFree | fix-variables/src/fix_variables.cpp:864-874 | numbers exactly the variables that are not fixed |
| Substitution.FreeCount | fix-variables/src/fix_variables.cpp:910-919 | there are as many free variables as the code allocates places for |
| Substitution.SplitBlocks | fix-variables/src/fix_variables.cpp:876-898 | every entry goes to its one block, at its renumbered position |
| Substitution.EnergyOfBlocks | fix-variables/src/fix_variables.cpp:876-898 | the four blocks together give x'Qx for every assignment with the fixed values |
| Substitution.FixedOffset | fix-variables/src/fix_variables.cpp:900-907 | the offset is the value of the fixed block at the fixed values |
| Substitution.FixedRows | fix-variables/src/fix_variables.cpp:909-916 | the row contributions give the mixed block's value for every choice of the free variables |
| Substitution.FixedColumns | fix-variables/src/fix_variables.cpp:918-925 | likewise for the column contributions |
| Substitution.DiagonalIndex | fix-variables/src/fix_variables.cpp:930-936 | stepping through flat indices by m + 1 visits exactly the diagonal positions and stops after m steps |
| Substitution.AddDiagonal | fix-variables/src/fix_variables.cpp:930-936 | adding along that walk adds exactly the linear form |
| Substitution.Restore | fix-variables/src/fix_variables.cpp:938-945 | writing the block back at its original positions, without zeros, keeps its value |
| Substitution.ComputeNewQAndOffset | fix-variables/src/fix_variables.cpp:853-954 | x'Qx equals the offset plus x'Q'x for every assignment with the fixed values; the new matrix has no zeros, no entry in a fixed row or column, and no entry off the diagonal where the old one has none; with nothing fixed it is the old one |
| DegreeReduction.LargestVariable | c-client/src/conversions.cpp:79-83 | the largest variable of the terms, or 0 |
| DegreeReduction.BuildIndex | c-client/src/conversions.cpp:76-95 | the index maps exactly the pairs of the terms larger than 2 to exactly the terms that contain them |
| DegreeReduction.Rewrite | c-client/src/conversions.cpp:109-138 | replacing a pair in one term keeps the index exact |
| DegreeReduction.Round | c-client/src/conversions.cpp:97-139 | the chosen pair occurs in the most terms and is the first of those in the order of the index; it is replaced in exactly the terms that contain it, and the index stays exact |
| DegreeReduction.RoundReduces | c-client/src/conversions.cpp:97-139 | each round lowers the total size and keeps every term's product under all assignments that respect the ancillas |
| DegreeReduction.ReduceDegree | c-client/src/conversions.cpp:58-144 | fails exactly on a negative variable; otherwise the result comes from rounds that each replace the first most frequent pair, until no term has more than two variables; small terms are untouched and larger ones end with size 2, ancillas are numbered past all variables and defined from earlier ones, and every term has the product of its original |
| DegreeReduction.ReductionIsUnique | c-client/src/conversions.cpp:97-144 | those rounds have one possible outcome |
| Moebius.BitSetIsBits | c-client/src/conversions.cpp:195-199 | the bit test picks exactly the variables of the position |
| Moebius.BuildInverse | c-client/src/conversions.cpp:160-180 | the doubling loops fill the whole Kronecker power |
| Moebius.Coefficients | c-client/src/conversions.cpp:182-185 | every coefficient is its row times the table |
| Moebius.RowSumIsCoeff | c-client/src/conversions.cpp:160-185 | the row sums are the coefficients obtained by halving the table |
| Moebius.EvalOfCoeffs | c-client/src/conversions.cpp:160-185 | the polynomial with those coefficients has the value of the table at every assignment |
| Moebius.SubsetSums | c-client/src/conversions.cpp:160-185 | f at an assignment is the sum of the coefficients of the products true there |
| Quadratization.CollectTerms | c-client/src/conversions.cpp:187-202 | keeps exactly the coefficients above the threshold, each with the variables of its position |
| Quadratization.PenaltyMeansConsistent | c-client/src/conversions.cpp:239-257 | the penalty is 0 exactly when every ancilla is its product, and at least 1 otherwise |
| Quadratization.SplitTerms | c-client/src/conversions.cpp:206-225 | succeeds exactly when all terms have one or two variables, and then the linear and quadratic parts add up to the polynomial; the quadratic part is symmetric without diagonal |
| Quadratization.AddPenalties | c-client/src/conversions.cpp:239-257 | the 3-by-3 gadgets add exactly the weight times the penalty at every assignment, and the matrix stays symmetric |
| Quadratization.ChooseWeight | c-client/src/conversions.cpp:227-237 | the given weight, or ten times the largest absolute entry |
| Quadratization.LargestInteraction | c-client/src/conversions.cpp:227-237 | the default weight is five times the largest absolute interaction of two variables in the reduced polynomial, which the matrix holds in two halves |
| Quadratization.Combine | c-client/src/conversions.cpp:259-270 | merging the linear part into the diagonal and dropping zeros keeps the energy; the matrix is symmetric and has no zero entries |
| Quadratization.CanonicalIsUnique | c-client/src/conversions.cpp:259-270 | there is one symmetric matrix without zero entries for each energy function |
| Quadratization.PowerOfTwo | c-client/src/conversions.cpp:150-158 | the length test accepts exactly the powers of two |
| Quadratization.MakeQuadratic | c-client/src/conversions.cpp:146-275 | fails exactly for a wrong length or a nonzero constant, so the exception for terms above degree two is unreachable; the terms are the kept ones, reduced as above; the energy of the result is the reduced polynomial plus the weighted penalty, for the given or the default weight, and the matrix is symmetric without zeros |
| Quadratization.EnergyBound | c-client/src/conversions.cpp:239-257 | with a weight above the sum of the absolute coefficients the energy is never below the polynomial, with equality exactly when all ancillas are their products |
| Quadratization.MinimumOverAncillas | c-client/src/conversions.cpp:146-275 | the minimum over the ancillas is the polynomial, and the minimisers are exactly those that set each ancilla to its product |
| Quadratization.PolynomialNearTable | c-client/src/conversions.cpp:189-202 | what is minimised differs from the table by at most the threshold times the size of the table |
| Quadratization.PolynomialIsTable | c-client/src/conversions.cpp:189-202 | it equals the table everywhere if and only if the threshold dropped no nonzero coefficient |
| Quadratization.NothingLostMeans | c-client/src/conversions.cpp:189-191 | the threshold drops no nonzero coefficient exactly when none but 0 lies between -10^-10 and 10^-10 |
| Quadratization.QuadraticIsFunction | c-client/src/conversions.cpp:146-275 | then, for every assignment of the original variables, the minimum of the quadratic energy over the ancillas is the given function value |
| Json.StoreIsUpdate | remote/src/json.cpp:237-241 | assigning to a name of an object changes what that name maps to and nothing else |
| Json.ToStringVisitor.AppendString | remote/src/json.cpp:106-126 | appends the quoted, escaped text |
| Json.ToStringVisitor.VisitArray | remote/src/json.cpp:137-145 | appends the items between brackets, separated by commas |
| Json.ToStringVisitor.VisitObject | remote/src/json.cpp:147-157 | appends the members between braces, separated by commas |
| Json.JsonToString | remote/src/json.cpp:432-457 | the visitor writes the text that the round trip is stated about |
| JsonParser.EatSpace | remote/src/json.cpp:413-416 | stops at the first character that is not white space |
| JsonParser.JoinIsCodePoint | remote/src/json.cpp:381 | the bitwise or joins a surrogate pair into its code point exactly when bit 6 of the lead surrogate is clear; otherwise the result is 0x10000 too small |
| JsonParser.ParseString | remote/src/json.cpp:364-411 | the loop, whatever runs of plain characters it copies, reads what the string denotes or fails where it denotes nothing |
| JsonParser.JsonStack.AddValue | remote/src/json.cpp:263-266 | the value goes into the innermost open container, whose rules decide success and whether the separator is consumed |
| JsonParser.JsonStack.CloseArray | remote/src/json.cpp:267-272 | the innermost container closes as an array or the call fails; the array becomes a value of the container below |
| JsonParser.JsonStack.CloseObject | remote/src/json.cpp:273-278 | the same for objects |
| JsonParser.SpellsPrefix | remote/src/json.cpp:480-494 | the short-circuit tests accept exactly the literal words |
| JsonParser.StringToJson | remote/src/json.cpp:459-523 | the loop with its mutable stack computes the machine that the rows below are about, for every text |
| JsonTexts.Utf8IsDecoded | remote/src/json.cpp:347-362 | an independent decoder by the byte ranges of RFC 3629 reads every code point below 0x200000 back from its bytes |
| JsonTexts.DecodedIsUtf8 | remote/src/json.cpp:347-362 | and accepts no other bytes |
| JsonRoundTrip.QuadRead | remote/src/json.cpp:320-341 | four hexadecimal digits of either case are read as the number they denote |
| JsonRoundTrip.PieceStep | remote/src/json.cpp:371-408 | a plain character, a short escape, a \u escape outside the surrogates and a surrogate pair each add the bytes they stand for |
| JsonRoundTrip.StringRead | remote/src/json.cpp:364-411 | so every string is read as the bytes of its pieces |
| JsonRoundTrip.SpaceRun | remote/src/json.cpp:413-416 | white space before a token and after a value changes nothing |
| JsonRoundTrip.DocRun | remote/src/json.cpp:459-523 | from any state of the stack, reading a text of a value is handing the machine that value |
| JsonRoundTrip.TextIsRead | remote/src/json.cpp:459-523 | every text of a value parses to the value, whatever its white space, its escapes and the case of its digits |
| JsonSoundness.StringSound | remote/src/json.cpp:364-411 | a string that is read was written in pieces of these kinds, and has their bytes |
| JsonSoundness.ArraySound | remote/src/json.cpp:198-217 | an array that is read was written as items with commas between them and none after the last |
| JsonSoundness.ObjectSound | remote/src/json.cpp:219-251 | an object that is read was written as members with commas between them and possibly one after the last; of two with one name the later counts |
| JsonSoundness.ParsesExactlyTexts | remote/src/json.cpp:459-523 | a text parses to a value if and only if it is a text of that value in white space, followed by nothing or a NUL |
| JsonRoundTrip.PrintedIsText | remote/src/json.cpp:432-457 | what is printed is a text of the value |
| JsonRoundTrip.ParserUndoesPrinter | remote/src/json.cpp:432-523 | parsing the printed text of any value gives the value back |
| JsonRoundTrip.PrinterInjective | remote/src/json.cpp:432-457 | different values have different texts |
| JsonRoundTrip.ParsedIsValid | remote/src/json.cpp:459-523 | every text that parses denotes a valid value, whose own text parses to it again |
| IsingProblems.ToIsingProblem | c-client/src/embed-problem.cpp:404-433 | fails exactly on an invalid index; otherwise the problem has the energy of the entry list at all spins, the right number of variables, and no explicit zeros |
| IsingProblems.DecodeEmbeddings | c-client/src/embed-problem.cpp:435-449 | fails exactly on the largest int; otherwise chain c lists exactly the positions holding c, in ascending order |
| Chains.ConnectedAdd | c-client/src/embed-problem.cpp:279-284 | a neighbour of a connected chain may join it |
| Chains.ConnectedRemoveLeaf | c-client/src/embed-problem.cpp:191-203 | a qubit with exactly one chain neighbour may leave a connected chain |
| Chains.AreConnected | c-client/src/embed-problem.cpp:61-84 | true exactly when the chain cannot be split into two parts without an edge between them |
| Chains.ValidateVars | c-client/src/embed-problem.cpp:86-108 | passes exactly when every chain is nonempty, lies in the graph and is connected |
| Chains.ValidateEdges | c-client/src/embed-problem.cpp:111-129 | passes exactly when every coupling has a coupler between its chains |
| Chains.AdjacencySet | c-client/src/embed-problem.cpp:475-490 | fails exactly on an invalid index; otherwise both directions of every edge with loops, and a bound on the vertices |
| EmbeddingCleaning.InterchainQubits | c-client/src/embed-problem.cpp:159-171 | exactly the ends of couplers that a nonzero coupling uses |
| EmbeddingCleaning.Prune | c-client/src/embed-problem.cpp:189-203 | qubits go one at a time, each with exactly one neighbour in what is left of its chain; what remains is connected and not empty, no protected qubit goes, and the loop stops where no other qubit has exactly one chain neighbour |
| EmbeddingCleaning.CleanEmbedding | c-client/src/embed-problem.cpp:132-213 | a valid embedding stays valid: unused variables keep their first qubit alone, every other chain is what pruning leaves of it, every nonzero coupling keeps its couplers, and the protected qubits are exactly the ends of these |
| EmbeddingSmearing.GrowChain | c-client/src/embed-problem.cpp:269-285 | the chain grows by unused adjacent qubits only, stays connected, never grows once its target is met, and stays below it only when no unused qubit is adjacent |
| EmbeddingSmearing.SmearEmbedding | c-client/src/embed-problem.cpp:250-293 | for arbitrary targets a valid embedding stays valid, chains only gain qubits, and every chain below its target is enclosed |
| EmbeddingSmearing.SmearKeepsCouplers | c-client/src/embed-problem.cpp:250-293 | every nonzero coupling keeps a coupler |
| EmbeddedProblems.SpreadFields | c-client/src/embed-problem.cpp:302-309 | every qubit of a chain has an equal part of the field of its variable and every other qubit none; so at spins that are constant on chains the fields have the linear energy of the problem |
| EmbeddedProblems.CouplerPairs | c-client/src/embed-problem.cpp:325-334 | lists exactly the ascending couplers between two chains, each once |
| EmbeddedProblems.PartsAddUp | c-client/src/embed-problem.cpp:305-340 | as many parts as there are qubits or couplers give the coefficient |
| EmbeddedProblems.SpreadCouplings | c-client/src/embed-problem.cpp:322-340 | exactly the ascending couplers of the hardware graph between the chains of some coupling are coupled, each with an equal part of it; so at such spins the couplings have the quadratic energy of the problem |
| EmbeddedProblems.ChainEdges | c-client/src/embed-problem.cpp:311-319 | exactly the ascending edges inside chains |
| EmbeddedProblems.ChainEnergyBound | c-client/src/embed-problem.cpp:311-319 | at arbitrary spins the chain energy is at least minus the number of chain edges, with equality exactly when no chain is broken |
| EmbeddedProblems.BrokenChainCosts | c-client/src/embed-problem.cpp:311-319 | a broken chain raises the chain energy by at least 2 |
| EmbeddedProblems.EmbedProblem | c-client/src/embed-problem.cpp:296-343 | the fields and couplings of the result are exactly those of the two rows above, it has exactly the chain edges, and it has the energy of the logical problem at all spins with unbroken chains |
| ChainStrength.StrongChains | c-client/src/embed-problem.cpp:296-343 | with chain couplings stronger than the sum of the absolute embedded coefficients, spins are optimal for the embedded problem if and only if no chain is broken and the spins of the chains are optimal for the logical problem |
| EmbeddedProblems.ReadInput | c-client/src/embed-problem.cpp:466-493 | exactly which inputs are rejected, and what the accepted ones are decoded to |
| EmbeddedProblems.Prepare | c-client/src/embed-problem.cpp:495-503 | the embedding that is used comes from the given one by cleaning and smearing exactly as requested, and stays valid |
| EmbeddedProblems.EmbedEntries | c-client/src/embed-problem.cpp:453-505 | from the entry lists to the embedded problem, with or without cleaning and smearing: rejected exactly as above, otherwise the result is exactly as in the row of EmbedProblem for the embedding that Prepare gives, and has the energy of the entries |
| Unembedding.SetSpin | c-client/src/unembed-answer.cpp:90-92 | setting an undecided spin changes the energy by its local field |
| Unembedding.FieldUpdate | c-client/src/unembed-answer.cpp:96-101 | setting a spin changes another variable's field by their coupling |
| Unembedding.ReadChains | c-client/src/unembed-answer.cpp:49-66 | intact chains get their common spin, broken ones 0 and a place in the list, empty ones leave the buffer alone |
| Unembedding.LocalField | c-client/src/unembed-answer.cpp:70-78 | the cached number is the local field |
| Unembedding.UpdateFields | c-client/src/unembed-answer.cpp:96-101 | after a decision every cached number is the local field under the new spins |
| Unembedding.Decide | c-client/src/unembed-answer.cpp:80-102 | one round decides the first variable of the list with a strongest field, to -1 if the field is positive and to 1 otherwise, drops it from the list and keeps the cache exact |
| Unembedding.Repair | c-client/src/unembed-answer.cpp:80-102 | the loop is the greedy run from the spins it found, over the list of broken chains |
| Unembedding.GreedyIsUnique | c-client/src/unembed-answer.cpp:80-102 | a greedy run has one possible outcome |
| Unembedding.GreedyEnergy | c-client/src/unembed-answer.cpp:80-102 | a greedy run changes undecided variables only, makes each 1 or -1, and lowers the energy by exactly the sum of the chosen absolute fields |
| Unembedding.AverageIsZeroFilled | c-client/src/unembed-answer.cpp:62-65 | the average over all completions is the energy with zeros for the broken chains |
| Unembedding.GreedyNotWorseThanAverage | c-client/src/unembed-answer.cpp:80-102 | greedy repair is never worse than the average over all ways to decide the broken chains |
| Unembedding.RepairedIsWellDecided | c-client/src/unembed-answer.cpp:39-102 | a repaired row has 1 or -1 for every broken chain and the common spin for every intact one, and its energy is at most the average over all ways to decide the broken chains |
| Unembedding.MinimizeEnergy | c-client/src/unembed-answer.cpp:39-109 | every row of the buffer is the reading of its solution after a greedy run on the broken chains, decided and bounded as the row above states; nothing else is written |
| Unembedding.OffsetIsProduct | c-client/src/unembed-answer.cpp:104-105 | row k of a flat array starts at k times the row length |
| Unembedding.Discard | c-client/src/unembed-answer.cpp:146-176 | exactly the solutions without a broken chain are kept, in order, at the front of the buffer |
| ShortestPaths.Dijkstra | find-embedding/src/find_embedding.cpp:209-254 | fails exactly when cancelled; otherwise distances and parents form a shortest-path tree |
| ShortestPaths.DistanceIsLowerBound | find-embedding/src/find_embedding.cpp:226-253 | no walk from the source is shorter than the distance of its end |
| ShortestPaths.TrailIsShortest | find-embedding/src/find_embedding.cpp:244-245 | following the parents ends at the source along a walk as long as the distance |
| ShortestPaths.DistancesAreExact | find-embedding/src/find_embedding.cpp:209-254 | the distance is the maximum exactly when every walk is at least that long, otherwise the length of a shortest walk |
| GraphComponents.ConnectedComponents | find-embedding/src/find_embedding.cpp:78-110 | every vertex lies in exactly one list, and each list is the set of vertices reachable from its first |
| GraphComponents.SymmetricAdjacency | find-embedding/src/find_embedding.cpp:1629-1664 | both directions of exactly the stored entries, and exactly the vertices that occur |
| EmbeddingAttempts.VertexBags | find-embedding/src/find_embedding.cpp:1479-1489 | the bag of a hardware vertex holds exactly the problem vertices whose row has it |
| EmbeddingAttempts.VertexChains | find-embedding/src/find_embedding.cpp:1491-1498 | each chain lists exactly the hardware vertices of the row of its problem vertex, in ascending order |
| EmbeddingAttempts.BagsLinkChains | find-embedding/src/find_embedding.cpp:1479-1498 | every member of a chain has the chain's vertex in its bag |
| EmbeddingAttempts.WidthOneSeparates | find-embedding/src/find_embedding.cpp:1765-1779 | when no bag holds two vertices the chains are disjoint |
| EmbeddingAttempts.TryComponent | find-embedding/src/find_embedding.cpp:1744-1783 | attempts are made until one has width 1, the tries are used up, time is over or one is interrupted; bags and chains are those of one attempt, the first with the smallest width; a final width of at most 1 means separated chains |
| EmbeddingAttempts.NarrowestIsMinimum | find-embedding/src/find_embedding.cpp:1771-1779 | no attempt is narrower than the one that is kept, and no earlier one as narrow |
| EmbeddingSearch.InducedGraph | find-embedding/src/find_embedding.cpp:1690-1742 | the graph of a component, or of the vertices that are left, has exactly the edges between them, at their places in the list |
| EmbeddingSearch.PlaceComponent | find-embedding/src/find_embedding.cpp:1813-1822 | vertex i of the component has exactly the hardware vertices of chain i appended and all other chains are unchanged; chains stay disjoint from each other and from the vertices left |
| EmbeddingSearch.FindEmbedding | find-embedding/src/find_embedding.cpp:1594-1839 | fails exactly for a non-square matrix; otherwise the result is that of a run that places the components of the problem one after the other, each by the best attempt on the vertices left, until one fails, the time is over or an attempt is interrupted, and is dropped when the check rejects it; on every run, for any heuristic, clock, sorting and check, the chains have no repetition, share no vertex and use only vertices of the hardware graph |
| EmbeddingSearch.SortedApart | find-embedding/src/find_embedding.cpp:1672-1688 | sorting the components does not make two of them share a vertex |
| EmbeddingSearch.ChainsAreRows | find-embedding/src/find_embedding.cpp:1811-1823 | at the end of a run every vertex of a placed component has exactly the hardware vertices of its row in the best attempt |
| EmbeddingSearch.EdgesCoupled | find-embedding/src/find_embedding.cpp:1811-1839 | if the best attempts couple neighbours, every stored entry of the problem at a vertex of a placed component has a coupler between its two chains |
| Base64.AlphabetIsStandard | remote/src/base64.cpp:21-43 | the encoder writes and the decoder takes exactly the alphabet of RFC 4648, each character for its place |
| Base64.GroupIsNumber | remote/src/base64.cpp:62-89 | the four symbols of a group hold its bytes as one 24-bit number, the first byte on top |
| Base64.ParseData | remote/src/base64.cpp:95-136 | the meaning of the symbols of any data is the data |
| Base64.EncodeBase64 | remote/src/base64.cpp:49-93 | the text has exactly the symbols of the data, four characters per group of three bytes |
| Base64.DecodeBase64 | remote/src/base64.cpp:95-136 | the loop returns what the symbols mean, or fails exactly when they mean nothing; line ends are ignored, misplaced padding and text after padding rejected |
| Base64.DecodeUndoesEncode | remote/src/base64.cpp:49-136 | decoding the encoded text of any bytes gives them back |
| QpAnswers.EncodeSols | sapience/sapience.py:221-237 | the bytes are each solution's active bits, packed from the top bit, a new byte for each solution |
| QpAnswers.ByteIsBinary | sapience/sapience.py:224-234 | a full byte holds its bits as a binary number, the first bit on top |
| QpAnswers.MissingBitsAreZero | sapience/sapience.py:235-236 | zeros stand for the missing bits of a last byte |
| QpAnswers.RowToAt | remote/src/decode-qp.cpp:119-137 | in a decoded row a variable outside the active list has the value 3, the k-th active variable that of bit k |
| QpAnswers.DecodeSolutions | remote/src/decode-qp.cpp:101-140 | fails exactly when the active list is not ascending and in range, the byte count does not fit, or the buffer would be too large; otherwise bit k of row i is the value of the k-th active variable |
| QpAnswers.FillSolutions | remote/src/decode-qp.cpp:119-137 | the moving cursors fill the buffer with exactly the rows and never read past the checked size |
| QpAnswers.SolutionsRoundTrip | sapience/sapience.py:221-237 | decoding the packed solutions gives them back, for any number of solutions with one active set |
| QpAnswers.DecodeInts | remote/src/decode-qp.cpp:62-75 | fails exactly when the length is no multiple of four |
| QpAnswers.LowByteFirst | sapience/sapience.py:217-218 | a packed integer is its two's complement in 32 bits, the lowest byte first |
| QpAnswers.IntListRoundTrip | sapience/sapience.py:217-218 | little-endian 32-bit integers are read back |
| QpAnswers.EncodeAnswer | sapience/sapience.py:240-258 | the two texts encode the packed solutions and the active variables of the first solution |
| QpAnswers.DecodeAnswer | remote/src/decode-qp.cpp:101-140 | gives what the texts mean, or fails exactly when they are malformed |
| QpAnswers.AnswerRoundTrip | remote/src/decode-qp.cpp:101-140 | the client reads from the server's texts, for each solution, the values the server had |
| QpProblems.Partition | remote/src/encode-qp.cpp:165 | permutes the array so that the linear entries come first |
| QpProblems.UsedQubits | remote/src/encode-qp.cpp:114-129 | fails exactly on an unknown qubit; otherwise exactly the qubits that occur |
| QpProblems.LinearVector | remote/src/encode-qp.cpp:167-173 | NaN for unused qubits, the sum of the linear entries for used ones |
| QpProblems.CouplerIndices | remote/src/encode-qp.cpp:175-182 | every active coupler has its last position among the active couplers in the solver's order, for any solver description |
| QpProblems.IndicesInside | remote/src/encode-qp.cpp:175-190 | all these positions lie inside the vector if and only if no active coupler is listed twice |
| QpProblems.QuadraticVector | remote/src/encode-qp.cpp:184-190 | fails exactly on an unknown coupler; otherwise the sum of the entries of each active coupler |
| QpProblems.HalvesGiveWhole | remote/src/encode-qp.cpp:165-190 | the order in which the partition leaves the entries does not matter |
| QpProblems.EncodeProblem | remote/src/encode-qp.cpp:161-197 | fails exactly when some entry names an unlisted qubit or coupler; otherwise the two vectors are the sums over the whole problem |
| QpProblems.ServerReadsSums | sapience/sapience.py:121-133 | when client and server list the same couplers in the same order, the server reads the sum of the entries of every used qubit and of every coupler between used qubits |
| ThreadPools.StepKeeps | remote/src/threadpool.cpp:53-84 | every step of every thread, spurious wakeups included, keeps the invariant: accepted posts are the started tasks followed by the queue, and while some worker sleeps the queue is no longer than the number of awake idle workers |
| ThreadPools.RunKeeps | remote/src/threadpool.cpp:53-84 | so every state of every run has it |
| ThreadPools.FirstInFirstOut | remote/src/threadpool.cpp:59-60 | started tasks are a prefix of the accepted posts, in order |
| ThreadPools.NeverStuck | remote/src/threadpool.cpp:79-84 | while the pool runs, a waiting task never meets only sleeping workers |
| ThreadPools.PostsAreKept | remote/src/threadpool.cpp:79-84 | after any list of steps the accepted posts are exactly the posts before the first shutdown, in order, and each has been started or waits |
| ThreadPools.OldestIsStarted | remote/src/threadpool.cpp:55-61 | while a task waits and a worker is ready, that worker starts the oldest one when it takes the mutex, and nothing else changes |
| ThreadPools.RunHasSteps | remote/src/threadpool.cpp:53-84 | every run takes such a list of steps |
| ThreadPools.WakeRechecks | remote/src/threadpool.cpp:56 | a worker that wakes with nothing to do goes back to sleep, and nothing has changed |
| ThreadPools.NothingAfterShutdown | remote/src/threadpool.cpp:57-83 | once shut down, nothing is started or accepted and the pool never runs again |
| ThreadPools.JoinEnds | remote/src/threadpool.cpp:71-77 | after shutdown some worker can always step until all have exited, and each of their steps uses up a measure |
| ThreadPools.StepAfterShutdown | remote/src/threadpool.cpp:57-84 | after shutdown, posting and shutting down again change nothing and nobody is left to wake |
| ThreadPools.JoinRun | remote/src/threadpool.cpp:71-77 | after shutdown a run makes at most two moves per thread, whatever is still posted, and no worker can move exactly when all have exited, so joining ends |
| ThreadPools.ThreadPool.constructor | remote/src/threadpool.cpp:87-93 | a new pool is in the initial state of the protocol |
| ThreadPools.ThreadPool.ThreadStep | remote/src/threadpool.cpp:53-61 | one critical section of a worker is the corresponding step: it takes the oldest task off the queue and hands it out, sleeps without one, and leaves after shutdown; nothing else changes |
| ThreadPools.ThreadPool.TaskDone | remote/src/threadpool.cpp:63-67 | a worker whose task has ended is ready again, and nothing else changes |
| ThreadPools.ThreadPool.PostTask | remote/src/threadpool.cpp:79-84 | a post to a running pool succeeds, puts the task at the end of the queue and wakes one sleeping worker if there is one; after shutdown it is refused and nothing changes |
| ThreadPools.ThreadPool.ShutDown | remote/src/threadpool.cpp:71-77 | the pool stops running and exactly the sleeping workers become ready; the queue stays |
| ThreadPools.MakeThreadPool | remote/src/threadpool.cpp:102-104 | refuses exactly fewer than one thread |

## Left out

- FixQuboVariables: the documented promises are false of the original problem on some inputs, as the two examples
  show; they are stated for separated problems whose optimal solutions lose the same to truncation, and what holds
  otherwise is stated beside them.
- FixQuboVariables: the scale factor is computed in exact reals; rounding of doubles and wrap-around of 64-bit sums in
  the posiform and the network are not modelled.
- FindsMaximumFlows and FindsComponents describe the Boost push-relabel and strong-components routines; the routines
  themselves are not modelled, nor are their graph structures (fix_variables.cpp lines 334-384 and 540-580).
- The random posiform (fix_variables.cpp lines 142-204) and the final sorting of the fixed variables by number.
- ResidualForMethod1: `maxFlow` completes its matrix with `insert`, which would lose the reverse residual of an arc
  whose reverse is an arc too; the network of an upper-triangular problem has no such pair, which is proved and used.
- Matrices passed as `const` references are values; only the matrix class itself is modelled with in-place updates,
  and of the two iterators only the constant one.
- MakeQuadratic: the default penalty weight of ten times the largest entry is modelled but not claimed to be
  sufficient; `abs` is the absolute value of a real, the length test is stated by halving instead of a bit operation,
  and an ancilla may take the number of an original variable that occurs in no kept term.
- StringToJson: numbers that need `strtod` and the printing of doubles are left out; the model reports them as an
  error. White space is that of the C locale. A comma after the last member of an object is accepted, as in the code
  (json.cpp lines 237-247), one after the last item of an array is not.
- GrowChain and SmearEmbedding: the target sizes are arbitrary; the scale arithmetic and range checks of
  `smearEmbedding` (embed-problem.cpp lines 224-248, where every scale is divided by the first field) are left out.
- The conversion of the embedded problem into the C result structure (embed-problem.cpp lines 345-398).
- Unembedding by vote and by weighted random choice.
- Dijkstra: path lengths are unbounded integers compared with the largest 64-bit value; the number of vertices is the
  number of rows.
- FindEmbedding: the vertex-addition heuristic, the closest-vertex search and the verification of the result are
  parameters; whether the heuristic couples neighbours is an assumption of `EdgesCoupled`. As in the code, chains are
  cleared after a failed verification only if `verbose` is set, and an interrupted run may return chains for some
  components only.
- EncodeProblem and DecodeAnswer: the JSON object around the vectors, the energies and the numbers of occurrences are
  left out; NaN is `None` and coefficients are reals. A coupler between used qubits that the solver lists twice is
  excluded: there the code writes outside its vector, as `IndicesInside` shows.
- DecodeSolutions: the product that is compared with the number of bytes is not reduced modulo the word size.
- ThreadPool: tasks are numbers; returning from a task and throwing from it are the same step.
- The copy of the matrix class in find-embedding, the Python twins of the algorithms, the Orang and QSage solvers, the
  HTTP layer, retry timers, parameter parsing and the language wrappers.
