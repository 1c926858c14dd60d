# EvalMaxSAT: a verified model

EvalMaxSAT is a core-guided (OLL) weighted MaxSAT solver on top of a vendored
CaDiCaL. This project models its hard parts in Dafny and proves what they are
for. It has five parts.

- **The OLL engine** (`Objective`, `Engine`, `Steps`, `Optimality`, `Input`,
  `Cores`, `LocalOptimizer`, `Conflicts`, `MaxSat`, `Incremental`). Every step
  of `solve` rewrites the formula. The invariant of a run says that on canonical models the original
  cost is the lower bound plus falsified weights plus pending cores plus, for
  each live counter, the part of its count that has no soft literal yet. It
  gives optimality at every exit of `solve`, and termination. `SolveProblem` and
  `SolveSession` put the pieces together for a caller.
- **The lazy totalizer** (`Definitions`, `Totalizer`). Counters are built in a
  queue, truncated, enlarged on demand, and emit clauses only when an output is
  asked for. The encoding works in one direction only; `Definitions` shows that
  least extensions make up for that.
- **Branch-and-bound maximum clique** (`Clique`). Colouring in place gives the
  bound; the degrees left stale are never read. `Conflicts` ties its graph to
  the soft literals: a clique it finds is what the engine may contract.
- **The online DRUP checker** (`Watching`, `HashTable`, `Records`, `Checker`).
  Watched propagation with blocking literals, temporary assumptions, clause hash
  table and lazy garbage; over all runs it accepts only what follows, and
  everything that naive propagation over the undeleted clauses confirms.
- **Pieces of CaDiCaL.** The extension stack (`Extension`) with variable
  elimination (`Elim`), blocked clauses (`Block`), globally blocked clauses
  (`Condition`) and equivalent-literal substitution (`Implications`, `Tarjan`,
  `Decompose`, `Substitute`); the search trail with first-UIP analysis, clause
  minimization and out-of-order backtracking (`Trail`, `Dominators`, `Analyze`,
  `Minimize`); failed assumptions (`Failing`).

`Cnf` holds clauses and their meaning. A literal is a variable with a sign, an
assignment the set of variables it makes true. `Solver` is the SAT solver as
the engine sees it: an object over a clause set whose calls return a model, a
core of the assumptions, or nothing; its bodies search exhaustively or choose
freely, so that nothing is assumed about it. A ghost counter, `giveUps`, notes
unknown answers and clocks that ran out; what the helpers promise when every
answer was conclusive is stated with it. Time limits, heuristics, shuffles and
limits on conflicts are free choices wherever they only steer the search.

Notes on the code:

- `harden` computes the gap between the bounds as an unsigned number; when it
  would be negative the model hardens nothing, as the wrapped number does.
- In incremental mode `solve` saves the weights for `LocalOptimizer2` while
  counters of an earlier call are alive; the assertion that there are none is
  commented out in the source. The saved weights are right exactly when these
  counters are exhausted (`Optimality.SavedWeightsExact`); otherwise the upper
  bound can be lower than the optimum (`Incremental.UpperBoundTooLow`).
  `MaxSat.EvalMaxSat.Solve` asks for exhausted counters when the upper bound
  strategy is on, and for nothing about counters when it is off.
- Outside incremental mode `solve` hardens literals for the clauses of one call;
  a second call may miss solutions (`Incremental.HardenedTooFar`).
- The assertion in `reduce_hash` that the table is not empty is a precondition
  of `Checker.DeleteClause`: without assertions the loop would not end on an
  empty table, and on no other (`HashTable.ReduceEnds`).
- `block_literal_with_one_negative_occ` and `block_pure_literal` are the cases
  of one and no negative occurrence of `Block.BlockLiteral`.
- `condition_round` keeps watching clauses that it moved to the stack, so it
  misses clauses that become globally blocked on the way
  (`Condition.BlockedLater`); it moves all that were at its start.
- `decompose_round` can meet a literal on its working stack again after it was
  processed; `Tarjan.PopInv` shows that this second visit does no harm.

`dafny verify dfyconfig.toml` checks the whole project.

## Model

| member | source | states |
|---|---|---|
| `Objective.SetWeight` | `lib/EvalMaxSAT/src/utile.h:14-51` | after writing, the signed weight read at the literal is the one written, and no other variable changes |
| `Engine.RefileOk` | `lib/EvalMaxSAT/src/EvalMaxSAT.h:544-568` | moving a literal between weights keeps the index exact: it holds a literal under w if and only if its signed weight is w > 0 |
| `Definitions.LeastExtension` | `lib/EvalMaxSAT/src/EvalMaxSAT.h:456-478` | the encodings force auxiliary variables in one direction only; still every weighted literal that is true in a model is true in the canonical extension of its inputs |
| `Definitions.ExtendRespects` | `lib/EvalMaxSAT/src/EvalMaxSAT.h:456-478` | every input assignment has a canonical extension in which each auxiliary variable has exactly the value it stands for |
| `Objective.ExcessStep` | `lib/EvalMaxSAT/src/EvalMaxSAT.h:1190-1216` | what a counter owes beyond output k is its next output plus what it owes beyond that: the tail of counters not asked yet |
| `Steps.CoreStep` | `lib/EvalMaxSAT/src/EvalMaxSAT.h:544-575` | taking the smallest weight off every literal of a core and adding it to the lower bound, with the counter of the core pending, keeps the objective of every canonical model |
| `Steps.CounterStep` | `lib/EvalMaxSAT/src/EvalMaxSAT.h:628-643` | building the counter of a pending core and making its first output soft pays exactly what the pending core stood for |
| `Steps.TrivialCounterStep` | `lib/EvalMaxSAT/src/EvalMaxSAT.h:628-643` | a pending core of one literal needs no counter and owes nothing |
| `Steps.UnqueueStep` | `lib/EvalMaxSAT/src/EvalMaxSAT.h:592-603` | taking a literal off the relax queue and asking for its successor changes no value |
| `Steps.CliqueStep` | `lib/EvalMaxSAT/src/EvalMaxSAT.h:975-1030` | of pairwise incompatible soft literals all but one are paid and the last one is left to a new literal "one of them": every canonical model keeps its value |
| `Steps.AtMostOneTrue` | `lib/EvalMaxSAT/src/EvalMaxSAT.h:975-1030` | of pairwise incompatible literals a model makes at most one true |
| `Steps.HardenStep` | `lib/EvalMaxSAT/src/EvalMaxSAT.h:271-288` | a soft literal that becomes hard loses its weight and nothing else changes on the models that are left |
| `Steps.FalsifyStep` | `lib/EvalMaxSAT/src/EvalMaxSAT.h:271-288` | a soft literal that must be false is paid for and its successor takes over |
| `Steps.StepKeepsInv` | `lib/EvalMaxSAT/src/EvalMaxSAT.h:363-710` | over whole runs: every step keeps the identity between original cost and lower bound + falsified weights + pending cores + tails of live counters on canonical models |
| `Steps.StepSlack` | `lib/EvalMaxSAT/src/EvalMaxSAT.h:363-710` | no step adds to what is left to pay, and one that raises the lower bound uses some of it up, so cores run out |
| `Optimality.LowerBound` | `lib/EvalMaxSAT/src/EvalMaxSAT.h:544-579` | whoever is cheaper than the cut-off that literals were hardened against costs at least the lower bound |
| `Optimality.NeverAboveOptimum` | `lib/EvalMaxSAT/src/EvalMaxSAT.h:544-575` | as long as nothing was hardened the lower bound exceeds the cost of no solution, whatever solution is known already |
| `MaxSat.EvalMaxSat.RunningBound` | `lib/EvalMaxSAT/src/EvalMaxSAT.h:363-710` | at every point of a run: until something is hardened the lower bound is at most the cost of every solution; after that the upper bound is at most the cut-off |
| `Optimality.BoundsMeet` | `lib/EvalMaxSAT/src/EvalMaxSAT.h:576-579` | when the lower bound reaches the upper bound, the solution found is optimal |
| `Optimality.ClausesUnsat` | `lib/EvalMaxSAT/src/EvalMaxSAT.h:491-495` | when the clauses become unsatisfiable, the solution found is optimal, or the problem has none |
| `Optimality.ModelOptimal` | `lib/EvalMaxSAT/src/EvalMaxSAT.h:456-478` | a model of all soft literals with nothing pending has the lower bound as its cost and is optimal, although the clauses fix auxiliary variables in one direction only |
| `Optimality.HardenAdmissible` | `lib/EvalMaxSAT/src/EvalMaxSAT.h:715-754` | a literal as heavy as the gap between the bounds may be made hard: whoever is cheaper than the upper bound satisfies it |
| `Optimality.ModelUpperBound` | `lib/EvalMaxSAT/src/EvalMaxSAT.h:604-626` | the cost of a later model under the weights of an earlier state whose counters are exhausted is at least its original cost |
| `MaxSat.EvalMaxSat.Relax` | `lib/EvalMaxSAT/src/EvalMaxSAT.h:1190-1216` | the counter output that lost its weight is replaced by the next output, with a fresh variable and the weight the counter was created with, or by nothing when the counter counts no further; values stay |
| `MaxSat.EvalMaxSat.AddHard` | `lib/EvalMaxSAT/src/EvalMaxSAT.h:271-288` | an internal hard clause that all cheaper assignments satisfy is added; a unit over a weighted literal hardens or falsifies it, leaves it without weight and touches no other weight; a falsified one raises the lower bound |
| `MaxSat.EvalMaxSat.ProcessAtMostOne` | `lib/EvalMaxSAT/src/EvalMaxSAT.h:975-1030` | keeps the cost of every canonical model, raises the lower bound, terminates because the clause shrinks each round, returns no more assumptions than it was given, all soft and of the clique or new, and touches no other weight |
| `MaxSat.EvalMaxSat.LowerAll` | `lib/EvalMaxSAT/src/EvalMaxSAT.h:990-1015` | the in-place loop takes d off every literal and leaves a strictly shorter clause of the literals that still have weight |
| `MaxSat.EvalMaxSat.HandleCore` | `lib/EvalMaxSAT/src/EvalMaxSAT.h:544-575` | raises the lower bound by exactly the smallest weight of the core, takes it off every literal of the core and nothing else, queues the negated core, keeps all values, and keeps the assumptions equal to the literals of weight at least the stratum |
| `MaxSat.EvalMaxSat.BuildCounter` | `lib/EvalMaxSAT/src/EvalMaxSAT.h:628-643` | a core of at least two literals, and no other, gets a counter over exactly its literals, whose output 1 becomes soft with the weight of the core |
| `MaxSat.EvalMaxSat.RelaxQueue` | `lib/EvalMaxSAT/src/EvalMaxSAT.h:592-603` | empties the relax queue; values stay and the assumptions still agree with the weights |
| `MaxSat.EvalMaxSat.BuildCounters` | `lib/EvalMaxSAT/src/EvalMaxSAT.h:628-643` | builds the counters of all pending cores; values stay and the assumptions still agree with the weights |
| `MaxSat.EvalMaxSat.Harden` | `lib/EvalMaxSAT/src/EvalMaxSAT.h:715-754` | makes hard every literal as heavy as the gap: none is left soft unless the mode is incremental, no solution is known, the bounds crossed or 1 is the only weight; the invariant of the run and the lower bound stay, and the cut-off moves only if something was hardened |
| `Conflicts.CliqueIncompatible` | `lib/EvalMaxSAT/src/EvalMaxSAT.h:867-942` | the literals at a clique of the graph built from propagation are distinct, soft and pairwise incompatible |
| `Conflicts.LinkAll` | `lib/EvalMaxSAT/src/EvalMaxSAT.h:872-886` | exactly the vertices in use whose literal the propagation falsified are joined to the vertex |
| `Conflicts.ReadyLinked` | `lib/EvalMaxSAT/src/EvalMaxSAT.h:872-886` | joining a soft literal to what its propagation falsifies adds only edges between soft literals in conflict, although vertices of paid literals stay in use |
| `Conflicts.ReadyDrop` | `lib/EvalMaxSAT/src/EvalMaxSAT.h:886-898` | overwriting a vertex by the last one leaves a graph of the remaining literals |
| `Conflicts.WaitingStart` | `lib/EvalMaxSAT/src/EvalMaxSAT.h:942-965` | what comes out of a contraction is soft, at no vertex in use, and has a free vertex of the clique |
| `MaxSat.EvalMaxSat.BuildNet` | `lib/EvalMaxSAT/src/EvalMaxSAT.h:839-899` | every edge joins soft literals in conflict; literals whose propagation fails are paid for and leave the graph; the invariant of the run stays |
| `MaxSat.EvalMaxSat.ContractVertices` | `lib/EvalMaxSAT/src/EvalMaxSAT.h:926-966` | a clique that the search found is contracted, the lower bound rises, and the graph with the returned literals at its vertices again has only edges between soft literals in conflict |
| `MaxSat.EvalMaxSat.AdaptExact` | `lib/EvalMaxSAT/src/EvalMaxSAT.h:839-972` | feeds the cliques of the branch-and-bound search to the contraction, keeps the invariant of the run, terminates because each clique raises the lower bound, and leaves a graph without a clique of more than two vertices unless the last search hit its step limit, which needs as many extendable cliques |
| `MaxSat.EvalMaxSat.AdaptFast` | `lib/EvalMaxSAT/src/EvalMaxSAT.h:1087-1139` | each soft literal with the soft literals its propagation excludes is reduced to a clique and contracted; the invariant stays and the growing number of variables does not keep the loop from ending |
| `MaxSat.EvalMaxSat.AdaptVeryFast` | `lib/EvalMaxSAT/src/EvalMaxSAT.h:1053-1085` | contracting a literal with one excluded literal after the other keeps the invariant and ends; if nothing was found no weight changed |
| `MaxSat.EvalMaxSat.InitAssum` | `lib/EvalMaxSAT/src/EvalMaxSAT.h:341-352` | the assumptions are exactly the literals of weight at least the stratum |
| `MaxSat.EvalMaxSat.ChooseNextMinWeight` | `lib/EvalMaxSAT/src/EvalMaxSAT.h:1218-1268` | the next stratum is smaller until it is 1; the invariant stays while empty entries leave the index |
| `MaxSat.EvalMaxSat.NewVar` | `lib/EvalMaxSAT/src/EvalMaxSAT.h:244-253` | a new input variable keeps the invariant |
| `MaxSat.EvalMaxSat.AddHardClause` | `lib/EvalMaxSAT/src/EvalMaxSAT.h:271-288` | a user clause joins the hard clauses of the problem and keeps the invariant and the input variables |
| `MaxSat.EvalMaxSat.AddWeight` | `lib/EvalMaxSAT/src/EvalMaxSAT.h:1145-1185` | a weight on an input literal adds a unit soft clause to the problem; opposite weights cancel into the lower bound |
| `MaxSat.EvalMaxSat.AddSoftClause` | `lib/EvalMaxSAT/src/EvalMaxSAT.h:289-324` | a soft clause of any length joins the problem, through a relaxing soft variable if it is longer than one literal |
| `MaxSat.EvalMaxSat.Resume` | `lib/EvalMaxSAT/src/EvalMaxSAT.h:369-386` | what an earlier run left queued is relaxed or gets its counter; the invariant and the problem stay, and exhausted counters stay exhausted |
| `MaxSat.EvalMaxSat.Solve` | `lib/EvalMaxSAT/src/EvalMaxSAT.h:363-710` | terminates; true comes with a solution of minimum original cost, false means that the hard clauses have no model; if nothing was hardened the final lower bound is at most the cost of every solution |
| `MaxSat.SolveProblem` | `lib/EvalMaxSAT/src/EvalMaxSAT.h:363-710` | from variables and clauses to an answer: true with an optimal solution of exactly these hard and soft clauses, false if they have none |
| `Incremental.SolveSession` | `lib/EvalMaxSAT/src/EvalMaxSAT.h:289-386` | incremental mode, with the upper bound strategy as long as the counters of earlier calls are exhausted: each of any number of solves is right about all clauses entered so far |
| `Incremental.UpperBoundTooLow` | `lib/EvalMaxSAT/src/EvalMaxSAT.h:424-441` | for every n above 2 the operations of the class lead to a state of an incremental session, with a counter that has outputs to come, where a model is priced at no more than 2 although every solution costs n |
| `Incremental.HardenedTooFar` | `lib/EvalMaxSAT/src/EvalMaxSAT.h:715-754` | outside incremental mode, hardening against a solution and a later hard clause leave clauses without a model although the problem has a solution |
| `Cores.OneMinimize` | `lib/EvalMaxSAT/src/EvalMaxSAT.h:757-828` | returns a subset that is still a core, and a subset-minimal one whenever no answer was unknown and the clock did not run out |
| `Cores.DeleteAt` | `lib/EvalMaxSAT/src/EvalMaxSAT.h:795-820` | overwriting a deleted literal by the last one keeps the literals already shown to be needed needed |
| `Cores.ReduceClique` | `lib/EvalMaxSAT/src/EvalMaxSAT.h:1032-1051` | what is left is pairwise incompatible and keeps the first literal; with conclusive answers every literal dropped is compatible with one that is kept |
| `LocalOptimizer.CalculateCost` | `lib/EvalMaxSAT/src/EvalMaxSAT.h:36-52` | the computed cost and what the state of the saved weights owes beyond them add up to the value of the assignment in that state |
| `Objective.OwedExact` | `lib/EvalMaxSAT/src/EvalMaxSAT.h:36-52` | with positive weights and consistent leaves the weights price every assignment as the state does if and only if every live counter is at its last output and every pending core is a single literal |
| `Optimality.SavedWeightsExact` | `lib/EvalMaxSAT/src/EvalMaxSAT.h:424-441` | the same if-and-only-if in every state of a run |
| `LocalOptimizer.Optimize` | `lib/EvalMaxSAT/src/EvalMaxSAT.h:54-96` | returns a model of the current clauses with its value, which is at most that of the model it started from; with conclusive answers no model satisfies one more soft literal besides those it satisfies |
| `LocalOptimizer.NothingMore` | `lib/EvalMaxSAT/src/EvalMaxSAT.h:54-96` | when every soft literal was satisfied or refused together with those satisfied, nothing can be added to the ones the last model satisfies |
| `Totalizer.UnaryAddition` | `lib/EvalMaxSAT/src/cardincremental.h:194-241` | with the implicants of both loops, output k of a node holds if and only if more than k of its leaves are true |
| `Totalizer.ImplicantSound` | `lib/EvalMaxSAT/src/cardincremental.h:194-241` | no implicant overshoots: if it holds, more than k leaves are true |
| `Totalizer.ImplicantComplete` | `lib/EvalMaxSAT/src/cardincremental.h:194-241` | every sum above k is witnessed by one of the implicants |
| `Totalizer.Implicants` | `lib/EvalMaxSAT/src/cardincremental.h:194-241` | the loops with their truncated bounds produce, for each new output, exactly implicants of it and all that unary addition needs |
| `Totalizer.LazyStore.Get` | `lib/EvalMaxSAT/src/lazyvariable.h:41-78` | emits the clauses of an output and of what it needs on first use; afterwards the output is forced by its meaning in every model and equals it in the canonical extension |
| `Totalizer.LazyStore.Build` | `lib/EvalMaxSAT/src/cardincremental.h:73-114` | the queue builds a tree over exactly the given literals with outputs up to the bound |
| `Totalizer.LazyStore.Increase` | `lib/EvalMaxSAT/src/cardincremental.h:181-217` | enlarging a subtree adds outputs and their implicants only; outputs that exist stay as they are |
| `Totalizer.LazyStore.AtMost` | `lib/EvalMaxSAT/src/cardincremental.h:162-176` | for every sequence of calls: nothing if k is no bound, else a literal that in every model of the clauses implies "at most k" and in the canonical extension equals it |
| `Clique.ColouringBound` | `lib/EvalMaxSAT/src/mcqd.h:136-163` | d independent classes hold no clique of more than d vertices |
| `Clique.Maxclique.ColorSort` | `lib/EvalMaxSAT/src/mcqd.h:136-163` | permutes the candidates in place, and every degree that the search will read bounds the cliques among the vertices up to there; the rest is marked by one degree 0 |
| `Clique.ColourDegrees` | `lib/EvalMaxSAT/src/mcqd.h:136-163` | colours written as degrees are bounds, and what was left in front cannot beat the best clique |
| `Clique.Cut1` | `lib/EvalMaxSAT/src/mcqd.h:124-129` | answers whether a class holds a neighbour |
| `Clique.Maxclique.Cut2` | `lib/EvalMaxSAT/src/mcqd.h:130-135` | the candidates before the last one that are joined to it, in order |
| `Clique.Maxclique.SetDegrees` | `lib/EvalMaxSAT/src/mcqd.h:68-75` | each degree counts the neighbours among the candidates |
| `Clique.Maxclique.InitColors` | `lib/EvalMaxSAT/src/mcqd.h:61-67` | the start degrees bound the cliques in every prefix |
| `Clique.DegreeBound` | `lib/EvalMaxSAT/src/mcqd.h:61-67` | a clique has at most one vertex more than the largest degree |
| `Clique.StopSound` | `lib/EvalMaxSAT/src/mcqd.h:164-187` | when the test on the last candidate stops the loop, no clique among the remaining candidates beats the best one |
| `Clique.StopMark` | `lib/EvalMaxSAT/src/mcqd.h:164-187` | the loop never gets past the stop mark, so degrees before it are never read |
| `Clique.SearchedStep` | `lib/EvalMaxSAT/src/mcqd.h:164-187` | cliques through the last candidate lie among its neighbours, the others among the rest |
| `Clique.Maxclique.Expand` | `lib/EvalMaxSAT/src/mcqd.h:164-219` | restores Q, keeps the best clique a clique that never shrinks, and unless the step limit broke a loop beats every clique that enlarges Q by candidates; it takes at most one step for each clique that extends Q by candidates and can be extended further |
| `Clique.StepsSplit` | `lib/EvalMaxSAT/src/mcqd.h:164-187` | the extendable cliques among the candidates split into those with the last candidate, which lie among its neighbours, and those without |
| `Clique.SpanSplit` | `lib/EvalMaxSAT/src/mcqd.h:164-187` | the branches of the search count disjoint sets of cliques |
| `Clique.Maxclique.Mcq` | `lib/EvalMaxSAT/src/mcqd.h:220-238` | returns a clique of the graph, which is a maximum one unless the step limit was hit; the steps are at most as many as the cliques that can be extended by a vertex, so a limit that allows this number always gives a maximum clique |
| `HashTable.Tautological` | `lib/cadical/src/checker.cpp:252-269` | true if and only if the clause has complementary literals or a true one; otherwise the sorted literals without duplicates |
| `HashTable.SortedUnique` | `lib/cadical/src/checker.cpp:252-269` | a set of literals has one strictly sorted sequence, so equal clauses get equal hashes |
| `HashTable.Bucket` | `lib/cadical/src/checker.cpp:271-282` | the reduced hash, masked bit by bit, is smaller than the table |
| `HashTable.MaskRemainder` | `lib/cadical/src/checker.cpp:279-279` | for a power of two masking with the size less one is the remainder |
| `HashTable.ReduceEnds` | `lib/cadical/src/checker.cpp:273-278` | the loop ends for a table size if and only if it is not 0 |
| `HashTable.Enlarge` | `lib/cadical/src/checker.cpp:82-101` | every clause is in its chain of a table of twice the size, which is again a power of two |
| `HashTable.Find` | `lib/cadical/src/checker.cpp:295-314` | finds a clause if and only if a live one has the same set of literals |
| `Checker.Checker.StoredTable` | `lib/cadical/src/checker.cpp:82-101` | as soon as a clause is stored the size of the table is a power of two |
| `Checker.SameStoreTable` | `lib/cadical/src/checker.cpp:364-413` | reordering literals through watches leaves hashes, chains and live clauses in agreement |
| `Checker.PickWatches` | `lib/cadical/src/checker.cpp:37-68` | a permutation with two literals in front that are not false |
| `Watching.Quiescent` | `lib/cadical/src/checker.cpp:364-413` | once everything is propagated no live clause is falsified, and a live clause with one literal left has it true |
| `Watching.NoNaiveConflict` | `lib/cadical/src/checker.cpp:364-413` | when watched propagation ends without a conflict, naive unit propagation over the live clauses has none in any number of rounds |
| `Watching.MovedStructure` | `lib/cadical/src/checker.cpp:386-408` | replacing a false watch by a literal that is not false keeps lists and invariants |
| `Checker.Checker.Propagate` | `lib/cadical/src/checker.cpp:364-413` | on success everything assigned was propagated and the watch invariant holds; every assigned literal follows from original clauses and assumptions; on failure these contradict each other, although garbage binary clauses may take part |
| `Checker.Checker.Backtrack` | `lib/cadical/src/checker.cpp:342-356` | the trail and the values are those of the root level again |
| `Checker.Checker.Check` | `lib/cadical/src/checker.cpp:415-424` | accepts only clauses that follow, rejects only clauses that naive unit propagation over the live clauses does not confirm, and leaves trail, values and watch invariant as they were |
| `Checker.Checker.InsertClause` | `lib/cadical/src/checker.cpp:316-323` | the clause is stored live with its literals, watched and filed, and the table is not empty |
| `Checker.Checker.AddClause` | `lib/cadical/src/checker.cpp:428-457` | with two literals that are not false exactly this clause joins the live ones; with one, that literal becomes true or the checker inconsistent; with none it becomes inconsistent |
| `Checker.Checker.AddOriginalClause` | `lib/cadical/src/checker.cpp:459-472` | unless inconsistent or trivial the clause is taken in as by `AddClause`, and it counts among the clauses added and not deleted, which stay on record |
| `Checker.Checker.AddDerivedClause` | `lib/cadical/src/checker.cpp:474-494` | an accepted clause follows from the original clauses and is taken in as by `AddClause`; a rejected one is not confirmed by naive propagation over all clauses added and not deleted, and changes nothing on record |
| `Records.CoversTaken` | `lib/cadical/src/checker.cpp:428-457` | with a clause taken in, the record still covers all clauses added and not deleted, but for those that say nothing any more |
| `Records.RecordRest` | `lib/cadical/src/checker.cpp:415-424` | when propagation over the record stops without a conflict, naive propagation over any of the clauses added and not deleted finds none either |
| `Checker.Checker.CollectGarbage` | `lib/cadical/src/checker.cpp:116-157` | exactly the clauses satisfied on the root level go, every other one stays where it was, and all invariants hold |
| `Checker.Checker.DeleteClause` | `lib/cadical/src/checker.cpp:498-531` | succeeds if and only if a live clause with the same set of literals exists; exactly one such clause goes with it, besides clauses satisfied on the root level; a clause that was added and not deleted is always found |
| `Checker.RunProof` | `lib/cadical/src/checker.cpp:459-531` | over any sequence of additions and deletions: every accepted clause follows from the original clauses before it, and the checker only ends at a derived clause that naive propagation over the clauses added and not deleted does not confirm, or at the deletion of a clause that is not among them |
| `Extension.External.Extend` | `lib/cadical/src/extend.cpp:94-157` | the variables that have an internal literal take its value, and the backward scan over the flat stack then computes the repair entry by entry |
| `Extension.PutAllTrue` | `lib/cadical/src/extend.cpp:121-151` | a consistent witness is made true as a whole and nothing else changes |
| `Extension.External.PushClauseAndWitness` | `lib/cadical/src/extend.cpp:65-80` | appends one entry to the flat stack |
| `Extension.External.PushClause` | `lib/cadical/src/extend.cpp:46-50` | appends the clause with one witness literal |
| `Extension.External.PushBinaryClause` | `lib/cadical/src/extend.cpp:52-61` | appends the binary clause with its first literal as witness |
| `Extension.External.TraverseBackward` | `lib/cadical/src/extend.cpp:161-180` | visits the entries last to first, with literals in the order they were pushed |
| `Extension.External.TraverseForward` | `lib/cadical/src/extend.cpp:182-204` | visits the entries first to last, although the separator before the next entry is read with the clause |
| `Extension.WeakenStep` | `lib/cadical/src/extend.cpp:94-157` | a redundant clause may move to the stack: models of what is left still extend to models of the original formula |
| `Extension.RunSound` | `lib/cadical/src/extend.cpp:94-157` | over every run of rewritings and weakenings: the original formula implies the simplified one, and every model of the simplified one extends to a model of the original |
| `Elim.FirstAntecedent` | `lib/cadical/src/elim.cpp:253-262` | satisfied if and only if another literal is true; otherwise the unassigned literals and their number |
| `Elim.SecondAntecedent` | `lib/cadical/src/elim.cpp:276-284` | finds a satisfied or tautological pair, or the merged literals and the number of literals of the second clause |
| `Elim.MergedMeaning` | `lib/cadical/src/elim.cpp:232-365` | under the units the merged literals say what the resolvent says |
| `Elim.SizeTests` | `lib/cadical/src/elim.cpp:324-362` | the two size comparisons find out which antecedent the resolvent subsumes |
| `Elim.Eliminator.OnTheFly` | `lib/cadical/src/elim.cpp:179-198` | the clause without the pivot and false literals replaces the clause |
| `Elim.Eliminator.ElimPropagate` | `lib/cadical/src/elim.cpp:125-168` | unit propagation terminates, leaves an equivalent formula and drops only satisfied clauses |
| `Elim.Eliminator.ResolveClauses` | `lib/cadical/src/elim.cpp:232-365` | leaves an equivalent formula; if it reports no resolvent, the resolvent holds wherever the clauses without the pivot hold, or one antecedent is garbage |
| `Elim.Eliminator.ResolventsAreBounded` | `lib/cadical/src/elim.cpp:376-439` | only rewrites the formula; on success all resolvents on the pivot hold wherever the clauses without it hold, save for at most as many as the bound allows; a failure means a conflict, a value for the pivot, one resolvent of live clauses above the size limit, or more pairs with a proper resolvent than the bound allows |
| `Elim.LaterProper` | `lib/cadical/src/elim.cpp:232-365` | rewriting during the resolution makes no pair of clauses resolvable that was not, and no resolvent longer |
| `Elim.Eliminator.AddResolvents` | `lib/cadical/src/elim.cpp:444-480` | afterwards every resolvent of two remaining clauses on the pivot holds wherever the clauses without the pivot hold |
| `Elim.PivotRedundant` | `lib/cadical/src/elim.cpp:489-536` | a clause whose resolvents on the pivot all hold is repaired by its pivot |
| `Elim.Eliminator.MarkEliminated` | `lib/cadical/src/elim.cpp:489-536` | the clauses with the pivot move to the stack, none is left, and models still extend |
| `Elim.Eliminator.TryToEliminate` | `lib/cadical/src/elim.cpp:543-587` | the new formula is implied by the old one, has no trace of an eliminated variable, and together with the stack stands for the original; an unassigned variable is eliminated only within the limits, and kept only if the other literal is in too many clauses, a resolvent is too long, there are too many of them, or the formula became unsatisfiable or the variable assigned |
| `Elim.Eliminator.ExtendModel` | `lib/cadical/src/extend.cpp:94-157` | after any sequence of eliminations, internal values that give a model of what is left are extended to a model of the original formula |
| `Block.TautologicalIff` | `lib/cadical/src/block.cpp:29-37` | complementary literals exist if and only if every assignment satisfies the resolvent |
| `Block.FindTautological` | `lib/cadical/src/block.cpp:84-124` | finds a complementary literal and moves it to the front; without one the clause is as it was |
| `Block.IsBlockedClause` | `lib/cadical/src/block.cpp:39-143` | true if and only if every resolvent on the literal is tautological; clauses keep their literals, the occurrence list is restored on success and has the first witness in front otherwise |
| `Block.ReorderedAnswer` | `lib/cadical/src/block.cpp:39-143` | the answer does not depend on how earlier tests reordered clauses and the occurrence list |
| `Block.BlockedRedundant` | `lib/cadical/src/block.cpp:29-37` | a blocked clause is repaired by its blocking literal without breaking any other clause |
| `Block.Candidates` | `lib/cadical/src/block.cpp:387-431` | leaves out only clauses that are not blocked or not within the limits |
| `Block.Impossible` | `lib/cadical/src/block.cpp:441-477` | when it finds a clause, no candidate is blocked |
| `Block.BlockLiteral` | `lib/cadical/src/block.cpp:482-575` | for pure literals and any number of negative occurrences: exactly the blocked clauses within the size limits move to the stack, as the in-place test over reordered clauses and lists decides |
| `Condition.Conditioner.Collect` | `lib/cadical/src/condition.cpp:270-372` | candidates are exactly the live clauses with a true literal; after the first pass clauses with true and false literals are watched by a true one, and exactly the literals that a clause without true literals falsifies are conditional |
| `Condition.Conditioner.Refine` | `lib/cadical/src/condition.cpp:531-675` | terminates; if an autarky literal of the candidate is left, every clause touched by the autarky is watched by a true literal and every remaining conditional literal occurs negated in the candidate; no autarky and conditional part that block the candidate lose a literal |
| `Condition.FixPoint` | `lib/cadical/src/condition.cpp:531-675` | the end of the refinement is a global blocking |
| `Condition.AdmitsStart` | `lib/cadical/src/condition.cpp:355-372` | literals that are conditional at the start are in no autarky that blocks a clause |
| `Condition.AdmitsNone` | `lib/cadical/src/condition.cpp:640-675` | when no autarky literal is left in the candidate, nothing blocks it globally |
| `Condition.BlockedRedundant` | `lib/cadical/src/condition.cpp:724-764` | flipping the autarky repairs a globally blocked clause without breaking any other clause or unit |
| `Condition.Conditioner.Reset` | `lib/cadical/src/condition.cpp:776-797` | the assignment and the partition are the initial ones again |
| `Condition.Conditioner.TryCandidate` | `lib/cadical/src/condition.cpp:457-803` | below the propagation limit the candidate goes if and only if some literals of the assignment block it globally in the formula at the start of the round; exactly one entry with the whole autarky as its witness is pushed |
| `Condition.CompleteAssignment` | `lib/cadical/src/condition.cpp:167-198` | a consistent assignment of the active variables that are not frozen, in which the literals of the search over them stay |
| `Condition.ConditionRound` | `lib/cadical/src/condition.cpp:134-830` | the formula keeps its meaning through the stack; a round that is not stopped moves exactly the clauses that are no reasons and that literals of the assignment block globally in the formula at its start, so the order of candidates does not matter; exactly these clauses are the new entries |
| `Condition.BlockedLater` | `lib/cadical/src/condition.cpp:531-675` | after a clause went another one may become globally blocked, which the round does not see: an example with four clauses |
| `Implications.ReachSkew` | `lib/cadical/src/decompose.cpp:69-75` | chains of implications can be reversed by contraposition |
| `Implications.Contradictory` | `lib/cadical/src/decompose.cpp:115-126` | a component with some complementary pair holds the negation of each of its literals, so testing one literal is enough |
| `Implications.MutualEquivalent` | `lib/cadical/src/decompose.cpp:53-184` | literals of one component are equivalent in every model |
| `Tarjan.VisitInv` | `lib/cadical/src/decompose.cpp:160-181` | numbering a literal and pushing its unvisited children keeps the invariant of the search |
| `Tarjan.PopInv` | `lib/cadical/src/decompose.cpp:61-100` | popping a traversed literal, or a stale second entry of a processed one, keeps the invariant |
| `Tarjan.FinishInv` | `lib/cadical/src/decompose.cpp:152-158` | a literal that is not the entry of its component keeps the invariant with its new minimum |
| `Tarjan.ComponentExact` | `lib/cadical/src/decompose.cpp:104-150` | what is popped at an entry is exactly its strongly connected component |
| `Tarjan.CloseInv` | `lib/cadical/src/decompose.cpp:128-150` | completing a component keeps the invariant |
| `Decompose.ScanComponent` | `lib/cadical/src/decompose.cpp:111-126` | the smallest literal of the component, or that the negation of the entry is in it |
| `Decompose.Representatives` | `lib/cadical/src/decompose.cpp:53-184` | terminates; either a literal is in one component with its negation, or every active literal gets the smallest literal of its component, frozen ones themselves, and no component is contradictory |
| `Decompose.RepIdempotent` | `lib/cadical/src/decompose.cpp:128-150` | representatives represent themselves |
| `Decompose.RepNegation` | `lib/cadical/src/decompose.cpp:128-150` | the representative of the negation is the negation of the representative |
| `Substitute.BuildGraph` | `lib/cadical/src/decompose.cpp:66-75` | the graph has exactly the edges of the live binary clauses, is skew-symmetric and sound |
| `Substitute.LeadsReach` | `lib/cadical/src/decompose.cpp:61-100` | a chain of live binary clauses leads from one literal to another if and only if the graph has a path |
| `Substitute.SubstituteLits` | `lib/cadical/src/decompose.cpp:220-246` | the rewritten clause is equivalent under units and representatives, or the clause is satisfied in all of them |
| `Substitute.SubstituteAll` | `lib/cadical/src/decompose.cpp:205-304` | the same models among assignments that respect the representatives, and only representatives are left |
| `Substitute.EquivalenceStep` | `lib/cadical/src/decompose.cpp:330-340` | two binary clauses on the stack give a substituted variable the value of its representative |
| `Substitute.DecomposeRound` | `lib/cadical/src/decompose.cpp:24-361` | a literal and its negation that live binary clauses lead to from each other make the formula unsatisfiable; otherwise every literal is replaced by the one of least variable that binary clauses lead to both ways, a frozen one by itself, the new formula says the same wherever representatives agree, and every model extends through the pushed equivalences |
| `Analyze.AnalyzeReason` | `lib/cadical/src/analyze.cpp:225-254` | each literal of the reason is dropped, put into the clause or counted as open, and what the clause and the open literals say still follows |
| `Analyze.FirstUip` | `lib/cadical/src/analyze.cpp:693-716` | terminates with a clause that follows from the formula and has exactly one literal on the conflict level: all ways through reasons from the conflict to the decision pass it, every later literal of that level can be avoided, and the other literals come from the conflict or from reasons of later literals |
| `Dominators.AvoidBetween` | `lib/cadical/src/analyze.cpp:693-716` | while another literal of the level is still open, some way through reasons from the conflict avoids every literal between it and the walk |
| `Analyze.FindConflictLevel` | `lib/cadical/src/analyze.cpp:413-483` | the highest level in the conflict, and its literal if and only if there is only one; the conflict is permuted in place so that two literals of the highest levels come first |
| `Analyze.Analyze` | `lib/cadical/src/analyze.cpp:607-781` | with and without chronological backtracking: either the formula is unsatisfiable, or the search is on a lower level and a clause that follows forces the last literal of the trail; it is the conflict itself with a single literal on its highest level, or the clause of the first unique implication point |
| `Minimize.CoveredHolds` | `lib/cadical/src/minimize.cpp:17-42` | a literal that the kept ones imply through reasons holds in every model in which they hold |
| `Minimize.AbortsExact` | `lib/cadical/src/minimize.cpp:22-27` | the early aborts give up only on literals that cannot go: without a reason, on the conflict level, alone on their level, or assigned before everything seen on it |
| `Minimize.MinimizeLiteral` | `lib/cadical/src/minimize.cpp:17-42` | the recursion with its marks and aborts answers exactly whether the kept literals imply the literal through reasons, unless the trail is longer than the depth limit; even then true is right |
| `Minimize.MinimizeClause` | `lib/cadical/src/minimize.cpp:67-84` | what is left implies what went and still follows from the formula, the literal of the conflict level stays, and unless the trail is longer than the depth limit no literal left is implied by the others through reasons |
| `Trail.Internal.Backtrack` | `lib/cadical/src/backtrack.cpp:72-123` | keeps exactly the literals up to the new level, in their order, and the trail invariant |
| `Trail.BacktrackedOk` | `lib/cadical/src/backtrack.cpp:72-123` | reasons still precede their literals on a compacted trail that was out of order |
| `Trail.Internal.SearchAssign` | `lib/cadical/src/propagate.cpp:49-92` | the literal gets the highest level of its reason, or the current level without chronological backtracking; on level 0 no reason; the trail invariant stays |
| `Trail.Internal.AssumeDecision` | `lib/cadical/src/propagate.cpp:110-117` | a decision opens a level and keeps the trail invariant |
| `Trail.Internal.Decide` | `lib/cadical/src/decide.cpp:93-143` | assumptions are decided in order; it fails if and only if the next assumption is falsified, or all are decided and every literal of the constraint is |
| `Failing.FindFailed` | `lib/cadical/src/assume.cpp:43-75` | a falsified assumption: on the root level, else a decision against it, else one of lowest level |
| `Failing.Search` | `lib/cadical/src/assume.cpp:131-160` | exactly the decisions reached through reasons, which are assumptions and with the formula imply the literals the search started from |
| `Failing.BlamedExact` | `lib/cadical/src/assume.cpp:131-160` | once every literal seen is explained, what failed are exactly the decisions that chains of reasons lead back to |
| `Failing.FailingAssumptions` | `lib/cadical/src/assume.cpp:25-160` | names the culprit; the failed literals are exactly the culprit alone if it is false on the root level, the culprit with its clashing partner, or the culprit and the decisions its reasons lead back to; they are assumptions and contradict the formula |
| `Failing.FailingConstraint` | `lib/cadical/src/assume.cpp:120-160` | the failed literals are exactly the decisions that falsify the constraint through reasons; they are assumptions and contradict the formula with the constraint |

## Left out

- Negative soft weights and `newSoftVar` with a negative weight: the offset they need is unfinished in the source.
- MaxSat.EvalMaxSat.Solve: a call after literals were hardened, and a call with the upper bound strategy on while counters have outputs to come, promise nothing; `Incremental.HardenedTooFar` and `Incremental.UpperBoundTooLow` show that there the code can be wrong.
- MaxSat.EvalMaxSat.AddHardClause: clauses over auxiliary variables are left out; the problem is over input variables.
- MaxSat.EvalMaxSat.AddWeight: takes positive weights on input variables.
- MaxSat.EvalMaxSat.AddSoftClause: takes clauses over input variables and weights that are not negative.
- 64-bit overflow of weights and costs: weights are natural numbers.
- `CardIncremental_Lazy::add`: nothing in the solver calls it.
- The order in which `reduceCliqueV2` sorts literals by weight and the order of propagated literals: sets are taken in any order.
- Shared pointers: counters and their nodes are an arena with indices; aliasing of two counters is not modelled.
- Vectors indexed by variable (`_poids`, `_mapAssum2Card`, marks, values) are maps and sets with a default.
- Statistics, logging, proof output, scores, phases and all scheduling heaps.
- Elim.Eliminator.TryToEliminate: gate detection and substitution, and the backward subsumption afterwards, are left out; occurrence lists have an arbitrary order instead of sorting by size.
- Analyze.Analyze: shrinking, glue and bumping are left out; the choice between the jump level and a chronological level is free.
- Analyze.FindConflictLevel: moves literals to the front, but not their watches; the watches of the search engine and its `propagate` are left out, the checker's propagation is modelled instead.
- Redundant clauses and restoring weakened clauses for new ones; clauses and stack use one set of variables, and only `extend` maps internal literals to external ones.
- Substitute.DecomposeRound: unit propagation at its end, redundant clauses and the flags of substituted variables are left out.
- Condition.ConditionRound: the phases of the decisions and the clauses that are reasons are parameters, the order of candidates is that of the clauses, and the early end without autarky literals is a free choice.
- Block.BlockLiteral: occurrence lists are filtered as values, while the moves of literals and clauses to the front are modelled in place on copies of the clauses; the case of one negative clause uses the general test instead of marking that clause.
- Memory of clauses: deleted clauses of the checker stay in the store as garbage; `enlarge_vars` and the counters of garbage are not modelled, and when `collect_garbage_clauses` is called is a free choice.
- Command line, files, parsing, and the interfaces to other SAT solvers.
- Block.FindTautological: the literal 0 that the source uses as a placeholder while it moves literals is an arbitrary literal, which is never left behind.
- Checker.Checker.AddDerivedClause: the program ends when a check fails; the model returns false and records nothing.
