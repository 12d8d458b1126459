# EPS on Gecode: a Dafny model of the decomposition and merge core

eps-gecode solves FlatZinc models with Embarrassingly Parallel Search (EPS).
A master searches the problem to a bounded depth and records the values of the
decision variables at each open leaf as table tuples. It then cuts the tuples
into groups of near-equal size, one group per subproblem. Workers claim the
subproblems one at a time, solve each with Gecode, and merge their solutions
into a shared best. In grid mode the subproblems are instead written to files
(`v`, `t`, `ub`, `lb` lines). A later run reads one such file back, and the
runs share the best objective through a small file on disk.

The model is written in Dafny. It has one module per component:

- `Decompose`: the depth selection for one pass.
  - The branch-and-bound loop and the depth-first loop are both modelled, including the source's unsigned 32-bit product.
  - The flat index of a decision variable (Booleans first, then integers).
  - The classification of a pass into exhausted, grouped, all-leaves or continue.
  - The near-equal grouping of the tuples, and the per-worker quota.
  - The two-iteration RDFS schedule.
  - `DecomposeBab`: the whole decomposition loop.
- `Leaves`: how one pass handles its open leaves.
  - The test that a leaf is a solution.
  - The re-filtering of the queued leaves after a new best (pop to a temporary stack, push back).
  - Recording the tuples, and the depth-first "collapse last level" tuples.
- `Engine`: the two bounded engines as classes, `BoundedDFS` and `BoundedBAB`.
  - They explore an abstract search tree (`Fail | Solve(obj) | Branch(kids)`) with an explicit path of frames and the clone-distance counter.
  - BAB also keeps the best solution and its mark.
- `Cursors`: how workers claim work, for the decomposition and for the resolution.
  - The batch and tuple bookkeeping of `EPS_BAB::Worker::find`.
  - The choice of sequential or parallel decomposition.
- `Merge`: how EPS_BAB merges the solutions of its workers.
  - `EPS_BAB::solution` as a class over a shared best and the solution queue.
  - `notifyBestSolution` over an objective file, modelled both as an integer cell and as the raw bytes that are written.
- `Objective`: the `ub`/`lb` bounds for an objective, by method.
- `Text`: integer printing, `>>` extraction of integers and words, `atoi`, and the `getline` loop.
- `SubproblemFile`:
  - `getBaseName`.
  - The grid writer of the subproblem files.
  - `readSubProblem`, as a fold over lines producing the constraints it posts.
  - The round trip between the writer and the reader.
- `FlatZinc`:
  - The Boolean bounds `vs2bsl`/`vs2bsh`, and `flattenAnnotations`.
  - The classification of variables, the auxiliary-variable count, and `sortVariables` with the remapping of the objective index.
  - `constrain`, and the solution loop of `runMeta` with its transcript and status word.
  - The aggregation of per-subproblem times.
- `SteelMill`: the loss table, instance parsing, and the weight order of orders. Also the custom brancher's `status`, `choice` and `commit`.

Gecode itself is abstract here. A space is a tuple of domains, or a tree node. Propagation is a parameter.

## Model

| member | source | states |
|---|---|---|
| Decompose.FlatVar | src/eps_bab.cpp:1703-1707 | flat index i names a Boolean variable exactly when i < number of Booleans, and maps back to i |
| Decompose.FlatVarOfIndex | src/main.cpp:625-634 | the flat index of a variable reference decodes back to that reference |
| Decompose.RecordPrefix | src/eps_bab.cpp:1701-1708 | the Boolean part holds the first min(level, #bool) values and the integer part the rest, level values in all, each the variable's value |
| Decompose.LevelSelectBab | src/eps_bab.cpp:1504-1520 | the branch-and-bound depth loop computes exactly LevelBab, with the 32-bit unsigned product |
| Decompose.LevelBabBounds | src/eps_bab.cpp:1504-1520 | the loop always adds at least one variable when one is left; when it stops early, the wrapped test product exceeds P |
| Decompose.LevelBabExactFirstOver | src/eps_bab.cpp:1504-1520 | with exact arithmetic the level is the first depth whose test product exceeds P, and no earlier depth exceeded it |
| Decompose.LevelBabWrapsAround | src/eps_bab.cpp:1510-1511 | sizes [65536, 65536, 2], P = 30: the wrapped product sends the level to 3 (all variables) where exact arithmetic stops at 1 |
| Decompose.LevelSelectDfs | src/eps_dfs.cpp:1000-1016 | the depth-first depth loop computes exactly LevelDfs |
| Decompose.LevelDfsBounds | src/eps_dfs.cpp:1000-1016 | the product stays at most P, and an early stop means the next variable would push the wrapped product over P |
| Decompose.LevelDfsMayAddNothing | src/eps_dfs.cpp:1003-1004 | unlike BAB, the depth-first loop may add no variable at all (sizes [5, 2], P = 4) |
| Decompose.NearEqualSum | src/eps_bab.cpp:1804-1818 | the grouping has P groups summing to N, each of N/P or N/P + 1 tuples |
| Decompose.NearEqualEqualCount | src/eps_bab.cpp:1824-1827 | with as many tuples as groups every group holds one tuple |
| Decompose.GroupSizes | src/eps_bab.cpp:1804-1818 | the loop that decrements from the back computes exactly the near-equal grouping |
| Decompose.ClassifyBab | src/eps_bab.cpp:1785-1835 | no tuple: exhausted; at least P: P groups summing to N; fewer at full depth: one group per tuple; else deepen |
| Decompose.ClassifyDfs | src/eps_dfs.cpp:1168-1218 | same outcomes for the depth-first pass; N = P gives groups of one |
| Decompose.ClassifyAgree | src/eps_dfs.cpp:1187-1214 | the two classifications agree on every input |
| Decompose.DecomposeBab | src/eps_bab.cpp:1384-1838 | no variables iff no decomposition; at most one pass per variable; groups are non-empty, sum to the tuple count, and number P or one per tuple |
| Decompose.RdfsSchedule | src/eps_dfs.cpp:1329-1338 | the first RDFS iteration goes to max(first level, 1) capped at the variable count; the second to full depth |
| Decompose.Rdfs | src/eps_dfs.cpp:1248-1475 | with no decision variables it returns before any iteration; otherwise one or two iterations, and a second happens iff the first left leaves and did not reach full depth |
| Decompose.Quota | src/eps_bab.cpp:518-523 | the per-worker problem count is the least positive q with q * workers >= problems |
| Leaves.IsSolutionBab | src/eps_bab.cpp:1599-1616 | the leaf counts as a solution iff every integer and Boolean variable is assigned |
| Leaves.IsSolutionDfs | src/eps_dfs.cpp:1069-1084 | same test without the objective short cut |
| Leaves.Filter | src/eps_bab.cpp:1641-1654 | keeps exactly the queued leaves that survive the new bound, no more than were queued |
| Leaves.FilterConcat | src/eps_bab.cpp:1641-1654 | filtering distributes over concatenation |
| Leaves.FilterQueued | src/eps_bab.cpp:1641-1661 | the pop-then-push-back sequence leaves the queue equal to Filter, in the original order |
| Leaves.PushSurvivors | src/eps_bab.cpp:1641-1654 | the temporary stack holds the survivors in reverse order |
| Leaves.PopAll | src/eps_bab.cpp:1657-1661 | moving the stack back reverses it |
| Leaves.SurvivorsSnoc | src/eps_bab.cpp:1618-1677 | a new solution filters the queue by itself; an open leaf is appended |
| Leaves.QueuedIsSurvivors | src/eps_bab.cpp:1578-1682 | the queue built leaf by leaf equals the declarative survivors |
| Leaves.CollectLeavesBab | src/eps_bab.cpp:1578-1682 | the queue is the survivors, the best is the last complete leaf, and queued leaves are open leaves of the pass |
| Leaves.SurvivorsAreOpenLeaves | src/eps_bab.cpp:1578-1682 | every survivor is an incomplete leaf of the pass |
| Leaves.RecordPrefixSplits | src/eps_bab.cpp:1697-1717 | the two recorded tuples together are the flat prefix of the leaf |
| Leaves.RecordTuples | src/eps_bab.cpp:1689-1717 | one Boolean and/or integer tuple per queued leaf, each the matching part of its prefix; the tuple count is the queue length |
| Leaves.Range | src/eps_dfs.cpp:1112 | the values min..max in order |
| Leaves.CollapseTuples | src/eps_dfs.cpp:1094-1137 | below full depth, one tuple per value of the next variable (Boolean min..max, or each integer value); at full depth the prefix split in two |
| Engine.PathNext | src/eps_bab.cpp:176-180 | the path advances to the next alternative or reports none; the pending solutions are preserved and the measure decreases |
| Engine.AdvanceFacts | src/eps_bab.cpp:177 | moving to the next alternative keeps the pending solutions and lowers the measure |
| Engine.PopFacts | src/eps_bab.cpp:177 | popping an exhausted frame changes no pending solution |
| Engine.PushFacts | src/eps_bab.cpp:166-167 | pushing a branch and committing to its first alternative keeps the pending solutions |
| Engine.RunsBoundedPush | src/eps_bab.cpp:158-164 | the clone rule keeps every run of frames without a clone within c_d - 1 |
| Engine.RecordsImprove | src/eps_bab.cpp:121-128 | every solution BAB reports is strictly better than the previous one |
| Engine.DescendKeeps | src/eps_dfs.cpp:107-119 | going into a branch keeps the stack invariant and the frontier |
| Engine.BacktrackKeeps | src/eps_dfs.cpp:125-129 | resuming at the next alternative keeps the stack invariant and the frontier |
| Engine.BoundedDFS.constructor | src/eps_dfs.cpp:56-66 | a failed or missing root counts a fail and gives an empty engine |
| Engine.BoundedDFS.Reset | src/eps_dfs.cpp:69-79 | clears the path and distance; the frontier becomes the root's solutions |
| Engine.BoundedDFS.Next | src/eps_dfs.cpp:87-132 | returns the first pending solution and removes it, or stops with the frontier unchanged, or reports exhaustion |
| Engine.BoundedDFS.Step | src/eps_dfs.cpp:90-129 | one node of work: either finishes as Next does, or keeps the frontier and lowers the measure |
| Engine.BoundedDFS.Descend | src/eps_dfs.cpp:107-119 | the branch case of next |
| Engine.BoundedDFS.Backtrack | src/eps_dfs.cpp:125-129 | the recompute loop of next |
| Engine.BoundedBAB.constructor | src/eps_bab.cpp:104-115 | a failed or missing root counts a fail and gives an empty engine |
| Engine.BoundedBAB.Reset | src/eps_bab.cpp:192-205 | clears best, path, distance and mark; pending are the improving solutions of the new root |
| Engine.BoundedBAB.Next | src/eps_bab.cpp:119-183 | returns the next improving solution, which becomes best with the mark at the path depth, or stops, or reports exhaustion |
| Engine.BoundedBAB.Step | src/eps_bab.cpp:131-180 | one node of work, as for BoundedDFS.Step, keeping the best |
| Engine.BoundedBAB.Leaf | src/eps_bab.cpp:137-152 | a failed leaf counts a fail; a solved leaf becomes best with mark = path depth |
| Engine.BoundedBAB.Descend | src/eps_bab.cpp:153-170 | the branch case of next |
| Engine.BoundedBAB.Backtrack | src/eps_bab.cpp:176-180 | the recompute loop of next |
| Engine.BoundedBAB.AdoptBest | src/eps_bab.cpp:602-616 | Worker::better: a solution replaces the best and sets the mark; none changes nothing |
| Cursors.ChooseSetup | src/eps_bab.cpp:449-463 | parallel iff DBDFSwP with more than one thread; the master then makes one problem per thread |
| Cursors.StartsWorkers | src/eps_bab.cpp:539-543 | workers are started unless the master has no groups and no problems |
| Cursors.DecompositionCursor.Claim | src/eps_bab.cpp:786-847 | each claim is the next slice of the master's tuples, from the prefix sum of the earlier groups |
| Cursors.SlicesDisjoint | src/eps_bab.cpp:846-847 | later slices start after earlier ones end |
| Cursors.Advance | src/eps_bab.cpp:1002-1011 | a claim spans its group; reaching the batch's tuple count moves to the next batch at tuple 0 |
| Cursors.ResolutionCursor.AddBatch | src/eps_bab.cpp:494-497 | a non-empty group list is appended with its tuple count; an empty one adds nothing |
| Cursors.ResolutionCursor.Claim | src/eps_bab.cpp:924-1011 | a claim exists iff problems are left, and then follows Advance |
| Cursors.AdvanceAt | src/eps_bab.cpp:1002-1011 | within a well-formed batch list the cursor claims group k of batch b at its prefix sum |
| Cursors.TraceFrom | src/eps_bab.cpp:924-1011 | the claims from any position are the rest of that batch, then all later batches |
| Cursors.ClaimsAreBatches | src/eps_bab.cpp:924-1011 | the whole claim sequence is each batch's groups in order |
| Cursors.ClaimAt | src/eps_bab.cpp:1008 | claim k of a batch spans prefix sums k to k + 1 |
| Cursors.FindClaim | src/eps_bab.cpp:939 | every tuple below the total lies in some group's range |
| Cursors.BatchClaimsPartition | src/eps_bab.cpp:939-1011 | every tuple of a batch is claimed by exactly one subproblem |
| Merge.NotifyRule | src/eps_bab.cpp:620-676 | outside grid mode nothing happens; the file is written iff empty or improved; a worse value returns the stored one and a bound that excludes it |
| Merge.Written | src/eps_bab.cpp:620-676 | the file afterwards holds the better of the stored and new value |
| Merge.ObjectiveFile.Notify | src/eps_bab.cpp:620-676 | the return, the bound and the new file content follow NotifyRule and Written |
| Merge.Stored | src/eps_bab.cpp:627-629 | an empty read means no stored objective |
| Merge.WriteAt | src/lock.cpp:173-183 | the write replaces the bytes at the offset and keeps the rest |
| Merge.NotifyBytesAsWritten | src/eps_bab.cpp:624-666 | the decision is NotifyRule on the parsed content; no write leaves the bytes alone |
| Merge.AsWrittenAppends | src/eps_bab.cpp:627-634 | as written, an improving value is appended after the bytes read |
| Merge.AsWrittenStoresWrongValue | src/eps_bab.cpp:627-634 | "15" and the new minimum 9 give "159", which parses as 159 rather than 9 |
| Merge.NotifyBytes | src/eps_bab.cpp:620-676 | the corrected notify decides by NotifyRule |
| Merge.NotifyBytesStoresWritten | src/eps_bab.cpp:620-676 | the corrected notify leaves the file parsing to Written |
| Merge.EpsBab.constructor | src/eps_bab.cpp:428-441 | no best and an empty queue |
| Merge.EpsBab.Solution | src/eps_bab.cpp:680-772 | a better worker solution becomes best, with the bound the notify returns, is written to the objective file and is appended to the queue (queue stays improving); worse or missing makes the worker adopt best; a tie or SAT changes nothing |
| Objective.UpperBound | src/main.cpp:643-650 | none for SAT; else admits exactly the bound and the values better than it |
| Objective.LowerBound | src/main.cpp:651-658 | none for SAT; else admits exactly the bound and the values worse than it |
| Text.IntToString | src/eps_bab.cpp:633 | a minus sign iff negative, then digits |
| Text.ReadInt | src/main.cpp:624 | a successful extraction consumes at least one character |
| Text.ReadWord | src/main.cpp:578 | a word is a non-empty run of non-spaces; none iff only spaces remain |
| Text.ValueOfNatToString | src/eps_bab.cpp:633 | the digits of n read back as n |
| Text.ReadIntToString | src/main.cpp:624 | extracting a printed integer followed by a space or the end gives it back |
| Text.AtoiIntToString | src/eps_bab.cpp:629 | atoi inverts the printing |
| Text.CompleteLines | src/main.cpp:575 | the lines read hold no newline |
| Text.CompleteLinesJoin | src/main.cpp:575 | newline-terminated lines plus an unterminated tail read back as those lines |
| SubproblemFile.LastIndexOf | src/main.cpp:540 | the last position of the character, -1 iff absent |
| SubproblemFile.GetBaseName | src/main.cpp:534-547 | the result is a suffix with no separator, preceded by a separator when shorter than the path, the path itself when no separator |
| SubproblemFile.ReadSubProblem | src/main.cpp:562-694 | the line loop computes the corrected reading |
| SubproblemFile.ReadLine | src/main.cpp:575-660 | one line: `v` closes the table and declares variables, `t` adds a tuple, `ub`/`lb` post the bound |
| SubproblemFile.DeclareLine | src/main.cpp:624-636 | declaring succeeds iff every index names a variable, and then splits them into Boolean and integer |
| SubproblemFile.DeclareNoneSticks | src/main.cpp:624-636 | one bad index fails the whole declaration |
| SubproblemFile.FoldAppend | src/main.cpp:575-660 | reading two blocks of lines is reading the second from where the first left off |
| SubproblemFile.TupleBeforeVar | src/main.cpp:637-642 | a `t` line before any `v` line is the null-table error |
| SubproblemFile.FoldHookOwn | src/main.cpp:599-605 | with the corrected reading every hook constraint uses hook variables |
| SubproblemFile.CorrectedHookOwnVars | src/main.cpp:679-689 | the whole corrected reading posts hook constraints only on hook variables |
| SubproblemFile.ReadNumbers | src/main.cpp:624 | a printed list of integers reads back as that list |
| SubproblemFile.StepRow | src/main.cpp:637-642 | reading a written `t` line adds exactly that tuple |
| SubproblemFile.StepHeader | src/main.cpp:580-636 | reading a written `v` line closes the previous table and declares its variables |
| SubproblemFile.FoldTable | src/eps_bab.cpp:947-965 | reading a written table block gives its rows and variables |
| SubproblemFile.ReadGroupLines | src/eps_bab.cpp:939-999 | reading the lines of one group gives that group's constraints, for Boolean-only, integer-only and mixed groups of any arity |
| SubproblemFile.RoundTrip | src/eps_bab.cpp:939-999 | the text written for a subproblem, read by the corrected reader, posts exactly its tables, whichever of the two tables it has |
| SubproblemFile.AsWrittenHookUsesMainVars | src/main.cpp:599-601 | as written, the second table posted on the hook space uses the main space's variables |
| SubproblemFile.MidHookPost | src/main.cpp:599-601 | in a group with a Boolean and an integer table, the second post is the Boolean table's hook copy, and as written its first variable is the main space's Boolean 0 |
| SubproblemFile.FinalHookPost | src/main.cpp:679-689 | with either reader, the table still open at the end is posted last on the hook, over the hook's own copies of its declared variables and with its tuples |
| FlatZinc.BoolLow | src/flatzinc.cpp:230-240 | assigned: its value; otherwise 0 or 1, 0 iff the domain admits 0 or is absent |
| FlatZinc.BoolHigh | src/flatzinc.cpp:242-252 | assigned: its value; otherwise 0 or 1, 1 iff the domain admits 1 or is absent |
| FlatZinc.BoolBoundsExact | src/flatzinc.cpp:230-252 | for a 0/1 value, between the two bounds iff within the declared domain |
| FlatZinc.FlattenAnnotations | src/flatzinc.cpp:523-535 | appends the flattened annotations to the output |
| FlatZinc.FlatAppend | src/flatzinc.cpp:523-535 | flattening distributes over concatenation |
| FlatZinc.FlatRemovesSeqSearch | src/flatzinc.cpp:525-530 | no seq_search call survives flattening |
| FlatZinc.Classify | src/flatzinc.cpp:1106-1116 | the solution and temporary arrays are exactly the variables of those classes, scanned from the top |
| FlatZinc.CountClasses | src/flatzinc.cpp:1090-1103 | each counter is the number of variables of its class |
| FlatZinc.ClassSizes | src/flatzinc.cpp:1104 | the four classes partition the variables, so the solution array's size is right |
| FlatZinc.AmongMember | src/flatzinc.cpp:1093-1116 | membership iff in range and of that class |
| FlatZinc.AmongDescending | src/flatzinc.cpp:1106 | the scan lists variables in descending index order |
| FlatZinc.AuxCountAsWritten | src/flatzinc.cpp:1216-1223 | as written, with float variables the count is just the float count |
| FlatZinc.AsWrittenDropsAuxBrancher | src/flatzinc.cpp:1219-1225 | one auxiliary integer variable and no set/float ones: as written no auxiliary brancher is posted |
| FlatZinc.AuxCount | src/flatzinc.cpp:1216-1225 | the corrected count is positive iff some auxiliary variable exists |
| FlatZinc.SortBySorted | src/flatzinc.cpp:1384 | stable sort output is sorted by domain size |
| FlatZinc.InsertSorted | src/flatzinc.cpp:1384 | inserting into a sorted list keeps it sorted |
| FlatZinc.SortUntag | src/flatzinc.cpp:1366-1384 | sorting the indices and sorting the variables agree |
| FlatZinc.Space.SortVariables | src/flatzinc.cpp:1356-1393 | the corrected sort: integer and Boolean arrays become their stable sorts, and the objective index follows its variable (the Boolean array as written is FlatZinc.BoolsAfterSortAsWritten) |
| FlatZinc.RemapIndex | src/flatzinc.cpp:1358-1377 | the new objective index holds the old objective variable |
| FlatZinc.FirstWithId | src/flatzinc.cpp:1371-1376 | the search stops at the first matching position |
| FlatZinc.RemapOptVar | src/flatzinc.cpp:1371-1376 | the index found in the sorted indices points at the objective variable in the sorted array |
| FlatZinc.BoolsAfterSortAsWritten | src/flatzinc.cpp:1389-1393 | as written, the Boolean array is unchanged |
| FlatZinc.AsWrittenBoolsUnsorted | src/flatzinc.cpp:1389-1393 | two Booleans of sizes 2 and 1 stay unsorted as written |
| FlatZinc.Constrain | src/flatzinc.cpp:1423-1430 | MIN admits values below the solution's max, MAX values above its min, SAT nothing |
| FlatZinc.ConstrainImproves | src/flatzinc.cpp:1423-1430 | on an assigned objective the bound admits exactly the improving values |
| FlatZinc.SolutionLoop | src/flatzinc.cpp:642-692 | consumes the solutions the SAT budget allows, keeps the last objective, and prints the transcript |
| FlatZinc.SatStopsAfterSolutions | src/flatzinc.cpp:674-677 | SAT with budget k stops after k solutions |
| FlatZinc.OptimisationTakesAll | src/flatzinc.cpp:679-691 | optimisation consumes every solution and prints the last one and the terminator |
| FlatZinc.AsWrittenSolutionNotPrinted | src/flatzinc.cpp:674-677 | SAT with `-n 1` and without printing all solutions prints nothing |
| FlatZinc.TranscriptFixed | src/flatzinc.cpp:679-691 | the fixed transcript differs only on an early stop |
| FlatZinc.FixedPrintsLastSolution | src/flatzinc.cpp:679-682 | the fixed transcript always prints the last solution kept |
| FlatZinc.StatusWord | src/flatzinc.cpp:703-710 | UNSAT iff no solution |
| FlatZinc.MinOf | src/flatzinc.cpp:746 | a member no larger than any |
| FlatZinc.MaxOf | src/flatzinc.cpp:747 | a member no smaller than any |
| FlatZinc.AggregateTimes | src/flatzinc.cpp:730-764 | the sum modulo 2^32, and a minimum and maximum over all times, 0/0 when none |
| SteelMill.ComputeLoss | src/models/steelmill.h:100-106 | loss[0] = 0; for 1 <= c < maxcap, loss[c] + c is one of the capacities, and when the capacities are increasing and non-negative it is the smallest capacity at least c |
| SteelMill.MaxCapacity | src/models/steelmill.h:584-588 | the maximum scan started at -1 ends on the largest capacity, which is one of them when some capacity is non-negative |
| SteelMill.SmallestHolds | src/models/steelmill.h:103-105 | the capacity reached by the cursor is the least admissible one |
| SteelMill.SteelMillOptions.Parse | src/models/steelmill.h:570-613 | an unreadable file fails and changes nothing; otherwise capacities, colour count, orders and size are read, the maximum is the largest capacity, the loss table as above (its optimality when the capacities are increasing and non-negative), success iff orders exist |
| SteelMill.BeforeStrictTotal | src/models/steelmill.h:155-158 | the heavier-first order is a strict total order |
| SteelMill.FirstEmpty | src/models/steelmill.h:516-518 | the first slab with no load, all earlier ones loaded |
| SteelMill.SteelMillBranch.Status | src/models/steelmill.h:483-492 | alternatives remain iff an unassigned order follows start, and start moves to the first one |
| SteelMill.SteelMillBranch.Choose | src/models/steelmill.h:494-521 | picks an unassigned order of smallest domain, then largest weight, its minimum value, and two alternatives iff that value is below the first empty slab |
| SteelMill.FirstEmptyIs | src/models/steelmill.h:516-518 | characterises the first empty slab |
| SteelMill.Without | src/models/steelmill.h:535 | removing a value keeps the rest of the domain |
| SteelMill.Commit | src/models/steelmill.h:530-539 | alternative 0 assigns the value (fails iff absent), any other removes it (fails iff nothing else remains), and no other order changes |
| SteelMill.CommitSplits | src/models/steelmill.h:530-539 | each value of the domain survives in exactly one of the two alternatives |

## Left out

- Gecode: propagation, cloning, recomputation and the tuple-set internals are abstract. A space is a tuple of domains, or a node of a search tree given in advance.
- Threads, mutexes, signalling, timers, file locks and the Ctrl-C handler are left out. Each worker's `find` is modelled as one sequential step.
- I/O: files are given as strings or as the line sequence `getline` yields. Printing is a sequence of line tokens.
- Float and set variables are left out, apart from their counts in the auxiliary brancher.
- The timers that produce the per-subproblem times are not modelled. The times themselves are unbounded naturals, and only their sum wraps at 2^32.
- The model files other than the steel mill model are not modelled. The steel mill instance is a token sequence.
- The EPS_DFS constructor ends the program (`exit(0)`) after RDFS, so the model makes no end-to-end claim for EPS_DFS beyond the RDFS schedule.
- Decompose.NearEqual, Decompose.NearEqualSplit, Decompose.DivMod, Decompose.NearEqualSum, Decompose.NearEqualEqualCount, Decompose.GroupSizes, Decompose.ClassifyBab, Decompose.ClassifyDfs, Decompose.ClassifyAgree, Decompose.DecomposeBab: require at least one problem (P >= 1). P is the `nb_problems` or `threads` option, and with P = 0 the source divides by zero when it groups the tuples (src/eps_bab.cpp:1806, src/eps_dfs.cpp:1189). That crash is not modelled.
- Decompose.DecomposeBab: uses the corrected, exact-arithmetic depth. The leaf collection of each pass is passed in as functions, so the contract states the shape of the groups and not which tuples they hold.
- Cursors.DecompositionCursor.Claim: requires that the master produced at least one group per worker, as a parallel decomposition does.
- Engine.BoundedBAB.AdoptBest: EPS_BAB::Worker is a separate class in the source. The model represents a worker's best solution and mark by a `BoundedBAB`, and Worker::better as its AdoptBest. Worker::run (src/eps_bab.cpp:1257-1345), the worker's own search loop, is not modelled. That loop sets the best on a solution without setting the mark, and it constrains only after a recompute.
- Merge.EpsBab.Solution: a worker that adopts the shared best receives only its objective value. The bound posted on the shared best is not carried over.
- Merge.NotifyBytesAsWritten: requires at most 20 bytes in the objective file. The source reads up to 21 bytes into a 21-byte buffer and writes its terminator out of bounds when all 21 are read.
- Text.ReadInt: integers are unbounded. The stream's failure on a value outside the range of `int` is not modelled.
- Text.CompleteLines: a last line without a newline is ignored, because the `getline(...).eof()` test ends the loop on it.
- SubproblemFile.ReadLine: a blank line keeps the previous type word, because `>>` leaves the string unchanged when it fails.
- SteelMill.SteelMillBranch.Choose: requires every domain to be no larger than the number of orders and every weight to be positive. These are the conditions under which the source's initial size and weight are beaten.
- SteelMill.SteelMillOptions.Parse: requires at least one capacity and at least one non-negative capacity, and enough numbers for the counts the file states. Without a non-negative capacity the source allocates a loss array of size 0 or less and writes `loss[0]` outside it; a short file leaves the stream failed, which is not modelled.
- SteelMill.ComputeLoss: `loss[maxcap]` is allocated but never written by the source, and the contract says nothing about it.

## Findings

| source | as written | input that shows it | evidently intended | confidence | as-written member | corrected member |
|---|---|---|---|---|---|---|
| src/eps_bab.cpp:1504-1520 | the product of domain sizes is an `unsigned int` and wraps at 2^32 | sizes [65536, 65536, 2], P = 30: level 3 instead of 1 | stop at the first depth whose exact product exceeds P | not executed | Decompose.LevelBabWrapsAround | Decompose.LevelBabExactFirstOver |
| src/main.cpp:599-601 | tables closed by a later `v` line are posted on the hook space over the main space's variables | one group with both a Boolean and an integer table: its first hook post | use the hook's variables, as the final table at line 682 does | not executed | SubproblemFile.AsWrittenHookUsesMainVars | SubproblemFile.CorrectedHookOwnVars |
| src/eps_bab.cpp:627-634 | the new objective is written at the offset after the bytes just read, so it is appended | file "15", new minimum 9: file becomes "159" | overwrite the file with the new value | not executed | Merge.AsWrittenStoresWrongValue | Merge.NotifyBytesStoresWritten |
| src/flatzinc.cpp:1219 | `n_aux =+ sv_aux.size()` assigns instead of adding (also line 1223) | one auxiliary integer variable, no set or float ones: n_aux = 0 | `n_aux += ...` | not executed | FlatZinc.AsWrittenDropsAuxBrancher | FlatZinc.AuxCount |
| src/flatzinc.cpp:1389-1393 | the sort of `bv` is overwritten by the unsorted copy `bv_args` | Booleans of sizes 2, 1 stay in that order | sort `bv_args`, as done for the integers | not executed | FlatZinc.AsWrittenBoolsUnsorted | FlatZinc.Space.SortVariables |
| src/flatzinc.cpp:674-677 | reaching the SAT budget jumps past the printing of the last solution | SAT, `-n 1`, not printing all: nothing is printed | print the last solution before stopping | not executed | FlatZinc.AsWrittenSolutionNotPrinted | FlatZinc.FixedPrintsLastSolution |
