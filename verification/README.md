# Verified model of the inter-procedural core and of the bounds-checked C routines

The project models, in Dafny, the parts of the repository whose correctness spans whole runs:

- **Call graph** (`mapleall/maple_ipa/src/callgraph.cpp`). Recording calls, dropping repeated call
  sites, Tarjan's search over the mutable node vectors, the condensation, its topological order and
  the bottom-up compilation list form one chain: each stage's result is the next one's
  precondition. `CallGraphs.CallGraph.BuildCallGraph` is the whole chain, from nodes without calls
  and the lists of collected calls to the compilation list. The graph is the first build, where no
  node has an SCC yet. Which callees a virtual call has, and the search for a callee by name, stand
  beside it.
- **Inliner** (`mapleall/maple_ipa/src/inline.cpp`). Statements are given a small-step meaning
  (module `Mir`): a jump continues at its label wherever the label is nested, a frame holds the
  symbols and pregs that were assigned, reading one that was not is `Stuck`. `InlineTransform` says
  what an inlined call is; `PerformInline` and `MirTables` build it the way the source does, in the
  source's order, over the mutable tables of the caller; `InlineCorrect` and `InlineTheorem` prove
  that the program with the inlined block ends exactly as the program with the call.
- **Regions** (`mapleall/maple_ipa/src/formregions.cpp`), **module order**
  (`mapleall/maple_ipa/src/graph.cpp`), **inlining budget** and **integer constants**
  (`mapleall/maple_ir/include/mir_const.h`).
- **Secure C** (`huawei_secure_c/src`). One byte array is the memory, pointers are addresses in it,
  so every overlap of source and destination is covered.

## What was found false, and the exact condition

- Deleting the call of an *empty* function also deletes the null check that the call makes when the
  first formal is `_this` (`inline.cpp:453-456`). For the statements of `Mir` and programs whose runs
  never get stuck, `InlineTheorem.ReplaceableExactly` proves that this is the only failure: a function
  may replace its calls, in every such program, if and only if it has a body or does not check
  `_this`. That a call on null throws (`Mir.DoCall`) is an assumption about what a call does at run
  time; it is what the inserted check stands for (`inline.cpp:500-504`).
- Virtual-call collection is sound but not precise (`callgraph.cpp:393-458`).
  `VirtualCalls.NamedThroughSubclass` is a call that fails: it names an inherited method through the
  class that inherits it, and what it names is recorded although no receiver runs it.
  `VirtualCalls.PreciseIffDeclared`: where no class has two methods of one name and no other class has
  the called method, all recorded callees are targets if and only if the static class declares the
  called method. `VirtualCalls.PreciseExactly` is the exact condition without these two assumptions.

## Precedence of the error codes

The comments above `strcat_s`, `strcpy_s` and `strncpy_s` give one code for each violation and leave
open which one wins. `CatResult` and `CopyResult` state the code's own precedence, for all inputs.

## How the parts hang together

| file | contents |
|---|---|
| `Options`, `Sequences` | an option type; sequences without repetition |
| `Reachability`, `Tarjan` | paths in a graph; the invariant of the depth-first search on values |
| `CallGraphNodes`, `SccSearch`, `Condensation`, `SccTopologicalSort`, `CallGraph`, `CallSites` | the same on nodes and vectors that are updated in place |
| `VirtualCalls` | class hierarchy, dispatch, the worklist of subclasses |
| `Mir` | statements, one step, runs of programs |
| `InlineTransform`, `InlineStructure`, `InlineInvariant`, `InlineFrames` | the transformation, how it commutes with jumps and unfolding, what stays true of remaining code |
| `InlineSteps`, `InlineMerged`, `InlineEnds`, `InlineCorrect`, `InlineTheorem` | the simulation: outside the inlined call, inside it, entering and leaving it; then whole runs |
| `InlineAgain` | what an inlining leaves for the next one: labels, jumps, indices, the other calls |
| `MirTables`, `InlineReturns`, `PerformInline`, `InlineCalls` | the inliner's own steps and its walk, proved to produce the transformation |
| `SpendBudget`, `Regions`, `ModuleGraph`, `IntConst` | as named |
| `SecureMemory`, `SecureStrings`, `Strtok` | memory, overlap and copying; the string routines; whole runs of `strtok_s` |

## Model

| member | source | states |
|---|---|---|
| SccSearch.BuildSCCDFS | mapleall/maple_ipa/src/callgraph.cpp:1569-1613 | the recursive search visits everything reachable, gives a low order that is right for the nodes on the stack, and every SCC object it has made is one class of mutual reachability |
| Tarjan.PopScc | mapleall/maple_ipa/src/callgraph.cpp:1599-1612 | when the low order equals the visiting order, the stack from the node up is exactly one SCC, and popping it keeps the invariant of the search |
| Tarjan.Leave | mapleall/maple_ipa/src/callgraph.cpp:1599-1613 | when it is smaller, the node stays on the stack and reaches a node that is still being searched |
| Tarjan.TreeEdge | mapleall/maple_ipa/src/callgraph.cpp:1587-1592 | taking over the callee's low order keeps the bound and its witness |
| Tarjan.VisitedEdge | mapleall/maple_ipa/src/callgraph.cpp:1593-1596 | so does a back edge, and edges to finished SCCs need no update |
| Tarjan.TopLevelDone | mapleall/maple_ipa/src/callgraph.cpp:1637-1652 | after a top-level search the stack is empty and every visited node has its SCC |
| Condensation.Setup | mapleall/maple_ipa/src/callgraph.cpp:1546-1567 | the caller and callee sets of an SCC object are exactly the other SCCs its nodes are called from and call |
| Condensation.SetUpEdges | mapleall/maple_ipa/src/callgraph.cpp:1546-1567 | callerScc and calleeScc are inverse: both hold the edges of the condensation |
| CallGraphs.CondensationAcyclic | mapleall/maple_ipa/src/callgraph.cpp:1654-1663 | edges of the condensation go from a later SCC number to an earlier one, so it has no cycle |
| SccTopologicalSort.SCCTopologicalSort | mapleall/maple_ipa/src/callgraph.cpp:1666-1696 | on an acyclic condensation every SCC is listed once and after all its callers |
| SccTopologicalSort.NothingMissing | mapleall/maple_ipa/src/callgraph.cpp:1675-1695 | completeness: a missing SCC would have a missing caller with a larger number, without end |
| CallGraphs.CallGraph.BuildSCC | mapleall/maple_ipa/src/callgraph.cpp:1624-1664 | every node is in exactly one SCC, two nodes share one if and only if each reaches the other, and the SCC vector is top-down |
| CallGraphs.CallGraph.SetCompilationFunclist | mapleall/maple_ipa/src/callgraph.cpp:1438-1457 | the list holds every eligible function once, and a callee in another SCC before its caller |
| CallGraphs.CallGraph.GenCallGraph | mapleall/maple_ipa/src/callgraph.cpp:1203-1351 | from nodes without calls: v is a callee of u, with a type, if and only if an earlier call or one found in the body of some function goes from u to v with that type; caller sets agree; then the roots and the SCCs are built |
| CallGraphs.CallGraph.BuildCallGraph | mapleall/maple_ipa/src/callgraph.cpp:1405-1413 | the whole chain, from nodes without calls to the compilation list: the graph has exactly the earlier calls and those found in bodies, and the list is bottom-up for them |
| CallGraphs.CompiledOnce | mapleall/maple_ipa/src/callgraph.cpp:1445-1452 | a function is in the list if and only if it has a body or is not native, and only once |
| CallGraphs.TargetCompiledFirst | mapleall/maple_ipa/src/callgraph.cpp:393-458 | whatever a virtual call runs, in another SCC, is compiled before the caller |
| CallGraphs.FindRootNodes | mapleall/maple_ipa/src/callgraph.cpp:1353-1363 | the roots are exactly the nodes without callers, each once |
| CallGraphs.CycleInScc | mapleall/maple_ipa/src/callgraph.cpp:1459-1478 | a node lies on a cycle if and only if its SCC has several members or it calls itself |
| CallGraphs.HasRecursion | mapleall/maple_ipa/src/callgraph.cpp:1459-1478 | the test answers exactly whether the nodes of the SCC lie on a cycle |
| CallSites.RecordCall | mapleall/maple_ipa/src/callgraph.cpp:398-401 | recording a call on both sides keeps callers and callees symmetric |
| CallSites.GenCallGraph | mapleall/maple_ipa/src/callgraph.cpp:1203-1346 | the whole construction: v is a callee of u, with a type, if and only if an earlier call or one found in some body goes from u to v with that type, callers agree, and no function is left with a repeated call site |
| CallSites.AllCallsAre | mapleall/maple_ipa/src/callgraph.cpp:1203-1296 | what is collected is the earlier calls and the calls of every function with a body, and nothing else |
| CallSites.CallersAreCallees | mapleall/maple_ipa/src/callgraph.cpp:1203-1346 | after it, v is listed as a callee of u if and only if u is in the caller set of v, and if and only if such a call was collected |
| CallSites.NothingRecorded | mapleall/maple_ipa/src/callgraph.cpp:348-364 | nodes as they are created have the empty call relation |
| CallSites.DropRepeated | mapleall/maple_ipa/src/callgraph.cpp:1290-1346 | the nested erasing loops leave the first of each repeated call site, and the same call relation |
| CallSites.KeepFirstKeeps | mapleall/maple_ipa/src/callgraph.cpp:1290-1346 | what is left has one entry for each callee and merged type, is part of the list, and keeps every callee with every type |
| CallSites.KeptExactly | mapleall/maple_ipa/src/callgraph.cpp:1290-1346 | what is left is, in order, the entries before which no entry calls the same function in the same way, for plain, interface and virtual calls; all others stay |
| CallSites.ContainsExactly | mapleall/maple_ipa/src/callgraph.cpp:170-190 | the name that is looked for may stand anywhere in the function's name |
| CallSites.HasCalleeFunc | mapleall/maple_ipa/src/callgraph.cpp:170-190 | the search ends although nodes are queued repeatedly, and is true if and only if some reachable node's name contains the string |
| VirtualCalls.Subclasses | mapleall/maple_ipa/src/callgraph.cpp:406-426 | the worklist without a visited set ends on every acyclic hierarchy and holds exactly the classes at or below the static one |
| VirtualCalls.VirtualCallees | mapleall/maple_ipa/src/callgraph.cpp:393-458 | the recorded callees, exactly |
| VirtualCalls.EveryTargetRecorded | mapleall/maple_ipa/src/callgraph.cpp:393-458 | soundness: for every receiver class at or below the static class the method that dispatch finds is recorded |
| VirtualCalls.DispatchIsNearest | mapleall/maple_ipa/src/callgraph.cpp:430-458 | dispatch finds m if and only if some class at or above the receiver's declares m first and no class on the way to it has the name |
| VirtualCalls.FirstIsFirst | mapleall/maple_ipa/src/callgraph.cpp:412-420 | a class contributes its first method of the name |
| VirtualCalls.TargetExactly | mapleall/maple_ipa/src/callgraph.cpp:393-458 | the dispatch targets, from the declarations: what some class at or below the static one declares first, and what the static class inherits if it has no method of that name |
| VirtualCalls.PreciseIffDeclared | mapleall/maple_ipa/src/callgraph.cpp:393-458 | all recorded callees are dispatch targets if and only if the static class declares the called method, where a class has one method of a name and no other class has the called one |
| VirtualCalls.PreciseExactly | mapleall/maple_ipa/src/callgraph.cpp:393-458 | the same for every hierarchy: if and only if the called method is declared at or below the static class or inherited by it, and the search above finds no overridden method |
| VirtualCalls.NamedThroughSubclass | mapleall/maple_ipa/src/callgraph.cpp:393-458 | a valid hierarchy and a call whose named method is recorded and is no target |
| VirtualCalls.OnlyTargetsRecorded | mapleall/maple_ipa/src/callgraph.cpp:411-458 | any other recorded callee is a target unless the search above finds an overridden method |
| VirtualCalls.OverriddenExactly | mapleall/maple_ipa/src/callgraph.cpp:430-458 | where each method has one class, it finds one if and only if the static class has another method of that name, not the called one, and a superclass has one too |
| InlineTheorem.InliningPreserves | mapleall/maple_ipa/src/inline.cpp:452-586 | after any number of steps of any program there is a number of steps of the transformed program with the same globals and the same end |
| InlineTheorem.InliningKeepsEnds | mapleall/maple_ipa/src/inline.cpp:452-586 | both directions: the program ends in a state if and only if the transformed program does, so divergence is kept too |
| InlineTheorem.InliningStaysSafe | mapleall/maple_ipa/src/inline.cpp:452-586 | the transformed program reads nothing unassigned either, so further calls may be inlined |
| InlineTheorem.ManyInlinings | mapleall/maple_ipa/src/inline.cpp:920-958 | so any number of inlinings, one after the other, keep how the program ends |
| InlineTheorem.ReplaceableExactly | mapleall/maple_ipa/src/inline.cpp:453-456 | the inlining is right in every program if and only if the callee has a body or makes no null check |
| InlineTheorem.NullCheckLost | mapleall/maple_ipa/src/inline.cpp:453-456 | the program in which an empty method called on null no longer throws |
| InlineCorrect.CallInlined | mapleall/maple_ipa/src/inline.cpp:497-510 | entering: the assignments and the null check do what the call does, throwing included |
| InlineEnds.RunAssigns | mapleall/maple_ipa/src/inline.cpp:505-510 | assigning the actuals one after the other to fresh formals is passing them at once |
| InlineEnds.LeaveMerged | mapleall/maple_ipa/src/inline.cpp:512-566 | leaving: every rewritten return, the last one without its jump, and falling off the end store the result and come to what follows the call |
| InlineMerged.MergedStep | mapleall/maple_ipa/src/inline.cpp:483-495 | a step of the callee and a step of its renamed copy have the same effect |
| InlineSteps.PlainStep | mapleall/maple_ipa/src/inline.cpp:568-582 | everything outside the call does the same before and after |
| InlineFrames.LabelsApart | mapleall/maple_ipa/src/inline.cpp:236-255 | no label of the inlined block is a label of the caller |
| InlineFrames.ShiftedLabelApart | mapleall/maple_ipa/src/inline.cpp:258-305 | a jump of the clone finds its own renamed label, with the clone's code behind it |
| InlineFrames.KeptLabel | mapleall/maple_ipa/src/inline.cpp:542-566 | the return label, when it is kept, is found at the end of the block |
| InlineInvariant.ReusedLabel | mapleall/maple_ipa/src/inline.cpp:518-521 | jumping to the reused label is going on behind the call, however deep the call is nested |
| InlineStructure.FindInlined | mapleall/maple_ipa/src/inline.cpp:568-582 | what follows a label of the block is the rest of the block and then what followed the call |
| InlineAgain.StaysGood | mapleall/maple_ipa/src/inline.cpp:452-586 | the caller is good again with its larger tables: indices in range, every label once, every jump with its label, so that the next inlining starts from the same guarantees |
| InlineAgain.JumpsFound | mapleall/maple_ipa/src/inline.cpp:512-566 | no jump, executed or not, is left without its label |
| InlineAgain.LabelKeptIffUsed | mapleall/maple_ipa/src/inline.cpp:542-566 | the block has the created return label if and only if something in it jumps there |
| InlineAgain.BlockJumps | mapleall/maple_ipa/src/inline.cpp:483-566 | the jumps of the block, exactly: the callee's, shifted, and those of the returns but a last one |
| InlineAgain.OtherCallStays | mapleall/maple_ipa/src/inline.cpp:568-582 | another call of the caller is still there, once, and unchanged |
| InlineAgain.BlockLabels | mapleall/maple_ipa/src/inline.cpp:483-566 | the block has each label of the callee once, shifted, and the return label exactly when it is kept |
| InlineReturns.UpdateReturnStmts | mapleall/maple_ipa/src/inline.cpp:400-449 | the walk rewrites every return at any depth, counts them and reports the goto made last |
| InlineReturns.NoReturnRemains | mapleall/maple_ipa/src/inline.cpp:400-449 | no return is left at any depth |
| InlineReturns.LastAtEnd | mapleall/maple_ipa/src/inline.cpp:552-565 | the goto made last is the last statement if and only if the body ended in a return |
| InlineReturns.CleanUp | mapleall/maple_ipa/src/inline.cpp:542-566 | removing the last goto and the label leaves the block that the theorem is about |
| InlineReturns.FinishBody | mapleall/maple_ipa/src/inline.cpp:497-566 | steps 4 to 6.5 on the renamed clone |
| InlineReturns.ReplacedPregs | mapleall/maple_ipa/src/inline.cpp:321-389 | looking up every preg in the map is renaming by the offset; it stops the compiler exactly where the body uses a preg without an entry |
| InlineReturns.RenameTwice | mapleall/maple_ipa/src/inline.cpp:491-495 | replacing symbols, labels and pregs in three passes is one renaming |
| MirTables.RenameSymbols | mapleall/maple_ipa/src/inline.cpp:120-175 | succeeds if and only if no copied entry follows a gap and the new names are free and different; then every entry that is not PU-static is copied: entry i becomes entry i + offset under a new name with its type, automatic if it was a formal and with its storage otherwise, and the caller's entries stay |
| MirTables.MangledApart | mapleall/maple_ipa/src/inline.cpp:129-136 | two mangled names are equal only for the same function, name and inlining |
| MirTables.DigitsRoundTrip | mapleall/maple_ipa/src/inline.cpp:129-136 | the digits in a name stand for the number, without leading zeros |
| MirTables.StaysFree | mapleall/maple_ipa/src/inline.cpp:476-487 | the names of the next inlining of any function are free after this one |
| MirTables.RenameLabels | mapleall/maple_ipa/src/inline.cpp:236-255 | label i becomes label i + offset, and the caller's labels stay |
| MirTables.RenamePregs | mapleall/maple_ipa/src/inline.cpp:307-319 | preg i becomes preg i + offset with a number that was not in use; the primitive type is kept, and the type and the count flag of pointers and references |
| MirTables.MIRPregTable.CreatePreg | mapleall/maple_ir/include/mir_preg.h:98-103 | the new preg has a number that no preg of the table has, and map and table stay inverse |
| MirTables.MIRPregTable.EnterPregNo | mapleall/maple_ir/include/mir_preg.h:155-165 | a known number keeps its index, a new one is entered, the maximum stays an upper bound |
| MirTables.MIRSymbolTable.AddStOutside | mapleall/maple_ir/include/mir_symbol.h:389-402 | the symbol gets the next index; the answer is whether its name was free |
| PerformInline.MInline.PerformInline | mapleall/maple_ipa/src/inline.cpp:452-586 | the steps in their order give the inlined block in place of the call, with offsets from the old table sizes, the label behind the call reused exactly if there is one; when the compiler stops |
| PerformInline.MInline.InlineCall | mapleall/maple_ipa/src/inline.cpp:920-958 | the walk to a call at any depth and the inlining give the transformed caller, everything the theorem needs, and a caller that is good again |
| InlineCalls.InlineCalls | mapleall/maple_ipa/src/inline.cpp:909-958 | every call of a function to inline that stood in the body, at whatever depth, is gone, and every site that was inlined was such a call; the new body is that of replacing each in turn by its callee's block, at the offsets that the tables then have; the program ends as it did and the caller is good; if none of its names looks like an inlined one, the compiler does not stop on the way |
| InlineCalls.EveryCallChosen | mapleall/maple_ipa/src/inline.cpp:920-958 | the walk meets every call of a function to inline, in lists, both parts of an if, and loops |
| InlineCalls.OnlyCallsChosen | mapleall/maple_ipa/src/inline.cpp:920-958 | it inlines nothing else |
| InlineCalls.ChosenInOrder | mapleall/maple_ipa/src/inline.cpp:920-958 | in the order in which the calls are written |
| InlineCalls.InlinedIsGone | mapleall/maple_ipa/src/inline.cpp:568-582 | an inlined call is gone from the body and no later inlining brings it back |
| InlineCalls.KeepsOtherCall | mapleall/maple_ipa/src/inline.cpp:920-926 | every call still to be inlined is where the walk will find it |
| InlineCalls.AllStayFree | mapleall/maple_ipa/src/inline.cpp:476-490 | after an inlining the names of all inlinings to come are free |
| PerformInline.InlinedProgram | mapleall/maple_ipa/src/inline.cpp:452-586 | the program with the caller's new body ends as the program with the old one |
| PerformInline.TrFocus | mapleall/maple_ipa/src/inline.cpp:568-582 | only the statement with the call changes |
| SpendBudget.Spend | mapleall/maple_ipa/src/inline.cpp:588-746 | true if and only if nothing is refused and the sum of the costs is within the budget; then the rest is returned |
| SpendBudget.Costs | mapleall/maple_ipa/src/inline.cpp:600-735 | the cost of each operation; a call of a recorded function costs what was recorded, any other call 1 |
| SpendBudget.Levels | mapleall/maple_ipa/src/inline.cpp:600-735 | the level from which each operation is inlined, and those that never are |
| SpendBudget.AllowedExactly | mapleall/maple_ipa/src/inline.cpp:740-745 | a tree is admitted if and only if its own operation and all its operands are |
| SpendBudget.OperandCounts | mapleall/maple_ipa/src/inline.cpp:740-745 | every operand counts once: exchanging one changes the sum by the difference of the two |
| SpendBudget.PrefixDecides | mapleall/maple_ipa/src/inline.cpp:737-745 | the early exits are sound: no later part makes up for a refused or too dear prefix |
| SpendBudget.RecordCost | mapleall/maple_ipa/src/inline.cpp:873-877 | a recorded cost is the plain sum, lies in [0, max_budget], and is not overwritten |
| Regions.FormRegions.FormOneRegion | mapleall/maple_ipa/src/formregions.cpp:92-142 | false if and only if every function with a body has a region; otherwise a region is added that starts with the entry if that is free, else with the first free root, else with the lowest free function; it is what exploring the members in their order gives, and no free neighbour of a member, by SCC, as caller or as callee, still fits |
| Regions.FormRegions.AddNeighborsInCallGraph | mapleall/maple_ipa/src/formregions.cpp:45-88 | the SCC's members, the callers and the callees are taken in this order; each is in a region afterwards or did not fit; members, counts and numbers stay consistent |
| Regions.TakenInOrder | mapleall/maple_ipa/src/formregions.cpp:45-88 | a neighbour is taken if and only if it has a body, is in no region and there is room for it behind those taken before |
| Regions.TakeKeepsAll | mapleall/maple_ipa/src/formregions.cpp:35-43 | adding a function keeps all regions good: membership, counts, the limit for two or more members |
| Regions.FirstFreeExactly | mapleall/maple_ipa/src/formregions.cpp:93-130 | a first member is found if and only if a function with a body is left, and it is the free entry, else the first free root, else the lowest free function |
| Regions.FormRegions.Run | mapleall/maple_ipa/src/formregions.cpp:234-249 | the driver ends with every function with a body in exactly one region, merged into one if they are within the limit together |
| Regions.FormRegions.MergeAllRegionsToOne | mapleall/maple_ipa/src/formregions.cpp:144-159 | the members of the first region, then those of the last down to the second, and the sum of the counts |
| Regions.MergedAt | mapleall/maple_ipa/src/formregions.cpp:144-159 | where each member of each region comes to stand: the first region, then the last down to the second |
| Regions.MergedPartition | mapleall/maple_ipa/src/formregions.cpp:144-159 | merging loses no function, makes none double and conserves the count of statements |
| Regions.FormedPartition | mapleall/maple_ipa/src/formregions.cpp:234-235 | formed regions partition the functions with bodies |
| ModuleGraph.Graph.TopologicalSorting | mapleall/maple_ipa/src/graph.cpp:30-45 | parents before kids, each vertex at most once, emitted counters 0, the others the number of edges from vertices that were not emitted |
| ModuleGraph.SortsAll | mapleall/maple_ipa/src/graph.cpp:30-45 | all vertices are emitted if and only if there is no cycle and all are reached from the root |
| ModuleGraph.NextKid | mapleall/maple_ipa/src/graph.cpp:37-43 | a counter that is decremented was positive, and a vertex is queued when its last edge has been followed |
| ModuleGraph.EdgesFromOneMore | mapleall/maple_ipa/src/graph.cpp:37-43 | emitting a vertex takes exactly its edges, parallel ones too, from what the counters stand for |
| ModuleGraph.Graph.AddEdge | mapleall/maple_ipa/src/graph.cpp:100-103 | the counters stay the numbers of edges, with parallel edges too |
| IntConst.TruncatedRepresents | mapleall/maple_ir/include/mir_const.h:111-122 | the shifts give the representative modulo 2^width in the range of the type; for unsigned 64-bit types read as an int64 |
| IntConst.OnlyOne | mapleall/maple_ir/include/mir_const.h:111-122 | there is only one such representative |
| IntConst.TruncatedTwice | mapleall/maple_ir/include/mir_const.h:111-122 | truncating is idempotent |
| IntConst.ValueUnderTypeAgrees | mapleall/maple_ir/include/mir_const.h:124-136 | reading a constant under its own type gives its value |
| IntConst.MIRIntConst.GetBitWidth | mapleall/maple_ir/include/mir_const.h:98-109 | the least w with -2^w <= value < 2^w for every nonzero int64, the minimum included |
| SecureMemory.SecUtilMemmove | huawei_secure_c/src/memmove_s.c:27-58 | for every placement the result is that of copying through a snapshot, and nothing else changes |
| SecureMemory.memmove_s | huawei_secure_c/src/memmove_s.c:87-119 | each code if and only if its condition holds, and the memory for each; errors zero the whole destination |
| SecureMemory.OverlapMacros | huawei_secure_c/src/securecutil.h:105-135 | the macros are true of exactly the ranges that have an address in common |
| SecureMemory.LengthIs | huawei_secure_c/src/securecutil.h:173-181 | the bounded length is the only one with no NUL before it and a NUL or the bound behind it |
| SecureMemory.SecStrMinLen | huawei_secure_c/src/securecutil.h:173-181 | the counting loop computes the bounded length and reads no further than the NUL or the bound |
| SecureMemory.SecStrMinLenOpt | huawei_secure_c/src/securecutil.h:142-171 | the unrolled variant agrees with it |
| SecureStrings.strcat_s | huawei_secure_c/src/strcat_s.c:24-96 | each code if and only if its condition holds, the joined text for EOK, only the first byte changed by a reset |
| SecureStrings.strncat_s | huawei_secure_c/src/strncat_s.c:24-115 | the same for at most count characters |
| SecureStrings.Concatenated | huawei_secure_c/src/strcat_s.c:24-50 | after EOK the destination holds both texts, terminated within destMax; source and all other bytes are unchanged |
| SecureStrings.strncpy_s | huawei_secure_c/src/strncpy_s.c:109-141 | each code if and only if its condition holds; EOK copies count characters, or the whole string if there is room, with source and destination disjoint or the same; ERANGE_AND_RESET if and only if count is over the limit, or count is at least destMax and there is no NUL in destMax bytes |
| SecureStrings.strcpy_s | huawei_secure_c/src/strcpy_s.c:332-350 | the same for whole strings, a source equal to the destination included |
| SecureStrings.Copied | huawei_secure_c/src/strcpy_s.c:332-350 | after EOK the destination holds the text, terminated within destMax; all other bytes are unchanged |
| SecureStrings.CheckSrcCountRange | huawei_secure_c/src/strncpy_s.c:38-56 | the error exactly when count allows destMax characters and there is no NUL among them; reads one byte more than it counts |
| SecureStrings.strncpy_error | huawei_secure_c/src/strncpy_s.c:61-83 | the codes for arguments that strncpy_s turns away |
| SecureStrings.strcpy_error | huawei_secure_c/src/strcpy_s.c:274-288 | the codes for arguments that strcpy_s turns away, and for a source that is the destination |
| Strtok.strtok_s | huawei_secure_c/src/strtok_s.c:95-112 | a given string is split from its beginning whatever was stored, without one the splitting goes on from what was stored; the next token, the one byte written and the position stored; NULL without effect when an argument is missing |
| Strtok.Split | huawei_secure_c/src/strtok_s.c:95-112 | one call with the string and n with NULL, whatever the context held, return the tokens in order and then NULL, and change exactly the ends of the returned tokens |
| Strtok.SecFindRest | huawei_secure_c/src/strtok_s.c:41-59 | the delimiter behind the token is the one byte written |
| Strtok.SecFindBegin | huawei_secure_c/src/strtok_s.c:22-36 | the first character that is no delimiter, or the end |
| Strtok.TokensAreRuns | huawei_secure_c/src/strtok_s.c:22-75 | tokens are exactly the longest stretches of the original string without a delimiter |
| Strtok.WholeRun | huawei_secure_c/src/strtok_s.c:95-112 | step n gives token n, and NULL for ever after the last; only ends of returned tokens have been overwritten |
| Strtok.TokenStays | huawei_secure_c/src/strtok_s.c:95-112 | a returned token stays terminated with its own text, however many calls follow |
| Strtok.AfterNext | huawei_secure_c/src/strtok_s.c:95-112 | each call starts from the memory and the position that the one before left |

## Left out

- Order within an SCC: the comparison is not transitive on cycles of direct callees; the model lets the sort produce any order of the SCC's members.
- A second build of the SCCs, deletion and update of nodes, `DumpCycle`: stale SCC pointers and one-sided removal break the invariants above.
- Interface calls, indirect and intrinsic calls, the override pass over superclasses, and devirtualization: they rest on class-hierarchy code that is not shown; what they record is recorded through `CallSites.RecordCall`.
- CallSites.RecordCall: does not model numReferences, because the erasing loops never decrement it.
- CallSites.HasCalleeFunc: every listed callee is a node, as CallSites.GenCallGraph leaves it; the code would follow a null callee.
- VirtualCalls.VirtualCallees: gives a set, not the order of the call sites, and takes sub- and superclass links to be inverse and acyclic.
- InlineTheorem.InliningPreserves: one call is inlined, with as many arguments as formals and at most one result; a program that reads an unassigned symbol or preg is Stuck and nothing is claimed for it, which stands for callees that define locals before use.
- InlineTheorem.ManyInlinings: takes the sequence of sites as given; the walk that makes such a sequence is InlineCalls.InlineCalls.
- PerformInline.MInline.InlineCall: one given call; the walk over all of them is InlineCalls.InlineCalls.
- InlineCalls.InlineCalls: takes the set of functions to inline as given, with as many arguments as formals at each call, and the caller not among them; the calls are collected before the first is inlined, which is the order of the walk, since it does not enter what it has inlined.
- CallGraphs.CallGraph.BuildCallGraph: starts from the same lists of calls as CallGraphs.CallGraph.GenCallGraph.
- CallGraphs.TargetCompiledFirst: the map from functions to nodes and the collected calls are given.
- CallGraphs.CallGraph.GenCallGraph: the calls that HandleBody collects are given as lists, and nodes are created before calls are recorded rather than when a call first names them.
- InlineTheorem.InliningKeepsEnds: globals are the only memory besides symbols and pregs; addresses, indirect reads, exceptions other than a failed null check, doloop, foreachelem, switch, try and special registers are not modelled.
- MirTables.RenameSymbols: a PU-static symbol makes no copy in the caller, as in the source, but its global counterpart and the map to it are not modelled, and PerformInline does not redirect uses of it.
- MirTables.MIRPregTable.CreatePreg: special registers, which have negative indices, are not modelled.
- InlineReturns.UpdateReturnStmts: builds new lists where the source relinks statements, so aliasing of list cells is not captured; a return without an operand where a result is wanted stores nothing.
- PerformInline.MInline.PerformInline: the inline-list file and the choice of calls to inline are not part of this model; the walks that replace symbols and labels are one recursive function applied twice, and a call is found by a statement id that stands for its address.
- SpendBudget.Spend: int32 arithmetic is not modelled, so neither are jump tables with 2^31 entries.
- SpendBudget.RecordCost: the attribute tests before it are not modelled.
- Regions.FormRegions.Run: single-function mode, whose loop skips index 0, and called_from_outside, which reads a region number that merging does not update, are not modelled.
- Regions.FormRegions.MergeAllRegionsToOne: leaves assigned_region as it was, as the source does, so region numbers are not claimed after a merge.
- ModuleGraph.Graph.TopologicalSorting: in_nums is unbounded; it never wraps, since no counter falls below 0. BuildModuleNode, the visit order of DumpMakefile and file output are not modelled.
- SecureStrings.strcpy_s: the unrolled copy of short strings is modelled as the copy it stands for; so is the assembly variant of memcpy.
- SecureMemory.memmove_s: the branch that calls the C library's memmove is taken to be SecUtilMemmove.
- Strtok.WholeRun: the delimiter string is the same in every call and no part of the string that is split.
- Greedy inlining, cloning, retyping, the driver, phases, logging, memory pools, file formats, the printf and scanf families, wide characters: not part of this model.
- Widths of table sizes, ids and statement counts: unbounded natural numbers.
