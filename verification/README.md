# ChainSaw in Dafny

ChainSaw cuts a dataflow graph into chains of instructions and simulates how an array
of lanes runs these chains.  This project models the way from the graph to the finished
simulation and proves properties of every step of it.  It also covers three
data structures of the simulators that ship with ChainSaw: the event heap, the DRAM
address mapping and the sparse DRAM bank.

`dafny verify dfyconfig.toml` checks everything.

## The parts

* **Graphs.** `Digraph` has walks, reachability, ranks and longest walks over a finite
  set of edges.  The vertex graph and the chain graph are both read through it.
  `Sequences` has sequences without repetitions and repeated steps.
* **Chain compiler** (`src/newGraph.cpp`). `LoopCheck`, `Chains`, `ChainSteps`, `Breaking`,
  `Merging`, `Compiler`, `Levels` and `Blocks`: the loop check, the dependency maps, the passes that
  break chains at live-outs and live-ins, the merging loop, the pipeline of the passes, the
  two longest-path labellings and the grouping of chains into blocks.
* **Lanes, memory, core** (`src/Lane.cpp`, `src/Memory.cpp`, `src/Core.cpp`). `Lanes` and
  `MemorySystem` hold the lane and the request buffer as classes, with the step functions
  that their methods are proved against. `Machine` puts the steps together: one cycle is
  one step of a state machine. `Dispatch` (the core invariant), `Progress` (termination
  within a bound), `Stalls` (the memory side), `Finish` and `EarlyFinish` (what "finished"
  means), `Order` and `OrderCondition` (in which order instructions run) and `Timing` (in which cycle) are
  about all runs of that machine. `Greedy` is about placing chains on lanes.  `CoreObject`
  is the core as a class whose methods refine the steps, and `Steps` says what they may rely
  on; `Simulator` runs one chunk from compiled chains to the end.
* **Minimal chains** (`include/DilworthDecomposition.hpp`). `PathCovers` relates matchings
  and partitions into paths; `Dilworth` is the extraction of chains from a mate map.
* **Bundled structures.** `PrioHeap`, `Bank` and `AddressMapping`.

Where the source updates objects in place the model has classes and methods with loops;
each such method is proved against a function of the old state, and the properties are
proved about these functions and about all runs of the machine.

## What the proofs found

* The loop check starts at chain 0 only.  It decides acyclicity of the whole chain graph
  because every vertex is reached from the root and the root is in chain 0
  (`Merging.LoopCheckDecides`).
* Breaking at the start node leaves an empty chain exactly when the root is the last vertex
  of a chain 0 with more than one vertex (`Compiler.BreakingStartNode`).
* Neither breaking pass cuts more than it has to: its result is the coarsest decomposition that
  has its property (`Breaking.OutCutForced`, `Breaking.InCutForced`).
* The passes and the merging loop end on every decomposition, also on one whose chain graph
  has a cycle; only the last assertion asks for more.  A single merge removes every cycle or is
  not made (`Breaking`, `Merging.MergeAll`).
* The vertex levels are longest-path lengths exactly when every child of vertex 0 has
  in-degree 1 or another reached parent (`Levels.GraphLevels`).  Parallel edges from vertex 0
  break this (`Levels.ParallelEdgesMissed`); simple graphs do not.
* A chain releases its dependents when its first instruction retires, because a lane reports
  its chain with every retirement.  So the order of instructions is not kept in general.  It is
  kept in all runs of a compiled graph exactly when every edge out of a chain leaves the first
  vertex of its chain; any other instruction of a chain can be overtaken by every instruction
  of every other chain (`OrderCondition.OrderKeptIff`, `OrderCondition.Overtaken`).  For a given
  placement, the order is also kept between two chains of one lane (`Order.EdgesKeepOrder`).
* "Finished" does not look at the fetch stacks.  Nothing is lost, in all runs, exactly when
  in every chain no instruction but the last executes for more than three cycles or waits for
  memory.  The other programs have a run that is reported finished with an instruction fetched
  but never executed (`EarlyFinish.FinishCompleteIff`).
* The extraction of chains from a maximum matching is not always minimal.  It is minimal on an
  acyclic graph exactly when no chain starts in the middle of a matched path, which holds when
  vertex numbers increase along edges (`Dilworth.ExtractedIsMinimalIff`,
  `Dilworth.NotAlwaysMinimal`).

## How the source is read

* Where the source walks over a set or a map, the model picks the elements in any order.
  The results hold for every order, in particular for the one of the source.
* `orig_graph` and `clean_graph` are equal copies while chains are compiled and are one graph
  here.
* Ruby is an environment: a bag of outstanding lines that grows with every request.  In a
  cycle it is ready for some lines, and returns lines that it holds (`Machine.EnvOk`).
* References to the front of a queue that are read after the element was popped
  (`src/Core.cpp:338-342`, `src/Core.cpp:493-499`) are copies here.
* `breakInHelper` reads through its iterator before it compares it with the end
  (`src/newGraph.cpp:273-276`).  The value read makes no difference, so the model asks for
  membership first.
* A request for a node without an entry in the memory map stops the program, and so does a
  returned line that matches no request.  `Stalls` and `Steps` prove that neither can happen
  when every memory instruction has an entry.  The same holds for the lookups of a lane by its
  request and of a waiting chain by its id, whose failure the source does not test: the model
  then does nothing, and in reachable states they never fail.
* Levels are compared as 32-bit unsigned numbers where the source stores them in a map of
  those, so that -1 comes last (`Greedy.LevelKey`).
* The fetch delay is 4.  The documentation makes it the parameter `FETCH_DELAY`, but the code
  only tests that the parameter exists and then uses the constant (`src/Lane.cpp:86-90`).
  Opcode latencies and the miss latencies of modes 0 to 2 are parameters.
* The table of the core has 700 rows and columns; a core with more chains or lanes is outside
  of the model.
* `buildChains` sets the id of a chain together with each of its instructions, so an empty
  chain keeps the id 0 (`CoreObject.BuiltIsInputs`).  Compiled chains are never empty.
* A number of cycles counts the calls of `run_a_cycle`.  `cycle_cnt` is one less, since the call
  that reports finished is not counted (`src/ChainSaw.cpp:237-241`).
* `createChainBlocks` looks up the dependents of chain 0 without testing whether it has any
  (`src/newGraph.cpp:935-936`), so a chain graph of one chain is outside of
  `Blocks.AssignBlocks`.
* New slots of the heap's vector hold arbitrary elements, as uninitialised ones do.
* Bank buffers are objects that packets and nodes point to, so a packet that was read shares
  its buffer with the bank.

## Model

| member | source | states |
|---|---|---|
| `LoopCheck.CheckLoopComplete` | src/newGraph.cpp:134-160 | for any finite dependency map the recursive check terminates and answers true exactly when a cycle can be reached from the start chain; without a loop it leaves the stack as it was before the call |
| `LoopCheck.ChildrenClear` | src/newGraph.cpp:137-159 | if no child is on the stack and from no child a walk leads back onto the stack or to a cycle, the same holds of the chain itself |
| `LoopCheck.BackEdgeIsCycle` | src/newGraph.cpp:147-150 | a child found on the stack closes a cycle that the chain reaches |
| `Chains.VertexToChainMap` | src/newGraph.cpp:20-33 | every chained vertex is mapped to the first chain that holds it, and no other vertex is mapped |
| `Chains.DependenciesGenerate` | src/newGraph.cpp:87-115 | the list of entries, in the order of chains, vertices and out-edges: one for every edge that leaves its chain, parallel edges each with their own |
| `Chains.AllDepsListed` | src/newGraph.cpp:87-115 | a pair of chains is in that list exactly when an edge leads from the first chain into the second |
| `Chains.HistoDependency` | src/newGraph.cpp:120-129 | a chain maps to the targets of its entries, in order and with repetitions, and only chains with an entry are mapped |
| `Chains.UniqueDependency` | src/newGraph.cpp:39-50 | the same pairs without repetitions |
| `Chains.ReverseMapping` | src/newGraph.cpp:54-65 | p is listed for c in the fan-in exactly when c is listed for p in the fan-out |
| `Chains.UniqueDependencies` | src/newGraph.cpp:361-367 | the fan-out that the compiler builds is exactly the chain graph: i leads to j when some edge goes from a vertex of chain i to a vertex of chain j |
| `Breaking.SplitKeeps` | src/newGraph.cpp:244-249 | splitting a chain keeps the exact partition without empty chains, the forward order inside chains, the acyclic chain graph and all chain fronts, and adds one chain |
| `Breaking.SplitAcyclic` | src/newGraph.cpp:244-249 | the chain graph after a split is acyclic if it was before and edges inside chains go forward |
| `Breaking.SplitSteps` | src/newGraph.cpp:244-248 | a split separates exactly the two vertices at the split point and keeps all other consecutive vertices together |
| `Breaking.BreakOutHelper` | src/newGraph.cpp:227-255 | either nothing changes and every cross-chain edge leaves a last vertex, or the first dependency with an edge from an inner vertex is taken, and its first chain is split behind its first such vertex |
| `Breaking.OutCutForced` | src/newGraph.cpp:227-255 | no split is unnecessary: every decomposition along the same steps whose cross-chain edges leave last vertices only has the cut too |
| `Breaking.BreakEveryLiveOut` | src/newGraph.cpp:1411-1422 | on every exact partition the pass ends, after as many splits as chains were added and with never more chains than vertices, each split the first that the helper finds; the result is the coarsest decomposition along the steps of the input whose cross-chain edges leave last vertices only, cut behind a vertex exactly when that has an edge out of its final chain; a well chained input stays well chained |
| `Breaking.NothingToBreakOut` | src/newGraph.cpp:1411-1422 | chains whose cross-chain edges leave last vertices only are not changed |
| `Breaking.CutOutMore` | src/newGraph.cpp:235-252 | later splits keep earlier ones justified: every cut is behind a vertex with an edge out of its current chain |
| `Breaking.BreakInHelper` | src/newGraph.cpp:262-287 | either nothing changes and every cross-chain edge enters a first vertex, or the first dependency with an edge to an inner vertex is taken, and its second chain is split before the first such vertex, by vertices and out-edges of the first chain |
| `Breaking.InCutForced` | src/newGraph.cpp:262-287 | the same for live-ins: every decomposition along the same steps whose cross-chain edges enter first vertices only has the cut too |
| `Breaking.BreakEveryLiveIn` | src/newGraph.cpp:1427-1437 | the same for live-ins: the coarsest decomposition along the steps of the input whose cross-chain edges enter first vertices only, cut before a vertex exactly when that has an edge into its final chain from another one |
| `Breaking.NothingToBreakIn` | src/newGraph.cpp:1427-1437 | chains whose cross-chain edges enter first vertices only are not changed |
| `Breaking.CutInMore` | src/newGraph.cpp:262-287 | the same for live-ins: every cut is before a vertex with an edge into its current chain |
| `Breaking.NoMoreChainsThanVertices` | src/newGraph.cpp:1411-1437 | an exact partition without empty chains has at most as many chains as vertices, which bounds the splits |
| `Merging.MergePartition` | src/newGraph.cpp:1588-1590 | appending chain t to chain i and erasing slot t keeps the exact partition |
| `Merging.MergeForward` | src/newGraph.cpp:1588-1590 | the joined chain still has only forward edges inside |
| `Merging.MergeSteps` | src/newGraph.cpp:1588-1590 | a merge puts exactly the last vertex of i and the first vertex of t together |
| `Merging.MergeAcyclicIff` | src/newGraph.cpp:1588-1603 | the merged chain graph is acyclic exactly when, beside the direct dependency, no second path of chains leads from i to t |
| `Merging.LoopCheckDecides` | src/newGraph.cpp:378-381 | started at chain 0 only, the loop check decides whether the whole chain graph is acyclic, because every vertex is reached from the root in chain 0 |
| `Merging.MergeKeeps` | src/newGraph.cpp:1587-1606 | on every rooted partition a candidate merge keeps the partition and the root in front of chain 0, never consumes chain 0, and removes one chain |
| `Merging.MergeKeepsOrder` | src/newGraph.cpp:1587-1606 | a candidate merge after which the chain graph has no cycle keeps a decomposition well chained |
| `Merging.ClosesLoop` | src/newGraph.cpp:1588-1601 | the trial merge followed by the loop check answers true exactly when the merged chain graph has a cycle |
| `Merging.MergeChain` | src/newGraph.cpp:1569-1617 | either the chains change by the first candidate merge that leaves no cycle, in the order of chains and out-edges, or nothing changes and every candidate with i >= 1 leaves one |
| `Merging.MergeAll` | src/newGraph.cpp:351 | from every rooted partition repeated merging removes one chain a time, each time by the first candidate merge that leaves no cycle, so it ends; the result joins the given chains along edges only, no remaining candidate merge would be loop-free, and a well chained input stays well chained |
| `Compiler.BreakingStartNode` | src/newGraph.cpp:1395-1406 | chain 0 is cut behind the first occurrence of the root and the rest becomes the last chain; this leaves an empty chain exactly when the root is the last vertex of a longer chain 0 |
| `Compiler.StartNodeSplits` | src/newGraph.cpp:1395-1406 | with the root in front, the cut leaves a chain 0 that holds the root alone, and keeps the partition and what was well chained |
| `Compiler.FinalDependencies` | src/newGraph.cpp:361-381 | the fan-out and fan-in of the final chains are exactly the chain graph in both directions, and the loop check says whether it has a cycle |
| `Compiler.Initialize` | src/newGraph.cpp:296-405 | on every rooted partition, start-node break, live-out pass, live-in pass and merging, each under its switch, follow each other, each in its rounds and with its outcome as specified; the dependency maps are exactly the chain graph, the final loop check decides whether it has a cycle, and from a well chained input the result is well chained |
| `Compiler.WholeChainsRunInOrder` | src/newGraph.cpp:87-115 | running whole chains in any order that respects the dependencies runs every vertex exactly once, after all its predecessors |
| `Levels.FindChainsLevel` | src/newGraph.cpp:195-222 | the recursive labelling ends on an acyclic chain graph; labels only rise, to lengths of walks, and every raised label is passed on along all edges |
| `Levels.RelaxedGivesLevels` | src/newGraph.cpp:195-222 | labels that start at -1 and are closed under passing on are the longest-path lengths |
| `Levels.ChainLevels` | src/newGraph.cpp:800-845 | every chain gets its longest-path length from chain 0, or -1 when chain 0 does not lead to it |
| `Levels.LevelRises` | src/newGraph.cpp:195-222 | along every dependency of a reached chain the level rises |
| `Levels.FindGraphLevel` | src/newGraph.cpp:1622-1655 | the vertex labelling, which out of vertex 0 follows only children of in-degree 1, ends and relaxes every edge that it follows |
| `Levels.GraphLevels` | src/newGraph.cpp:555-566 | the labels are the longest-path lengths along followed edges; they are those of the whole graph exactly when every child of vertex 0 has in-degree 1 or a reached parent other than vertex 0 |
| `Levels.LevelsIffCovered` | src/newGraph.cpp:1622-1655 | the same equivalence for any labelling along the followed edges |
| `Levels.SimpleGraphsCovered` | src/newGraph.cpp:1622-1655 | in a graph without parallel edges that vertex 0 reaches, the condition holds, so every vertex gets its longest-path length |
| `Levels.ParallelEdgesMissed` | src/newGraph.cpp:1622-1655 | two parallel edges from vertex 0 to vertex 1 break the condition: vertex 1 is at distance 1, but its label stays -1 |
| `Lanes.RunLaneKeeps` | src/Lane.cpp:242-270 | a cycle keeps retired + executing + fetched + queued instructions as one sequence, at most one instruction executing, and no counter running without one; retirement adds the executing instruction |
| `Lanes.LaneWorkDrops` | src/Lane.cpp:125-270 | without memory waits every cycle of a lane that holds an instruction takes away work, and an empty lane stays as it is |
| `Lanes.TimeToRetire` | src/Lane.cpp:125-237 | an issued load or store retires after the L1, L2 or L3 miss latency in mode 0, 1 or 2, and in mode 3 not before it is woken, one cycle later; any other instruction retires after its latency; each takes at least one cycle, and none retires earlier |
| `Lanes.TimeToIssue` | src/Lane.cpp:63-92 | a fetched instruction that nothing is in the way of is issued four cycles later, not earlier |
| `Lanes.LaneQueues.constructor` | src/Lane.cpp:7-9 | the queues shared by the lanes start empty |
| `Lanes.Lane.constructor` | src/Lane.cpp:35-54 | a new lane is empty |
| `Lanes.Lane.SetExeCounter` | src/Lane.cpp:27-29 | only the execution counter changes |
| `Lanes.Lane.LoadInstructionQueue` | src/Lane.cpp:35-54 | the chain's instructions join the queue in order and the chain joins the loaded ones |
| `Lanes.Lane.Fetch` | src/Lane.cpp:63-92 | with no fetch delay left the first queued instruction is fetched and the delay restarts |
| `Lanes.Lane.UpdateCounter` | src/Lane.cpp:242-259 | the counters go down by one where they are positive |
| `Lanes.Lane.Execute` | src/Lane.cpp:125-237 | retirement, issue, latency by memory mode, the finished-chain report for every retired instruction, and the memory request in mode 3 |
| `Lanes.Lane.Run` | src/Lane.cpp:264-270 | a cycle counts, executes and fetches in this order, and appends exactly its own reports and requests to the shared queues |
| `Lanes.Lane.IsFree` | src/Lane.cpp:293-298 | free means both counters zero and empty queue and execution stack, whatever was fetched |
| `MemorySystem.AccessedKeeps` | src/Memory.cpp:77-114 | issuing keeps credits plus outstanding lines at 10, the outstanding lines equal to those of the issued requests, and issued before unissued within a line |
| `MemorySystem.BufferedKeeps` | src/Memory.cpp:50-64 | buffering a request of a new node keeps the same invariant |
| `MemorySystem.ResponseMatchesIssued` | src/Memory.cpp:161-177 | a returned line always finds a request, that request was issued and is of that line, and exactly that request is removed |
| `MemorySystem.RespondedKeeps` | src/Memory.cpp:134-155 | one response keeps the invariant and removes one node from the buffer |
| `MemorySystem.ProcessedKeeps` | src/Memory.cpp:134-155 | the responses of a cycle answer as many different nodes, exactly those that leave the buffer, and return as many credits |
| `MemorySystem.LinesAre64Bytes` | src/Memory.cpp:118-131 | addresses are in one line exactly when they agree above their lowest six bits |
| `MemorySystem.TenAtATime` | src/Memory.cpp:77-114 | at most ten requests are with Ruby at a time |
| `MemorySystem.Memory.constructor` | src/Memory.cpp:3-16 | an empty buffer with ten credits |
| `MemorySystem.Memory.SendReq` | src/Memory.cpp:50-64 | the access of the node is appended unissued, nothing else changes |
| `MemorySystem.Memory.Access` | src/Memory.cpp:77-114 | the first ready unissued request, if there is a credit, is issued; the answer says whether one was |
| `MemorySystem.Memory.FindRequest` | src/Memory.cpp:161-177 | the first buffered request in the line |
| `MemorySystem.Memory.Remove` | src/Memory.cpp:134-155 | all requests equal to the given one, issue flag aside, are removed |
| `MemorySystem.Memory.TakeResponse` | src/Memory.cpp:143-152 | one returned line gives a credit back, reports the node of the request it finds and removes that request |
| `MemorySystem.Memory.ProcessMshr` | src/Memory.cpp:134-155 | the returned lines are taken in order and the answered nodes reported; the invariant is kept |
| `MemorySystem.Memory.RecvResp` | src/Memory.cpp:69-72 | issuing comes before the responses are taken |
| `Machine.RequestsAscend` | src/Core.cpp:316-326 | the requests of a cycle come in the order of the lanes, at most one from each |
| `Machine.SentInOrder` | src/Core.cpp:333-348 | the queued requests join the buffer in their order, unissued, with the kind and address of their nodes |
| `Dispatch.CycleKeeps` | src/Core.cpp:563-597 | every cycle, in every memory mode and whatever Ruby returns, keeps the core invariant: placement, streams, dependency table, and loading after the predecessors have started |
| `Dispatch.RunKeepsInvariant` | src/Core.cpp:563-597 | the invariant holds in every state of every run from a prescheduled start |
| `Dispatch.ClearingKeepsTable` | src/Core.cpp:487-501 | after clearing, the table again holds (c, p) exactly when c depends on p and no instruction of p has retired |
| `Dispatch.StartedByRun` | src/Lane.cpp:130-136 | a cycle starts exactly the chains that the lanes report, one report for every retired instruction |
| `Dispatch.LoadKeepsPlacement` | src/Core.cpp:440-469 | loading a chain keeps the unloaded chains equal to the disjoint union of the buffers, each chain on its own lane once, and each size the sum of its buffer |
| `Dispatch.LoadKeepsRest` | src/Core.cpp:440-469 | loading a chain all of whose predecessors have started keeps streams, table and loading order |
| `Dispatch.InitialKeeps` | src/Core.cpp:190-251 | a prescheduled core with a filled table satisfies the invariant |
| `Dispatch.FinishMeansLoaded` | src/Core.cpp:89-102 | when the core reports finished, every chain was loaded on its lane, the buffers are empty with size 0, and on each lane retired plus fetched instructions are its chains' code in order |
| `Progress.NoDeadlock` | src/Core.cpp:381-480 | with acyclic dependencies and drained lanes, some lane has an eligible chain as long as chains wait |
| `Progress.CycleDrops` | src/Core.cpp:563-597 | without the memory simulator every cycle of an unfinished core takes away work |
| `Progress.WorkAlongRun` | src/Core.cpp:563-597 | after k unfinished cycles at least k units of work are gone |
| `Progress.EveryRunFinishes` | src/ChainSaw.cpp:237-241 | every run finishes within 7 cycles for each instruction, plus its latency, plus one for each chain |
| `Progress.FinishTime` | src/ChainSaw.cpp:237-241 | the loop that runs cycles until one reports finished ends within as many cycles as there is work |
| `Stalls.OwnersAreUnique` | src/Core.cpp:354-373 | in a reachable state every node belongs to one lane |
| `Stalls.SentMatches` | src/Core.cpp:333-348 | after the requests of a cycle are sent, stalled lanes and buffered requests are again for the same nodes |
| `Stalls.ResponsesWake` | src/Core.cpp:354-373 | each returned line wakes exactly the lane that waits for the removed request and hands back one credit; all other lanes are unchanged |
| `Stalls.CycleKeepsStalls` | src/Core.cpp:563-597 | every cycle keeps the match of stalled lanes and requests, together with the credit invariant |
| `Stalls.RunKeepsStalls` | src/Core.cpp:563-597 | both invariants hold in every state of every run in which Ruby returns only lines that it holds |
| `Stalls.StallsMatchRequests` | src/Core.cpp:354-373 | stalled lanes and buffered requests correspond one to one |
| `Finish.RunKeepsTimely` | src/Lane.cpp:242-270 | a lane in which every instruction but the last is short stays in step with the fetch stage: what is fetched is issued as soon as its delay is over, in every memory mode |
| `Finish.LoadKeepsTimely` | src/Lane.cpp:35-54 | a free lane that is in step is empty, and stays in step when it takes a chain whose instructions but the last are short |
| `Finish.TimelyFinishIsComplete` | src/Core.cpp:89-102 | when in every chain no instruction but the last executes for more than three cycles or waits for memory, a finished state of any run, in every memory mode, has loaded every chain and retired every instruction |
| `EarlyFinish.DoomedStays` | src/Lane.cpp:242-270 | a lane that a slow instruction has left behind the fetch stage, or that will meet one before its last instruction, stays so until it is free |
| `EarlyFinish.LoadDooms` | src/Lane.cpp:35-54 | a free lane that takes a chain with a slow instruction before its last one gets into that state |
| `EarlyFinish.SlowProgramLoses` | src/Core.cpp:89-102 | every program with a slow instruction before the end of a chain has a run, on one lane and without dependencies, whose first finished state lacks an instruction |
| `EarlyFinish.FinishCompleteIff` | src/Core.cpp:89-102 | in every memory mode, finished means that every instruction has retired, in all runs with all placements and dependencies, exactly when no chain has a slow instruction before its last one |
| `Order.FirstOfStarted` | src/Lane.cpp:130-136 | when any instruction of a chain has retired, its first one has |
| `Order.SameLane` | src/Lane.cpp:63-237 | of two chains of a lane, everything of the first has retired when an instruction of the second runs |
| `Order.CycleInOrder` | src/Core.cpp:563-597 | every cycle, in every memory mode, keeps the chains of a lane loaded after the chains of the same lane that they depend on |
| `Order.NeededRetired` | src/Core.cpp:563-597 | in every reachable state an instruction that runs, or has retired, comes after a given instruction that is earlier in its chain, is the first of a chain that it depends on, or belongs to such a chain on the same lane |
| `Order.EdgesKeepOrder` | src/Core.cpp:28-84 | from the graph to the run: in every state of every run of a compiled graph the order is kept along every edge inside a chain, out of the first vertex of a chain, or between two chains of one lane |
| `OrderCondition.SlowedLaneStays` | src/Lane.cpp:125-237 | while the slow instruction has at least two cycles left, a cycle of its lane neither retires it nor issues another one, and no other instruction holds up a lane |
| `OrderCondition.RestDrops` | src/Core.cpp:563-597 | while one slow instruction executes, every cycle takes away some of the other work until the other chains are done: no chain waits for an instruction that is not the first of its chain |
| `OrderCondition.Overtaken` | src/Core.cpp:487-501 | in every decomposition, for every instruction that is not the first of its chain and every instruction of another chain, there are latencies, a placement and a run, in every memory mode, in which the second has retired before the first |
| `OrderCondition.OrderKeptIff` | src/Core.cpp:487-501 | in every configuration, instructions run after all that they need in all runs exactly when every edge out of a chain leaves its first vertex |
| `OrderCondition.PathIsOvertaken` | src/Lane.cpp:130-136 | the path 0, 1, 2 in the chains (0, 1) and (2) has runs in which 2 runs before 1 has retired |
| `Timing.NoCycleLost` | src/Core.cpp:563-597 | a lane that is free when the scheduler runs takes a chain in the very cycle in which the last chain starts that a chain of its buffer waits for |
| `Timing.OneInstructionTime` | src/Core.cpp:563-597 | from the first cycle to the first that reports finished, a program of one instruction takes six cycles and the latency of the instruction, at least one, in every memory mode |
| `Steps.ReachableStays` | src/Core.cpp:563-597 | cycles lead from reachable states to reachable states |
| `Steps.StepsReady` | src/Core.cpp:563-597 | in a reachable state every request has a memory-map entry, every finished chain a table column, and every buffered chain a table row, so no step of the cycle can fail |
| `Greedy.FindMinimum` | src/Core.cpp:8-20 | the first position of the least value |
| `Greedy.GreedySpread` | src/Core.cpp:230-251 | under greedy placement any two loads differ by at most the longest chain |
| `Greedy.GreedyBound` | src/Core.cpp:230-251 | lanes times any load is at most the total plus (lanes - 1) times the longest chain |
| `Greedy.GrahamBound` | src/Core.cpp:230-251 | lanes times any greedy load is at most (2 * lanes - 1) times the maximal load of any other assignment |
| `Greedy.BuildChainLevel` | src/newGraph.cpp:903-908 | for every level exactly its chains, in ascending order |
| `Greedy.LevelOrder` | src/Core.cpp:205-228 | all chains once, by level and within a level by id, with level -1 last as an unsigned number |
| `Greedy.LevelOrderIsTopological` | src/Core.cpp:205-228 | when chain 0 reaches every chain, the order never puts a chain before one that it depends on |
| `Greedy.AssignmentPreschedules` | src/Core.cpp:230-251 | any placement of all chains, each once, satisfies what a run needs: buffers disjoint and complete, sizes the sums of their buffers |
| `Blocks.WriteKeeps` | src/newGraph.cpp:932-994 | writing the block of a chain that has none keeps the count of one write for each touched chain and the bound of the bypass counts |
| `Blocks.SingleParentUntouched` | src/newGraph.cpp:954-966 | a chain with chain 0 and one other parent has no block before that parent is visited, so the unconditional write is its only one |
| `Blocks.JoinBlock` | src/newGraph.cpp:961-975 | the child takes over its parent's block; only for the first such child the bypass count stays as it is |
| `Blocks.OpenBlock` | src/newGraph.cpp:976-994 | the child gets a new block with a bypass count of one |
| `Blocks.VisitChild` | src/newGraph.cpp:952-997 | one child: joins, opens or keeps a block, and the block invariants hold with one more visited edge |
| `Blocks.VisitChain` | src/newGraph.cpp:949-998 | all children of a chain are visited, in any order |
| `Blocks.VisitRoot` | src/newGraph.cpp:932-945 | chain 0 takes block 0 and gives each child of level 1 a block of its own |
| `Blocks.AssignBlocks` | src/newGraph.cpp:914-1001 | every chain has its block written exactly once, only chain 0 is in block 0, every block is a tree whose members beside its opener are children of a member and of chain 0 alone, a chain left out of its parent's block found it full, and each bypass count is one more than the extra heirs of its block and at most max(1, BLOCK_LIMIT) |
| `Blocks.FindBlock` | src/newGraph.cpp:1005-1008 | the first block with the number, or the end |
| `Blocks.CollectBlocks` | src/newGraph.cpp:1003-1020 | each block lists exactly the chains of its number, in ascending order, no two blocks have the same number, and the blocks are in the order of their first chains |
| `Blocks.BlocksPartition` | src/newGraph.cpp:1003-1020 | the blocks hold every chain exactly once |
| `CoreObject.Core.constructor` | include/Core.hpp:91-100 | a cleared table and empty lanes |
| `CoreObject.BuiltIsInputs` | src/Core.cpp:46-73 | chains get their numbers as ids exactly when no chain but the first is empty, since the id is set with each instruction |
| `CoreObject.Core.BuildChains` | src/Core.cpp:28-84 | every vertex of chain i becomes an instruction of chain i with the latency of its opcode, in order; a chain has the id i, or 0 if it is empty; the fan-out is taken over |
| `CoreObject.Core.InitializeDepenTable` | src/Core.cpp:190-199 | the table gets a one for every dependency and keeps its other entries |
| `CoreObject.Core.Preschedule` | src/Core.cpp:204-251 | the chains are placed greedily in level order, and buffers and sizes are those of this placement |
| `CoreObject.Core.BlockPreschedule` | src/Core.cpp:622-647 | block b goes as a whole to lane b modulo the number of lanes |
| `CoreObject.Core.RunOneCycleCore` | src/Core.cpp:316-326 | all lanes run once, in order, on the shared queues |
| `CoreObject.Core.SendMemoryReq` | src/Core.cpp:333-348 | every queued request is recorded for its lane and buffered, in order |
| `CoreObject.Core.FindRequester` | src/Core.cpp:366-369 | the first lane whose last request was for the node |
| `CoreObject.Core.UpdateMemExe` | src/Core.cpp:354-373 | for every answered node the first lane whose last request was for it goes on |
| `CoreObject.Core.ClearColumn` | src/Core.cpp:487-501 | exactly the entries of the finished chain's dependents are cleared |
| `CoreObject.Core.UpdateChains` | src/Core.cpp:487-501 | every reported chain clears its dependents' entries |
| `CoreObject.Core.RowStatus` | src/Core.cpp:416-420 | the sum of a table row is zero exactly when the chain waits for no chain |
| `CoreObject.Core.FindEligible` | src/Core.cpp:415-425 | the first chain of the buffer that waits for nothing |
| `CoreObject.Core.FindInput` | src/Core.cpp:450-454 | the first waiting chain with the id |
| `CoreObject.Core.LoadOne` | src/Core.cpp:440-469 | the chain leaves its buffer, the waiting chains and the size of the buffer, its lane is noted, and its instructions join the lane |
| `CoreObject.Core.OfferChain` | src/Core.cpp:396-472 | a free lane takes the first eligible chain of its buffer, which leaves the buffer, its size and the waiting chains |
| `CoreObject.Core.OooScheduler` | src/Core.cpp:381-480 | the lanes are offered chains one after the other |
| `CoreObject.Core.IsFinished` | src/Core.cpp:89-102 | nothing waits and every lane is free |
| `CoreObject.Core.RunACycle` | src/Core.cpp:563-597 | the five steps in this order are one step of the state machine, and are possible in every reachable state |
| `CoreObject.Core.RunWithRuby` | src/ChainSaw.cpp:237-241 | in every memory mode, given what Ruby does in each cycle, the loop follows the run of the state machine and stops in its first finished state, or when no more is known of Ruby |
| `CoreObject.Core.RunToFinish` | src/ChainSaw.cpp:237-241 | without the memory simulator the loop ends; its number of cycles is that of the first cycle that leaves a finished state, its final state the one after so many cycles, and both are within the bound; every instruction has retired when no chain has a slow instruction before its last one |
| `Simulator.CompiledProgram` | src/Core.cpp:28-84 | well chained chains give a program with nonempty chains, matching chain ids and acyclic dependencies, in which every vertex has its node, its opcode and the latency of that opcode |
| `Simulator.CompiledNodesDistinct` | src/Core.cpp:28-84 | when vertices keep different node ids, different instructions are different nodes, as the memory side needs |
| `Simulator.LoadChunk` | src/ChainSaw.cpp:229-235 | the core holds the whole program, its table and its dependencies, and every chain has its level; nothing is placed yet |
| `Simulator.PlaceByLevel` | src/Core.cpp:204-251 | greedy placement in level order leaves every chain in one buffer, once, with the sizes adding up; the buffers are those of that assignment |
| `Simulator.PlaceByBlock` | src/Core.cpp:622-647 | the blocks are placed as wholes, block b on lane b modulo the number of lanes; every chain is in one buffer, once, with the sizes adding up |
| `Simulator.PrepareChunk` | src/ChainSaw.cpp:229-235 | compiled chains, loaded into a cleared core, are placed greedily by level when the scheduler switch is off and by block when it is on, and are then a prescheduled initial state |
| `Simulator.SimulateChunk` | src/ChainSaw.cpp:229-241 | from compiled chains to the finished core: the chains are placed as the scheduler switch says, the core runs to the first cycle that leaves a finished state, whose number is returned and within the bound, every chain was loaded on its lane, and every instruction has retired when no chain has a slow instruction before its last one |
| `PathCovers.PathStepsMatch` | include/DilworthDecomposition.hpp:33-47 | the steps of any partition into paths are a matching |
| `PathCovers.PartitionVertices` | include/DilworthDecomposition.hpp:86-92 | a partition into k paths has n - k steps |
| `PathCovers.PathsAtLeast` | include/DilworthDecomposition.hpp:33-84 | no partition into paths has fewer than n - M paths, M the size of a maximum matching |
| `PathCovers.MatchingGivesPaths` | include/DilworthDecomposition.hpp:33-84 | on an acyclic graph every matching m is the set of steps of a partition into n - m paths |
| `Dilworth.FollowChain` | include/DilworthDecomposition.hpp:58-71 | from a matched vertex the mates are followed, each new vertex joins the chain, and their entries are nulled |
| `Dilworth.ScanAll` | include/DilworthDecomposition.hpp:52-84 | the repeated scan over the mate map gives the chains of one scan and a chain of its own for every vertex left over |
| `Dilworth.ExtractedPaths` | include/DilworthDecomposition.hpp:52-92 | the extraction is an exact partition into nonempty paths along graph edges, all of whose steps are in the matching |
| `Dilworth.ExtractedCount` | include/DilworthDecomposition.hpp:52-84 | it has at least n - M chains, and exactly n - M exactly when no chain starts in the middle of a matched path |
| `Dilworth.UpwardStartsAtFronts` | include/DilworthDecomposition.hpp:57-71 | when vertex numbers increase along edges, no chain starts in the middle of a matched path |
| `Dilworth.ExtractedIsMinimalIff` | include/DilworthDecomposition.hpp:29-95 | from a maximum matching of an acyclic graph the extraction has the least possible number of chains exactly when no chain starts in the middle of a matched path |
| `Dilworth.ExtractedOrder` | include/DilworthDecomposition.hpp:52-84 | the chains along mates come first, in ascending order of their first vertices, then the vertices left over as chains of their own, in ascending order |
| `Dilworth.NotAlwaysMinimal` | include/DilworthDecomposition.hpp:52-84 | on 1 -> 0 -> 2 both edges are a maximum matching, but the extraction from it gives two chains although one path covers all vertices |
| `Dilworth.GenerateMinimalChains` | include/DilworthDecomposition.hpp:29-95 | the whole extraction from a mate map: an exact partition into paths with the number of chains as above |
| `PrioHeap.RootIsMinimum` | gems-lib/common/PrioHeap.h:167-172 | in heap order no element comes before the first |
| `PrioHeap.VerifyDecides` | gems-lib/common/PrioHeap.h:199-217 | the recursive test of a subtree is true exactly when every element of the subtree comes after its parent |
| `PrioHeap.VerifyRootDecides` | gems-lib/common/PrioHeap.h:193-217 | verifyHeap decides heap order |
| `PrioHeap.SiftUp` | gems-lib/common/PrioHeap.h:159-163 | moving an element up keeps heap order everywhere but at its new place |
| `PrioHeap.SiftDown` | gems-lib/common/PrioHeap.h:219-252 | exchanging an element with the child that comes first keeps heap order everywhere but below its new place |
| `PrioHeap.Heap.constructor` | gems-lib/common/PrioHeap.h:82-88 | a new heap is empty |
| `PrioHeap.Heap.SetSize` | gems-lib/common/Vector.h:176-187 | the vector keeps the elements within the new size; new slots hold anything |
| `PrioHeap.Heap.Insert` | gems-lib/common/PrioHeap.h:146-165 | heap order is kept and exactly the key is added to the multiset |
| `PrioHeap.Heap.PeekMin` | gems-lib/common/PrioHeap.h:167-172 | a least element |
| `PrioHeap.Heap.ExtractMin` | gems-lib/common/PrioHeap.h:181-191 | a least element is returned, exactly it leaves the multiset, and heap order is kept |
| `PrioHeap.Heap.Heapify` | gems-lib/common/PrioHeap.h:219-252 | an order that fails only below the first element becomes heap order, with the same elements |
| `PrioHeap.Heap.VerifyHeap` | gems-lib/common/PrioHeap.h:193-217 | the answer is whether the heap is in order |
| `PrioHeap.DrainSorted` | gems-lib/ruby_clean/recorder/CacheRecorder.C:77-96 | inserting everything and extracting everything returns the same elements by time |
| `Bank.SearchForRow` | gems-lib/ruby_clean/DRAM/Bank.C:71-84 | the node of the first cell with the row, or null when there is none |
| `Bank.PutKeepsRowsDifferent` | gems-lib/ruby_clean/DRAM/Bank.C:110-148 | writing leaves no row twice in a list |
| `Bank.LookupAfterPut` | gems-lib/ruby_clean/DRAM/Bank.C:87-148 | after a write the row reads back the new data and every other row what it read before |
| `Bank.StoresLastWritten` | gems-lib/ruby_clean/DRAM/Bank.C:87-148 | after any run of writes, to the columns in any order, no column stores a row twice, and every row of every column reads what was last written to it there, or what it read before |
| `Bank.Bank.constructor` | gems-lib/ruby_clean/DRAM/Bank.C:49-51 | nothing is stored |
| `Bank.Bank.Read` | gems-lib/ruby_clean/DRAM/Bank.C:87-107 | the packet becomes a data packet with the stored buffer, or with a fresh zero buffer that starts with 0xdeadbeef |
| `Bank.Bank.Write` | gems-lib/ruby_clean/DRAM/Bank.C:110-148 | a column out of bounds is an error that changes nothing; otherwise exactly the cell of the row and column gets the packet's buffer |
| `Bank.Bank.Prepend` | gems-lib/ruby_clean/DRAM/Bank.C:125-136 | a new node at the head of the list, all columns else unchanged |
| `Bank.Bank.Overwrite` | gems-lib/ruby_clean/DRAM/Bank.C:137-147 | new data in the found node, all else unchanged |
| `AddressMapping.ShiftRightDivides` | gems-lib/ruby_clean/DRAM/AddressMapping.C:58-80 | the right shift by k bits is the quotient by 2^k, and the low bits are the remainder |
| `AddressMapping.ShiftLeftMultiplies` | gems-lib/ruby_clean/DRAM/AddressMapping.C:93-95 | the left shift by k bits is the product with 2^k, before the word cuts it off |
| `AddressMapping.XorLeavesLow` | gems-lib/ruby_clean/DRAM/AddressMapping.C:93-96 | a number exclusive-or its bits above w leaves its lowest w bits |
| `AddressMapping.JoinOfSplit` | gems-lib/ruby_clean/DRAM/AddressMapping.C:91-297 | fields split off one after the other fit their widths and join to the number, as far as the widths reach |
| `AddressMapping.SplitOfJoin` | gems-lib/ruby_clean/DRAM/AddressMapping.C:91-297 | fields that fit their widths come back from their joined number |
| `AddressMapping.RecomposesIff` | gems-lib/ruby_clean/DRAM/AddressMapping.C:58-297 | for each of the seven schemes the fields of an address are in range, and recompose to the address exactly when it is aligned and within the capacity |
| `AddressMapping.ComposeMapsBack` | gems-lib/ruby_clean/DRAM/AddressMapping.C:91-297 | every combination of fields in range is the image of an address within the capacity |
| `AddressMapping.MappingIsInjective` | gems-lib/ruby_clean/DRAM/AddressMapping.C:91-297 | no two aligned addresses within the capacity have the same fields |
| `AddressMapping.FieldsPlaced` | gems-lib/ruby_clean/DRAM/AddressMapping.C:91-297 | for each of the seven schemes, which bits of the address are the channel, the rank, the bank, the row and the column: the quotient by a power of two, modulo a power of two |
| `AddressMapping.TakeField` | gems-lib/ruby_clean/DRAM/AddressMapping.C:93-96 | the 64-bit shifts, the exclusive or and the truncation to 32 bits take exactly the lowest bits off the address |
| `AddressMapping.AddressMapping` | gems-lib/ruby_clean/DRAM/AddressMapping.C:36-311 | the five fields are the numbers in the bits where the scheme places them; an unknown scheme is an error |

## Left out

- File and console input and output, parameter and instruction files, command line, printers and statistics: no algorithm in them.
- The matching algorithm of Boost and the inside of Ruby: taken as a maximum matching and as an environment.
- `decode` and its counter: the stage is not part of the lane's cycle.
- `checkLiveOutLimit` and `checkLiveInLimit`: not called.
- `createChains`: the labels that give the first decomposition are an input; it must be an exact partition with the root in front of chain 0, in a graph whose vertices the root all reaches. What the core and the levels rest on also needs forward chains and an acyclic chain graph, which the passes then keep.
- The ILP graph and its statistics, and the communication counters of block scheduling.
- Several chunks with state carried from one to the next: one chunk on a cleared core is modelled.
- Termination with the memory simulator (mode 3): it depends on Ruby answering; the safety properties, with what finished means and the order of instructions, are proved there too.
- Wrap-around of 32-bit counters: latencies, sizes and counters are unbounded numbers here, so levels, loads and delays of 2^31 and more are not modelled.
- `chaintoLane`, the stall counters, the current chain and opcode of a lane and the return value of `LoadInstructionQueue`: written but not read by the modelled code, except for `chainToLane`, which is kept.
- Lanes.Lane.LoadInstructionQueue: the free space that it returns, the current chain and the decode counter are left out, for the reason above.
- CoreObject.Core.BuildChains: the live-in and live-out sets of a chain are left out; nothing in the modelled code reads them, and the dependencies are taken from the fan-out.
- EarlyFinish.FinishCompleteIff: with the memory simulator, different instructions must be different nodes and memory instructions must have an entry in the memory map.
- CoreObject.Core.RunToFinish: runs without the memory simulator only, which always end; CoreObject.Core.RunWithRuby is the loop for every mode.
- Simulator.SimulateChunk: runs without the memory simulator only, since the whole chunk need not end with it; there, Simulator.PrepareChunk and CoreObject.Core.RunWithRuby follow each other.
- Stalls.RunKeepsStalls: asks for different nodes in different instructions; Simulator.CompiledNodesDistinct shows when compiled programs have them.
- PrioHeap.Heap.Insert: heap indices are unbounded numbers; more than 2^31 elements are not modelled. The order of elements of equal time is left open, as it is in the source.
- Bank.Bank.Read: the source does not look for a column out of bounds here, so it is excluded. The size of a fresh buffer is a parameter of at least one word.
- AddressMapping.AddressMapping: the bit widths are parameters of at most 32; the logarithm that computes them is not part of this model, nor is the warning about unaligned addresses.
- PrioHeap.DrainSorted: stands for the callers that insert and then extract; their records and output are not modelled.
