/**
 One chunk of the simulation (src/ChainSaw.cpp): the compiled chains are loaded into a
 cleared core, prescheduled, and run cycle by cycle until the core is finished.
 */
module Simulator {
  import opened Sequences
  import opened Digraph
  import opened Chains
  import opened Merging
  import opened Levels
  import opened Lanes
  import opened MemorySystem
  import opened Machine
  import opened Dispatch
  import opened Progress
  import opened Stalls
  import opened Greedy
  import opened Finish
  import opened CoreObject
  import Blocks

  /** Compiled chains are a program for the core: nonempty, with their own ids, and acyclic dependencies between them. */
  lemma CompiledProgram(g: Graph, chains: seq<seq<nat>>, unique: map<nat, set<nat>>, nodeMap: map<nat, nat>,
                        opcode: seq<string>, latency: map<string, nat>)
    requires WellChained(g, chains) && MapEdges(unique) == ChainEdges(g, chains)
    requires Described(chains, opcode, latency)
    ensures var prog := ProgramOf(chains, nodeMap, opcode, latency);
            && |prog| == |chains| && ProgramOk(prog) && NonemptyChains(prog)
            && DepsWithin(unique, |prog|) && Acyclic(MapEdges(unique))
    ensures var prog := ProgramOf(chains, nodeMap, opcode, latency);
            forall c, k :: 0 <= c < |chains| && 0 <= k < |chains[c]| ==>
                             var v, ins := chains[c][k], prog[c][k];
                             && |prog[c]| == |chains[c]| && ins.cId == c && ins.op == opcode[v]
                             && ins.latency == latency[opcode[v]] && (v in nodeMap ==> ins.oldId == nodeMap[v])
  {
    var prog := ProgramOf(chains, nodeMap, opcode, latency);
    forall p: nat, c: nat | Dep(unique, p, c)
      ensures p < |prog| && c < |prog|
    {
      MapEdge(unique, p, c);
      ChainEdge(g, chains, p, c);
    }
  }

  ghost predicate InjectiveOn(g: Graph, nodeMap: map<nat, nat>)
  {
    && (forall v: nat :: v < |g.out| ==> v in nodeMap)
    && (forall u: nat, v: nat :: u < |g.out| && v < |g.out| && nodeMap[u] == nodeMap[v] ==> u == v)
  }

  /** When vertices keep different node ids, the program has the distinct nodes that the memory side needs. */
  lemma CompiledNodesDistinct(g: Graph, chains: seq<seq<nat>>, nodeMap: map<nat, nat>,
                              opcode: seq<string>, latency: map<string, nat>)
    requires Partition(g, chains) && Described(chains, opcode, latency) && InjectiveOn(g, nodeMap)
    ensures DistinctNodes(ProgramOf(chains, nodeMap, opcode, latency))
  {
    var prog := ProgramOf(chains, nodeMap, opcode, latency);
    forall c, d, a: Instr, b: Instr | 0 <= c < |prog| && 0 <= d < |prog| && a in prog[c] && b in prog[d] && a.oldId == b.oldId
      ensures c == d
    {
      var i :| 0 <= i < |prog[c]| && prog[c][i] == a;
      var j :| 0 <= j < |prog[d]| && prog[d][j] == b;
      assert chains[c][i] in chains[c] && chains[d][j] in chains[d];
    }
  }

  /** The chains of the program, their dependencies and their levels; nothing is placed on a lane yet. */
  method LoadChunk(core: Core, g: Graph, chains: seq<seq<nat>>, unique: map<nat, set<nat>>, nodeMap: map<nat, nat>,
                   opcode: seq<string>, latency: map<string, nat>, ghost root: nat)
    returns (level: array<int>)
    requires core.Shape() && core.View() == Cleared(core.numLanes)
    requires Mergeable(g, chains, root) && MapEdges(unique) == ChainEdges(g, chains)
    requires |chains| <= MAX_NUM_CHAIN && Described(chains, opcode, latency)
    modifies core`inputChain, core`numChains, core`unDependencies, core.depenTable
    ensures core.Shape() && core.numChains == |chains| && fresh(level) && level.Length == |chains|
    ensures AllLevels(MapEdges(unique), 0, level[..])
    ensures var prog := ProgramOf(chains, nodeMap, opcode, latency);
            core.View() == Cleared(core.numLanes).(pending := InitialPending(unique), deps := unique, inputs := Inputs(prog))
  {
    ghost var prog := ProgramOf(chains, nodeMap, opcode, latency);
    CompiledProgram(g, chains, unique, nodeMap, opcode, latency);
    core.BuildChains(chains, nodeMap, opcode, latency, unique);
    BuiltIsInputs(prog);
    assert [] + Inputs(prog) == Inputs(prog);
    core.InitializeDepenTable();
    ChainsWithin(g, chains, unique);
    level := ChainLevels(unique, |chains|);
  }

  // ---------- Placing the chains ----------

  /** The buffers are those of the greedy assignment of all chains in the order of their levels. */
  ghost predicate LevelPlan(prog: seq<seq<Instr>>, level: seq<int>, lanes: nat, buffers: seq<seq<nat>>,
                            order: seq<nat>, at: seq<nat>)
  {
    && |level| == |prog| && IsLevelOrder(level, order)
    && Assignment(order, at, lanes) && IsGreedy(prog, order, at, lanes) && buffers == BuffersOf(order, at, lanes)
  }

  ghost predicate ByLevel(prog: seq<seq<Instr>>, level: seq<int>, lanes: nat, buffers: seq<seq<nat>>)
  {
    exists order, at :: LevelPlan(prog, level, lanes, buffers, order, at)
  }

  /** The blocks into which the chains are grouped. */
  ghost predicate Grouped(unique: map<nat, set<nat>>, reverse: map<nat, set<nat>>, limit: nat, n: nat,
                          blocks: seq<Blocks.Block>, ids: seq<nat>, pass: map<nat, nat>, t: Blocks.Trees)
  {
    && |ids| == n && (forall c: nat :: c < n ==> ids[c] in pass && (ids[c] == 0 <==> c == 0))
    && (forall b :: b in pass ==> pass[b] <= Blocks.MaxPass(limit))
    && Blocks.BlockTrees(reverse, MapEdges(unique), limit, ids, pass, t) && Blocks.PassCounts(ids, pass, t)
    && Blocks.BlocksList(ids, n, blocks)
  }

  /** Block `b` is on lane `b` modulo the number of lanes, and the blocks of a lane follow each other there. */
  ghost predicate BlockPlan(blocks: seq<Blocks.Block>, lanes: nat, buffers: seq<seq<nat>>)
  {
    && lanes > 0
    && buffers == BuffersOf(Blocks.Flat(Blocks.Lists(blocks)), BlockLanes(Blocks.Lists(blocks), lanes), lanes)
    && forall b, c :: 0 <= b < |blocks| && c in blocks[b].chains ==> c in buffers[b % lanes]
  }

  ghost predicate ByBlock(unique: map<nat, set<nat>>, reverse: map<nat, set<nat>>, limit: nat, n: nat, lanes: nat,
                          buffers: seq<seq<nat>>)
  {
    exists blocks, ids, pass, t :: Grouped(unique, reverse, limit, n, blocks, ids, pass, t) && BlockPlan(blocks, lanes, buffers)
  }

  /** How the chains are placed under the switch of the scheduler. */
  ghost predicate Placed(prog: seq<seq<Instr>>, unique: map<nat, set<nat>>, reverse: map<nat, set<nat>>,
                         blockScheduling: bool, limit: nat, lanes: nat, buffers: seq<seq<nat>>)
  {
    if blockScheduling then ByBlock(unique, reverse, limit, |prog|, lanes, buffers)
    else exists level :: AllLevels(MapEdges(unique), 0, level) && ByLevel(prog, level, lanes, buffers)
  }

  lemma {:induction false} BlockInBuffer(lists: seq<seq<nat>>, lanes: nat, b: nat, c: nat)
    requires lanes > 0 && b < |lists| && c in lists[b]
    ensures c in BufferOf(Blocks.Flat(lists), BlockLanes(lists, lanes), b % lanes)
    decreases |lists|
  {
    var n := |lists| - 1;
    var flat, at := Blocks.Flat(lists[..n]), BlockLanes(lists[..n], lanes);
    var k: nat;
    if b == n {
      var i :| 0 <= i < |lists[n]| && lists[n][i] == c;
      k := |flat| + i;
    } else {
      BlockInBuffer(lists[..n], lanes, b, c);
      BufferMembers(flat, at, b % lanes, c);
      k :| k < |flat| && flat[k] == c && at[k] == b % lanes;
    }
    assert Blocks.Flat(lists)[k] == c && BlockLanes(lists, lanes)[k] == b % lanes;
    BufferMembers(Blocks.Flat(lists), BlockLanes(lists, lanes), b % lanes, c);
  }

  lemma BlocksPlanned(blocks: seq<Blocks.Block>, lanes: nat, buffers: seq<seq<nat>>)
    requires lanes > 0
    requires buffers == BuffersOf(Blocks.Flat(Blocks.Lists(blocks)), BlockLanes(Blocks.Lists(blocks), lanes), lanes)
    ensures BlockPlan(blocks, lanes, buffers)
  {
    forall b, c | 0 <= b < |blocks| && c in blocks[b].chains
      ensures c in buffers[b % lanes]
    {
      BlockInBuffer(Blocks.Lists(blocks), lanes, b, c);
    }
  }

  /** Level scheduling: greedily, in the order of the levels. */
  method PlaceByLevel(core: Core, level: seq<int>, ghost prog: seq<seq<Instr>>) returns (ghost home: seq<nat>)
    requires core.Shape() && core.numLanes > 0 && core.inputChain == Inputs(prog) && |level| == |prog|
    requires core.Assigned(prog, [], [])
    modifies core`lanePreSchedule, core.lanePreScheduleSize
    ensures core.Shape() && Prescheduled(prog, home, core.lanePreSchedule, core.Sizes())
    ensures ByLevel(prog, level, core.numLanes, core.lanePreSchedule)
  {
    var order;
    ghost var at;
    order, at := core.Preschedule(level, prog);
    LevelOrderDistinct(level, order);
    home := AssignmentPreschedules(prog, order, at, core.numLanes);
    assert LevelPlan(prog, level, core.numLanes, core.lanePreSchedule, order, at);
  }

  /** Block scheduling: block by block. */
  method PlaceByBlock(core: Core, unique: map<nat, set<nat>>, reverse: map<nat, set<nat>>, level: seq<int>, limit: nat,
                      ghost prog: seq<seq<Instr>>)
    returns (ghost home: seq<nat>)
    requires core.Shape() && core.numLanes > 0 && core.inputChain == Inputs(prog) && |level| == |prog|
    requires Blocks.Prepared(unique, reverse, level) && core.Assigned(prog, [], [])
    modifies core`lanePreSchedule, core.lanePreScheduleSize
    ensures core.Shape() && Prescheduled(prog, home, core.lanePreSchedule, core.Sizes())
    ensures ByBlock(unique, reverse, limit, |prog|, core.numLanes, core.lanePreSchedule)
  {
    var ids, writes, pass, t := Blocks.AssignBlocks(unique, reverse, level, limit);
    var blocks := Blocks.CollectBlocks(ids);
    var lists := Blocks.Lists(blocks);
    assert Grouped(unique, reverse, limit, |prog|, blocks, ids[..], pass, t);
    Blocks.BlocksPartition(ids[..], blocks);
    BlockChainsWithin(ids[..], blocks);
    core.BlockPreschedule(lists, prog);
    home := AssignmentPreschedules(prog, Blocks.Flat(lists), BlockLanes(lists, core.numLanes), core.numLanes);
    BlocksPlanned(blocks, core.numLanes, core.lanePreSchedule);
  }

  /** The core before its first cycle. */
  method PrepareChunk(core: Core, g: Graph, chains: seq<seq<nat>>, unique: map<nat, set<nat>>,
                      reverse: map<nat, set<nat>>, nodeMap: map<nat, nat>, opcode: seq<string>,
                      latency: map<string, nat>, blockScheduling: bool, limit: nat, ghost root: nat)
    returns (ghost home: seq<nat>)
    requires core.Shape() && core.numLanes > 0 && core.View() == Cleared(core.numLanes)
    requires Mergeable(g, chains, root) && MapEdges(unique) == ChainEdges(g, chains)
    requires forall p: nat, c: nat :: (c in reverse && p in reverse[c]) <==> (p, c) in MapEdges(unique)
    requires |chains| <= MAX_NUM_CHAIN && Described(chains, opcode, latency)
    requires blockScheduling ==> |chains| > 1
    modifies core, core.depenTable, core.lanePreScheduleSize
    ensures core.Shape() && core.numChains == |chains|
    ensures var prog := ProgramOf(chains, nodeMap, opcode, latency);
            && Prescheduled(prog, home, core.lanePreSchedule, core.Sizes())
            && Placed(prog, unique, reverse, blockScheduling, limit, core.numLanes, core.lanePreSchedule)
            && core.View() == InitialState(prog, unique, core.lanePreSchedule, core.Sizes())
  {
    ghost var prog := ProgramOf(chains, nodeMap, opcode, latency);
    var level := LoadChunk(core, g, chains, unique, nodeMap, opcode, latency, root);
    NothingPlaced(core, prog);
    if blockScheduling {
      ChainsWithin(g, chains, unique);
      AllReached(g, chains, unique, root);
      home := PlaceByBlock(core, unique, reverse, level[..], limit, prog);
    } else {
      home := PlaceByLevel(core, level[..], prog);
    }
  }

  lemma NothingPlaced(core: Core, prog: seq<seq<Instr>>)
    requires core.Shape() && core.lanePreSchedule == seq(core.numLanes, _ => []) && core.Sizes() == seq(core.numLanes, _ => 0)
    ensures core.Assigned(prog, [], [])
  {
    assert core.lanePreSchedule == BuffersOf([], [], core.numLanes);
    assert core.Sizes() == LaneLoads(prog, [], [], core.numLanes);
  }

  function Cleared(n: nat): CoreState
  {
    CoreState(seq(n, _ => EMPTY_LANE), [], [], {}, map[], [], seq(n, _ => []), seq(n, _ => 0), map[], EMPTY_MEMORY)
  }

  lemma ChainsWithin(g: Graph, chains: seq<seq<nat>>, unique: map<nat, set<nat>>)
    requires MapEdges(unique) == ChainEdges(g, chains)
    ensures WithinNodes(MapEdges(unique), |chains|)
  {
    forall u, c | (u, c) in MapEdges(unique)
      ensures u < |chains| && c < |chains|
    {
      ChainEdge(g, chains, u, c);
    }
  }

  lemma AllReached(g: Graph, chains: seq<seq<nat>>, unique: map<nat, set<nat>>, root: nat)
    requires Mergeable(g, chains, root) && MapEdges(unique) == ChainEdges(g, chains)
    ensures forall c: nat :: c < |chains| ==> Reaches(MapEdges(unique), 0, c)
  {
    assert chains[0][0] in chains[0];
    forall c: nat | c < |chains|
      ensures Reaches(MapEdges(unique), 0, c)
    {
      AllChainsReached(g, chains, root, c);
    }
  }

  lemma BlockChainsWithin(ids: seq<nat>, blocks: seq<Blocks.Block>)
    requires Blocks.BlocksList(ids, |ids|, blocks)
    ensures forall b, c :: 0 <= b < |Blocks.Lists(blocks)| && c in Blocks.Lists(blocks)[b] ==> c < |ids|
  {
    forall b, c | 0 <= b < |Blocks.Lists(blocks)| && c in Blocks.Lists(blocks)[b]
      ensures c < |ids|
    {
      assert Blocks.BlockOk(ids, |ids|, blocks[b]);
    }
  }

  lemma LevelOrderDistinct(level: seq<int>, order: seq<nat>)
    requires IsLevelOrder(level, order)
    ensures NoRepeats(order)
    ensures forall c: nat :: c in order <==> c < |level|
  {
    forall i, j | 0 <= i < j < |order|
      ensures order[i] != order[j]
    {
      assert Comes(level, order[i], order[j]);
    }
  }

  // ---------- Running ----------

  /** Runs a prepared core until it is finished. */
  method RunChunk(core: Core, ghost prog: seq<seq<Instr>>, ghost unique: map<nat, set<nat>>, ghost home: seq<nat>)
    returns (cycles: nat)
    requires core.Shape() && core.numLanes > 0 && core.cfg.mode != 3 && core.numChains == |prog| > 0
    requires ProgramOk(prog) && NonemptyChains(prog) && DepsWithin(unique, |prog|) && Acyclic(MapEdges(unique))
    requires Prescheduled(prog, home, core.lanePreSchedule, core.Sizes())
    requires core.View() == InitialState(prog, unique, core.lanePreSchedule, core.Sizes())
    modifies core, core.depenTable, core.lanePreScheduleSize, core.shared, core.memory, core.lanes
    ensures core.Shape() && core.P() == old(core.P())
    ensures core.View() == After(core.P(), old(core.View()), cycles) && FinishesAfter(core.P(), old(core.View()), cycles)
    ensures cycles <= Bound(core.cfg, prog)
    ensures Timely(core.cfg, prog) ==> AllRetired(prog, core.View())
    ensures |home| == |prog| && forall c :: 0 <= c < |prog| ==>
                                              home[c] < |core.lanes| && c in core.lanes[home[c]].schChainsList
  {
    InitialRunnable(prog, unique, home, core.P(), core.lanePreSchedule, core.Sizes());
    StartsTimely(prog, unique, home, core.P(), core.lanePreSchedule, core.Sizes());
    assert core.View().inputs == Inputs(prog) && |Inputs(prog)| == |prog|;
    cycles := core.RunToFinish(prog, unique, home);
    FinishMeansLoaded(prog, unique, home, core.cfg, core.View());
  }

  /**
   A whole chunk without the memory simulator: the chains are placed as the scheduler says, and the core
   runs cycle by cycle to the first finished state, within seven cycles for every instruction, its
   latency, and one for every chain.
   */
  method SimulateChunk(core: Core, g: Graph, chains: seq<seq<nat>>, unique: map<nat, set<nat>>,
                       reverse: map<nat, set<nat>>, nodeMap: map<nat, nat>, opcode: seq<string>,
                       latency: map<string, nat>, blockScheduling: bool, limit: nat, ghost root: nat)
    returns (cycles: nat, ghost home: seq<nat>, ghost buffers: seq<seq<nat>>, ghost sizes: seq<int>)
    requires core.Shape() && core.numLanes > 0 && core.View() == Cleared(core.numLanes) && core.cfg.mode != 3
    requires Mergeable(g, chains, root) && MapEdges(unique) == ChainEdges(g, chains)
    requires forall p: nat, c: nat :: (c in reverse && p in reverse[c]) <==> (p, c) in MapEdges(unique)
    requires |chains| <= MAX_NUM_CHAIN && Described(chains, opcode, latency)
    requires blockScheduling ==> |chains| > 1
    modifies core, core.depenTable, core.lanePreScheduleSize, core.shared, core.memory, core.lanes
    ensures core.Shape() && core.numChains == |chains|
    ensures var prog := ProgramOf(chains, nodeMap, opcode, latency);
            var start := InitialState(prog, unique, buffers, sizes);
            && Prescheduled(prog, home, buffers, sizes)
            && Placed(prog, unique, reverse, blockScheduling, limit, core.numLanes, buffers)
            && core.View() == After(core.P(), start, cycles) && FinishesAfter(core.P(), start, cycles)
            && cycles <= Bound(core.cfg, prog) && (Timely(core.cfg, prog) ==> AllRetired(prog, core.View()))
    ensures |home| == |chains| && forall c :: 0 <= c < |chains| ==>
                                                home[c] < |core.lanes| && c in core.lanes[home[c]].schChainsList
  {
    ghost var prog := ProgramOf(chains, nodeMap, opcode, latency);
    home := PrepareChunk(core, g, chains, unique, reverse, nodeMap, opcode, latency, blockScheduling, limit, root);
    buffers, sizes := core.lanePreSchedule, core.Sizes();
    CompiledProgram(g, chains, unique, nodeMap, opcode, latency);
    cycles := RunChunk(core, prog, unique, home);
  }
}
