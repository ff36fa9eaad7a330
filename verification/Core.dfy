/**
 The core object (src/Core.cpp): the steps of a cycle, each proved against the state
 machine, and the loop that repeats cycles until the core is finished.
 */
module CoreObject {
  import opened Lanes
  import opened MemorySystem
  import opened Machine
  import opened Dispatch
  import opened Progress
  import opened Finish
  import opened Steps
  import opened Greedy
  import Blocks

  const MAX_NUM_CHAIN := 700

  method NewLanes(n: nat, cfg: Config, shared: LaneQueues) returns (lanes: seq<Lane>)
    ensures |lanes| == n
    ensures forall i :: 0 <= i < n ==> fresh(lanes[i]) && lanes[i].laneId == i && lanes[i].cfg == cfg
                                       && lanes[i].shared == shared && lanes[i].View() == EMPTY_LANE
    ensures forall i, j :: 0 <= i < j < n ==> lanes[i] != lanes[j]
  {
    lanes := [];
    for i := 0 to n
      invariant |lanes| == i
      invariant forall k :: 0 <= k < i ==> fresh(lanes[k]) && lanes[k].laneId == k && lanes[k].cfg == cfg
                                           && lanes[k].shared == shared && lanes[k].View() == EMPTY_LANE
      invariant forall k, j :: 0 <= k < j < i ==> lanes[k] != lanes[j]
    {
      var lane := new Lane(i, cfg, shared);
      lanes := lanes + [lane];
    }
  }

  // ---------- Programs ----------

  /** Every vertex has an opcode with a latency. */
  ghost predicate Described(decomChains: seq<seq<nat>>, opcode: seq<string>, latency: map<string, nat>)
  {
    forall i, k :: 0 <= i < |decomChains| && 0 <= k < |decomChains[i]| ==>
                     decomChains[i][k] < |opcode| && opcode[decomChains[i][k]] in latency
  }

  /** The instructions of the chains: every vertex of chain `i` becomes an instruction of chain `i`. */
  ghost function ProgramOf(decomChains: seq<seq<nat>>, nodeMap: map<nat, nat>, opcode: seq<string>,
                           latency: map<string, nat>): seq<seq<Instr>>
    requires Described(decomChains, opcode, latency)
  {
    seq(|decomChains|, i requires 0 <= i < |decomChains| =>
      seq(|decomChains[i]|, k requires 0 <= k < |decomChains[i]| =>
        var v := decomChains[i][k];
        Instr(i, if v in nodeMap then nodeMap[v] else 0, opcode[v], latency[opcode[v]])))
  }

  /** The chains as they wait for a lane; a chain takes its number from its instructions, and without any it is 0. */
  ghost function BuiltChains(prog: seq<seq<Instr>>): seq<Chain>
  {
    seq(|prog|, i requires 0 <= i < |prog| => Chain(if prog[i] == [] then 0 else i, prog[i]))
  }

  /** Exactly the programs without an empty chain behind the first get every chain under its number. */
  lemma BuiltIsInputs(prog: seq<seq<Instr>>)
    ensures BuiltChains(prog) == Inputs(prog) <==> forall i :: 1 <= i < |prog| ==> prog[i] != []
  {
    if i :| 1 <= i < |prog| && prog[i] == [] {
      assert BuiltChains(prog)[i].id != Inputs(prog)[i].id;
    }
  }

  // ---------- Assignments, step by step ----------

  /** The lanes of the chains of all blocks: block `b` goes to lane b % lanes. */
  ghost function BlockLanes(blocks: seq<seq<nat>>, lanes: nat): (r: seq<nat>)
    requires lanes > 0
    ensures |r| == |Blocks.Flat(blocks)| && forall k :: 0 <= k < |r| ==> r[k] < lanes
  {
    if blocks == [] then []
    else
      var b := |blocks| - 1;
      BlockLanes(blocks[..b], lanes) + seq(|blocks[b]|, _ => b % lanes)
  }

  lemma BlockLanesStep(blocks: seq<seq<nat>>, lanes: nat, b: nat)
    requires lanes > 0 && b < |blocks|
    ensures BlockLanes(blocks[..b + 1], lanes) == BlockLanes(blocks[..b], lanes) + seq(|blocks[b]|, _ => b % lanes)
    ensures Blocks.Flat(blocks[..b + 1]) == Blocks.Flat(blocks[..b]) + blocks[b]
  {
    assert blocks[..b + 1][..b] == blocks[..b];
  }

  lemma AppendAssigned(prog: seq<seq<Instr>>, order: seq<nat>, at: seq<nat>, lanes: nat, c: nat, l: nat)
    requires |order| == |at| && l < lanes
    ensures BuffersOf(order + [c], at + [l], lanes)
            == BuffersOf(order, at, lanes)[l := BuffersOf(order, at, lanes)[l] + [c]]
    ensures LaneLoads(prog, order + [c], at + [l], lanes)
            == LaneLoads(prog, order, at, lanes)[l := LaneLoads(prog, order, at, lanes)[l] + Weight(prog, c)]
  {
    var o, a := order + [c], at + [l];
    assert o[..|o| - 1] == order && a[..|o| - 1] == at;
    forall m: nat | m < lanes
      ensures BufferOf(o, a, m) == BufferOf(order, at, m) + if m == l then [c] else []
      ensures Load(prog, o, a, m) == Load(prog, order, at, m) + if m == l then Weight(prog, c) else 0
    {
    }
    assert forall m :: 0 <= m < lanes ==> BufferOf(order, at, m) + [] == BufferOf(order, at, m);
  }

  lemma AssignStep(prog: seq<seq<Instr>>, order: seq<nat>, at: seq<nat>, lanes: nat, k: nat, l: nat)
    requires |at| == k < |order| && l < lanes
    requires IsGreedy(prog, order[..k], at, lanes) && FirstMin(LaneLoads(prog, order[..k], at, lanes), l)
    ensures IsGreedy(prog, order[..k + 1], at + [l], lanes)
    ensures BuffersOf(order[..k + 1], at + [l], lanes)
            == BuffersOf(order[..k], at, lanes)[l := BuffersOf(order[..k], at, lanes)[l] + [order[k]]]
    ensures LaneLoads(prog, order[..k + 1], at + [l], lanes)
            == LaneLoads(prog, order[..k], at, lanes)[l := LaneLoads(prog, order[..k], at, lanes)[l] + Weight(prog, order[k])]
  {
    assert order[..k + 1] == order[..k] + [order[k]];
    AppendAssigned(prog, order[..k], at, lanes, order[k], l);
    forall i | 0 <= i < k + 1
      ensures FirstMin(LaneLoads(prog, order[..k + 1][..i], (at + [l])[..i], lanes), (at + [l])[i])
    {
      assert order[..k + 1][..i] == order[..k][..i] && (at + [l])[..i] == at[..i];
      assert i == k ==> order[..k][..i] == order[..k] && at[..i] == at;
    }
  }

  // ---------- Running the lanes, step by step ----------

  /** The lanes after the first `i` of them have run. */
  ghost function Ran(cfg: Config, views: seq<LaneState>, i: nat): seq<LaneState>
    requires i <= |views|
  {
    RunAll(cfg, views[..i]) + views[i..]
  }

  lemma RanAtStart(cfg: Config, views: seq<LaneState>)
    ensures Ran(cfg, views, 0) == views && views[..0] == []
  {
  }

  lemma RanAtEnd(cfg: Config, views: seq<LaneState>)
    ensures Ran(cfg, views, |views|) == RunAll(cfg, views) && views[..|views|] == views
  {
    assert views[..|views|] == views;
  }

  lemma RanStep(cfg: Config, views: seq<LaneState>, i: nat, finished: seq<nat>, requests: seq<(nat, nat)>)
    requires i < |views|
    ensures Ran(cfg, views, i)[i] == views[i]
    ensures Ran(cfg, views, i)[i := RunLane(cfg, views[i])] == Ran(cfg, views, i + 1)
    ensures finished + AllFinishes(views[..i]) + Finishes(views[i]) == finished + AllFinishes(views[..i + 1])
    ensures requests + AllRequests(cfg, views[..i]) + Requests(cfg, i, views[i])
            == requests + AllRequests(cfg, views[..i + 1])
  {
    assert views[..i + 1][..i] == views[..i];
    assert RunAll(cfg, views[..i + 1]) == RunAll(cfg, views[..i]) + [RunLane(cfg, views[i])];
  }

  /** The first finished state from state `k` on; the number of states if there is none. */
  ghost function FirstDone(states: seq<CoreState>, k: nat): nat
    requires k <= |states|
    decreases |states| - k
  {
    if k == |states| || IsFinish(states[k]) then k else FirstDone(states, k + 1)
  }

  class Core {
    const cfg: Config
    const numLanes: nat
    const numIter: nat
    const depenTable: array2<nat>
    const lanePreScheduleSize: array<int>
    const shared: LaneQueues
    const memory: Memory
    const lanes: seq<Lane>
    var lanePreSchedule: seq<seq<nat>>
    var inputChain: seq<Chain>
    var numChains: nat
    var memReqMap: map<nat, nat>
    var unDependencies: map<nat, set<nat>>
    var chainToLane: map<nat, nat>

    // ---------- Abstraction ----------

    ghost predicate Shape()
      reads this
    {
      && depenTable.Length0 == MAX_NUM_CHAIN && depenTable.Length1 == MAX_NUM_CHAIN
      && lanePreScheduleSize.Length == MAX_NUM_CHAIN
      && numLanes == |lanes| <= MAX_NUM_CHAIN
      && |lanePreSchedule| == numLanes
      && numChains <= MAX_NUM_CHAIN
      && (forall i :: 0 <= i < |lanes| ==> lanes[i].laneId == i && lanes[i].cfg == cfg && lanes[i].shared == shared)
      && (forall i, j :: 0 <= i < j < |lanes| ==> lanes[i] != lanes[j])
    }

    ghost function LaneViews(): (r: seq<LaneState>)
      reads lanes
      ensures |r| == |lanes| && forall i :: 0 <= i < |lanes| ==> r[i] == lanes[i].View()
    {
      seq(|lanes|, i requires 0 <= i < |lanes| reads lanes => lanes[i].View())
    }

    /** The ones of the dependency table. */
    ghost function Pending(): set<(nat, nat)>
      reads depenTable
    {
      set c, p | 0 <= c < depenTable.Length0 && 0 <= p < depenTable.Length1 && depenTable[c, p] != 0 :: (c, p)
    }

    ghost function Sizes(): seq<int>
      requires numLanes <= lanePreScheduleSize.Length
      reads lanePreScheduleSize
    {
      lanePreScheduleSize[..numLanes]
    }

    ghost function View(): CoreState
      requires Shape()
      reads this, depenTable, lanePreScheduleSize, shared, memory, lanes
    {
      CoreState(LaneViews(), shared.finishedChains, shared.memReqQueue, Pending(), unDependencies, inputChain,
                lanePreSchedule, Sizes(), memReqMap, memory.View())
    }

    /** The accesses of this iteration. */
    ghost function Access(): map<nat, (bool, nat)>
    {
      map k | k in memory.addrMap && k.0 == numIter :: k.1 := memory.addrMap[k]
    }

    ghost function P(): Params
      reads this
    {
      Params(cfg, Access(), numChains)
    }

    /** A core with cleared tables and empty lanes. */
    constructor (n: nat, cfg: Config, numIter: nat, addrMap: map<(nat, nat), (bool, nat)>)
      requires n <= MAX_NUM_CHAIN
      ensures Shape() && fresh(depenTable) && fresh(lanePreScheduleSize) && fresh(shared) && fresh(memory)
      ensures fresh(set i | 0 <= i < |lanes| :: lanes[i])
      ensures this.cfg == cfg && numLanes == n && this.numIter == numIter && memory.addrMap == addrMap
      ensures View() == CoreState(seq(n, _ => EMPTY_LANE), [], [], {}, map[], [], seq(n, _ => []), seq(n, _ => 0),
                                  map[], EMPTY_MEMORY)
    {
      this.cfg, numLanes, this.numIter := cfg, n, numIter;
      depenTable := new nat[MAX_NUM_CHAIN, MAX_NUM_CHAIN]((_, _) => 0);
      lanePreScheduleSize := new int[MAX_NUM_CHAIN](_ => 0);
      var queues := new LaneQueues();
      shared := queues;
      memory := new Memory(addrMap);
      var row := NewLanes(n, cfg, queues);
      lanes := row;
      lanePreSchedule := seq(n, _ => []);
      inputChain, numChains, memReqMap, unDependencies, chainToLane := [], MAX_NUM_CHAIN, map[], map[], map[];
      new;
      assert LaneViews() == seq(n, _ => EMPTY_LANE) && Pending() == {} && Sizes() == seq(n, _ => 0);
    }

    // ---------- Setting up a chunk ----------

    /** Chains with their instructions and dependencies. */
    method BuildChains(decomChains: seq<seq<nat>>, nodeMap: map<nat, nat>, opcode: seq<string>,
                       latency: map<string, nat>, unique: map<nat, set<nat>>)
      requires Shape() && |inputChain| + |decomChains| <= MAX_NUM_CHAIN && Described(decomChains, opcode, latency)
      modifies this`inputChain, this`numChains, this`unDependencies
      ensures Shape() && unDependencies == unique && numChains == |inputChain|
      ensures inputChain == old(inputChain) + BuiltChains(ProgramOf(decomChains, nodeMap, opcode, latency))
    {
      ghost var prog := ProgramOf(decomChains, nodeMap, opcode, latency);
      ghost var built := BuiltChains(prog);
      for i := 0 to |decomChains|
        invariant inputChain == old(inputChain) + built[..i]
      {
        var id := 0;
        var instrs: seq<Instr> := [];
        for k := 0 to |decomChains[i]|
          invariant instrs == prog[i][..k] && id == if k == 0 then 0 else i
        {
          id := i;
          var ins := decomChains[i][k];
          var oldId := if ins in nodeMap then nodeMap[ins] else 0;
          instrs := instrs + [Instr(i, oldId, opcode[ins], latency[opcode[ins]])];
        }
        assert instrs == prog[i] && built[..i + 1] == built[..i] + [built[i]];
        inputChain := inputChain + [Chain(id, instrs)];
      }
      assert built[..|decomChains|] == built;
      unDependencies := unique;
      numChains := |inputChain|;
    }

    /** A one in the table for every dependency. */
    method InitializeDepenTable()
      requires Shape() && DepsWithin(unDependencies, MAX_NUM_CHAIN)
      modifies depenTable
      ensures Pending() == old(Pending()) + InitialPending(unDependencies)
    {
      var sources := unDependencies.Keys;
      while sources != {}
        invariant sources <= unDependencies.Keys
        invariant forall c, p :: 0 <= c < MAX_NUM_CHAIN && 0 <= p < MAX_NUM_CHAIN ==>
                                   depenTable[c, p] == if p !in sources && Dep(unDependencies, p, c) then 1
                                                       else old(depenTable[c, p])
      {
        var p :| p in sources;
        FillColumn(p);
        sources := sources - {p};
      }
      forall c: nat, p: nat
        ensures (c, p) in Pending() <==> (c, p) in old(Pending()) || Dep(unDependencies, p, c)
      {
      }
    }

    method FillColumn(p: nat)
      requires Shape() && p in unDependencies && DepsWithin(unDependencies, MAX_NUM_CHAIN)
      modifies depenTable
      ensures forall c, j :: 0 <= c < MAX_NUM_CHAIN && 0 <= j < MAX_NUM_CHAIN ==>
                               depenTable[c, j] == if j == p && c in unDependencies[p] then 1 else old(depenTable[c, j])
    {
      var todo := unDependencies[p];
      while todo != {}
        invariant todo <= unDependencies[p]
        invariant forall c, j :: 0 <= c < MAX_NUM_CHAIN && 0 <= j < MAX_NUM_CHAIN ==>
                                   depenTable[c, j] == if j == p && c in unDependencies[p] - todo then 1
                                                       else old(depenTable[c, j])
      {
        var c :| c in todo;
        assert Dep(unDependencies, p, c);
        depenTable[c, p] := 1;
        todo := todo - {c};
      }
    }

    /** Chain `c` goes to the end of the buffer of lane `l`. */
    method PlaceChain(l: nat, c: nat, ghost prog: seq<seq<Instr>>)
      requires Shape() && l < numLanes && inputChain == Inputs(prog) && c < |prog|
      modifies this`lanePreSchedule, lanePreScheduleSize
      ensures Shape()
      ensures lanePreSchedule == old(lanePreSchedule)[l := old(lanePreSchedule)[l] + [c]]
      ensures Sizes() == old(Sizes())[l := old(Sizes())[l] + Weight(prog, c)]
    {
      var j := FindInput(c);
      assert inputChain[c].id == c;
      lanePreSchedule := lanePreSchedule[l := lanePreSchedule[l] + [c]];
      lanePreScheduleSize[l] := lanePreScheduleSize[l] + |inputChain[j].instrs|;
    }

    /** The buffers and sizes are those of an assignment of chains to lanes. */
    ghost predicate Assigned(prog: seq<seq<Instr>>, order: seq<nat>, at: seq<nat>)
      requires Shape() && |order| == |at|
      reads this, lanePreScheduleSize
    {
      lanePreSchedule == BuffersOf(order, at, numLanes) && Sizes() == LaneLoads(prog, order, at, numLanes)
    }

    /** Level scheduling: chains by level, each to the first least loaded lane. */
    method Preschedule(level: seq<int>, ghost prog: seq<seq<Instr>>) returns (order: seq<nat>, ghost at: seq<nat>)
      requires Shape() && numLanes > 0 && inputChain == Inputs(prog) && |level| == |prog|
      requires Assigned(prog, [], [])
      modifies this`lanePreSchedule, lanePreScheduleSize
      ensures Shape() && IsLevelOrder(level, order)
      ensures Assignment(order, at, numLanes) && IsGreedy(prog, order, at, numLanes)
      ensures Assigned(prog, order, at)
    {
      order := LevelOrder(level);
      at := [];
      for k := 0 to |order|
        invariant Shape() && |at| == k
        invariant Assignment(order[..k], at, numLanes) && IsGreedy(prog, order[..k], at, numLanes)
        invariant Assigned(prog, order[..k], at)
      {
        var l := FindMinimum(lanePreScheduleSize, numLanes);
        PlaceChain(l, order[k], prog);
        AssignStep(prog, order, at, numLanes, k, l);
        at := at + [l];
      }
      assert order[..|order|] == order;
    }

    /** Block scheduling: whole blocks, one lane after the other. */
    method BlockPreschedule(blocks: seq<seq<nat>>, ghost prog: seq<seq<Instr>>)
      requires Shape() && numLanes > 0 && inputChain == Inputs(prog)
      requires forall b, c :: 0 <= b < |blocks| && c in blocks[b] ==> c < |prog|
      requires Assigned(prog, [], [])
      modifies this`lanePreSchedule, lanePreScheduleSize
      ensures Shape() && Assigned(prog, Blocks.Flat(blocks), BlockLanes(blocks, numLanes))
    {
      for b := 0 to |blocks|
        invariant Shape() && Assigned(prog, Blocks.Flat(blocks[..b]), BlockLanes(blocks[..b], numLanes))
      {
        PlaceBlock(b % numLanes, blocks[b], prog, Blocks.Flat(blocks[..b]), BlockLanes(blocks[..b], numLanes));
        BlockLanesStep(blocks, numLanes, b);
      }
      assert blocks[..|blocks|] == blocks;
    }

    method PlaceBlock(l: nat, block: seq<nat>, ghost prog: seq<seq<Instr>>, ghost order: seq<nat>, ghost at: seq<nat>)
      requires Shape() && l < numLanes && inputChain == Inputs(prog) && forall c :: c in block ==> c < |prog|
      requires |order| == |at| && Assigned(prog, order, at)
      modifies this`lanePreSchedule, lanePreScheduleSize
      ensures Shape() && Assigned(prog, order + block, at + seq(|block|, _ => l))
    {
      ghost var o, a := order, at;
      for k := 0 to |block|
        invariant Shape() && o == order + block[..k] && a == at + seq(k, _ => l)
        invariant Assigned(prog, o, a)
      {
        assert block[k] in block;
        PlaceChain(l, block[k], prog);
        AppendAssigned(prog, o, a, numLanes, block[k], l);
        o, a := o + [block[k]], a + [l];
      }
      assert block[..|block|] == block;
    }

    // ---------- Step 1: running the lanes ----------

    method RunOneLane(i: nat)
      requires Shape() && i < |lanes|
      modifies lanes[i], shared
      ensures LaneViews() == old(LaneViews())[i := RunLane(cfg, old(LaneViews())[i])]
      ensures shared.finishedChains == old(shared.finishedChains) + Finishes(old(LaneViews())[i])
      ensures shared.memReqQueue == old(shared.memReqQueue) + Requests(cfg, i, old(LaneViews())[i])
    {
      lanes[i].Run();
    }

    method RunEachLane()
      requires Shape()
      modifies lanes, shared
      ensures LaneViews() == RunAll(cfg, old(LaneViews()))
      ensures shared.finishedChains == old(shared.finishedChains) + AllFinishes(old(LaneViews()))
      ensures shared.memReqQueue == old(shared.memReqQueue) + AllRequests(cfg, old(LaneViews()))
    {
      ghost var views, finished, requests := LaneViews(), shared.finishedChains, shared.memReqQueue;
      ghost var now, fin, req := views, finished, requests;
      RanAtStart(cfg, views);
      for i := 0 to |lanes|
        invariant LaneViews() == now && shared.finishedChains == fin && shared.memReqQueue == req
        invariant now == Ran(cfg, views, i)
        invariant fin == finished + AllFinishes(views[..i])
        invariant req == requests + AllRequests(cfg, views[..i])
      {
        RanStep(cfg, views, i, finished, requests);
        RunOneLane(i);
        now, fin, req := now[i := RunLane(cfg, views[i])], fin + Finishes(views[i]), req + Requests(cfg, i, views[i]);
      }
      RanAtEnd(cfg, views);
    }

    /** All lanes run once, on the shared queues. */
    method RunOneCycleCore()
      requires Shape()
      modifies lanes, shared
      ensures View() == RunCore(P(), old(View()))
    {
      RunEachLane();
    }

    // ---------- Step 2: sending memory requests ----------

    method SendMemoryReq()
      requires Shape()
      requires forall q :: q in shared.memReqQueue ==> q.1 in Access()
      modifies this`memReqMap, memory, shared`memReqQueue
      ensures Shape() && View() == SendRequests(P(), old(View()))
    {
      ghost var access := Access();
      ghost var mem, queue := memory.View(), shared.memReqQueue;
      while shared.memReqQueue != []
        invariant memory.View() == mem && shared.memReqQueue == queue
        invariant forall q :: q in queue ==> q.1 in access
        invariant SentMap(memReqMap, queue) == SentMap(old(memReqMap), old(shared.memReqQueue))
        invariant SentMem(access, mem, queue) == SentMem(access, old(memory.View()), old(shared.memReqQueue))
        decreases |shared.memReqQueue|
      {
        var (laneId, nodeId) := shared.memReqQueue[0];
        shared.memReqQueue := shared.memReqQueue[1..];
        memReqMap := memReqMap[laneId := nodeId];
        AccessEntry(nodeId);
        memory.SendReq(numIter, nodeId);
        mem, queue := Buffered(mem, access[nodeId].0, nodeId, access[nodeId].1), queue[1..];
      }
    }

    lemma AccessEntry(n: nat)
      ensures n in Access() <==> (numIter, n) in memory.addrMap
      ensures n in Access() ==> Access()[n] == memory.addrMap[(numIter, n)]
    {
      if (numIter, n) in memory.addrMap {
        assert (numIter, n).0 == numIter && (numIter, n).1 == n;
      }
    }

    // ---------- Step 3: waking lanes ----------

    method FindRequester(n: nat) returns (l: nat)
      ensures l == Requester(memReqMap, n, 0, |lanes|)
    {
      l := 0;
      while l < |lanes| && !(l in memReqMap && memReqMap[l] == n)
        invariant l <= |lanes|
        invariant Requester(memReqMap, n, 0, |lanes|) == Requester(memReqMap, n, l, |lanes|)
      {
        l := l + 1;
      }
    }

    method WakeLane(l: nat)
      requires Shape() && l < |lanes|
      modifies lanes[l]
      ensures LaneViews() == old(LaneViews())[l := old(LaneViews())[l].(exeCnt := 0)]
    {
      lanes[l].SetExeCounter(0);
    }

    method WakeLanes(nodes: seq<nat>)
      requires Shape()
      modifies lanes
      ensures LaneViews() == Woken(old(LaneViews()), memReqMap, nodes)
    {
      var rest := nodes;
      ghost var views := LaneViews();
      while rest != []
        invariant LaneViews() == views
        invariant Woken(views, memReqMap, rest) == Woken(old(LaneViews()), memReqMap, nodes)
        decreases |rest|
      {
        var l := FindRequester(rest[0]);
        if l < |lanes| {
          WakeLane(l);
        }
        views := WokenOne(views, memReqMap, rest[0]);
        rest := rest[1..];
      }
    }

    /** The lane of every answered node goes on; with requests as the core makes them, one is always found. */
    method UpdateMemExe(ready: set<nat>, responses: seq<nat>)
      requires Shape() && MemOk(memory.View())
      requires multiset(responses) <= Accessed(memory.View(), ready).outstanding
      modifies memory, lanes
      ensures View() == UpdateMemory(old(View()), Env(ready, responses))
    {
      var nodes := memory.RecvResp(ready, responses);
      assert LaneViews() == old(LaneViews());
      WakeLanes(nodes);
    }

    // ---------- Step 4: clearing dependencies ----------

    /** One finished chain no longer holds up its dependents. */
    method ClearColumn(p: nat, dependents: set<nat>)
      requires Shape() && p < MAX_NUM_CHAIN && forall c :: c in dependents ==> c < MAX_NUM_CHAIN
      modifies depenTable
      ensures Pending() == set q | q in old(Pending()) && !(q.1 == p && q.0 in dependents)
    {
      var todo := dependents;
      while todo != {}
        invariant todo <= dependents
        invariant forall c, j :: 0 <= c < MAX_NUM_CHAIN && 0 <= j < MAX_NUM_CHAIN ==>
                                   depenTable[c, j] == if j == p && c in dependents - todo then 0 else old(depenTable[c, j])
      {
        var c :| c in todo;
        depenTable[c, p] := 0;
        todo := todo - {c};
      }
    }

    method UpdateChains()
      requires Shape()
      requires forall p :: p in shared.finishedChains ==> p < MAX_NUM_CHAIN
      requires forall p, c :: p in unDependencies && c in unDependencies[p] ==> c < MAX_NUM_CHAIN
      modifies this`unDependencies, depenTable, shared`finishedChains
      ensures Shape() && View() == Machine.UpdateChains(old(View()))
    {
      ghost var pending, deps, finished := Pending(), unDependencies, shared.finishedChains;
      ghost var n := 0;
      while shared.finishedChains != []
        invariant n <= |finished| && shared.finishedChains == finished[n..]
        invariant unDependencies == TouchedDeps(deps, finished[..n])
        invariant Pending() == ClearedPending(pending, deps, finished[..n])
        decreases |shared.finishedChains|
      {
        var p := shared.finishedChains[0];
        assert p == finished[n] && p in finished;
        shared.finishedChains := shared.finishedChains[1..];
        if p !in unDependencies {
          unDependencies := unDependencies[p := {}];
        }
        TouchedStep(deps, finished[..n], p);
        ClearedStep(pending, deps, finished[..n], p);
        ClearColumn(p, unDependencies[p]);
        assert finished[..n + 1] == finished[..n] + [p];
        n := n + 1;
      }
      assert finished[..n] == finished;
    }

    lemma TouchedStep(deps: map<nat, set<nat>>, done: seq<nat>, p: nat)
      ensures var before := TouchedDeps(deps, done);
              var touched := if p in before then before else before[p := {}];
              touched == TouchedDeps(deps, done + [p]) && touched[p] == if p in deps then deps[p] else {}
    {
    }

    lemma ClearedStep(pending: set<(nat, nat)>, deps: map<nat, set<nat>>, done: seq<nat>, p: nat)
      ensures (set q | q in ClearedPending(pending, deps, done) && !(q.1 == p && p in deps && q.0 in deps[p]))
              == ClearedPending(pending, deps, done + [p])
    {
    }

    // ---------- Step 5: scheduling ----------

    lemma PendingAt(c: nat, p: nat)
      requires c < depenTable.Length0 && p < depenTable.Length1
      ensures (c, p) in Pending() <==> depenTable[c, p] != 0
    {
    }

    /** The sum of a row of the dependency table is zero exactly when the chain waits for nothing. */
    method RowStatus(c: nat) returns (status: nat)
      requires Shape() && c < MAX_NUM_CHAIN
      ensures status == 0 <==> Eligible(Pending(), numChains, c)
    {
      status := 0;
      for j := 0 to numChains
        invariant status == 0 <==> Eligible(Pending(), j, c)
      {
        PendingAt(c, j);
        status := status + depenTable[c, j];
      }
    }

    method FindEligible(buffer: seq<nat>) returns (k: nat)
      requires Shape() && forall c :: c in buffer ==> c < MAX_NUM_CHAIN
      ensures k == FirstEligible(Pending(), numChains, buffer)
    {
      k := 0;
      while k < |buffer|
        invariant k <= FirstEligible(Pending(), numChains, buffer)
      {
        assert buffer[k] in buffer;
        var status := RowStatus(buffer[k]);
        if status == 0 {
          return;
        }
        k := k + 1;
      }
    }

    method FindInput(id: nat) returns (j: nat)
      ensures j == FindChain(inputChain, id)
    {
      j := 0;
      while j < |inputChain| && inputChain[j].id != id
        invariant j <= FindChain(inputChain, id)
      {
        j := j + 1;
      }
    }

    method FillLane(i: nat, instrs: seq<Instr>, c: nat)
      requires Shape() && i < |lanes|
      modifies lanes[i]
      ensures LaneViews() == old(LaneViews())[i := LoadLane(old(LaneViews())[i], c, instrs)]
    {
      lanes[i].LoadInstructionQueue(instrs, c);
    }

    /** Chain `k` of the buffer of lane `i`, entry `j` of the waiting chains, waits no longer. */
    method TakeOut(i: nat, k: nat, j: nat)
      requires Shape() && i < |lanes| && k < |lanePreSchedule[i]| && j < |inputChain|
      modifies this`lanePreSchedule, this`inputChain, this`chainToLane, lanePreScheduleSize
      ensures Shape()
      ensures lanePreSchedule == old(lanePreSchedule)[i := RemoveAt(old(lanePreSchedule)[i], k)]
      ensures inputChain == RemoveAt(old(inputChain), j)
      ensures Sizes() == old(Sizes())[i := old(Sizes())[i] - |old(inputChain)[j].instrs|]
      ensures chainToLane == old(chainToLane)[old(inputChain)[j].id := i]
    {
      var ch := inputChain[j];
      lanePreSchedule := lanePreSchedule[i := RemoveAt(lanePreSchedule[i], k)];
      lanePreScheduleSize[i] := lanePreScheduleSize[i] - |ch.instrs|;
      chainToLane := chainToLane[ch.id := i];
      inputChain := RemoveAt(inputChain, j);
    }

    /** That chain goes into the lane. */
    method LoadOne(i: nat, k: nat, j: nat)
      requires Shape() && i < |lanes| && k < |lanePreSchedule[i]| && j < |inputChain|
      modifies this`lanePreSchedule, this`inputChain, this`chainToLane, lanePreScheduleSize, lanes[i]
      ensures Shape() && View() == LoadChain(old(View()), i, k, j)
      ensures old(BuffersFit()) ==> BuffersFit()
      ensures chainToLane == old(chainToLane)[old(inputChain)[j].id := i]
    {
      var instrs, c := inputChain[j].instrs, lanePreSchedule[i][k];
      assert forall x :: x in RemoveAt(lanePreSchedule[i], k) ==> x in lanePreSchedule[i];
      TakeOut(i, k, j);
      FillLane(i, instrs, c);
    }

    /** All prescheduled chains have a row in the dependency table. */
    ghost predicate BuffersFit()
      reads this
    {
      forall l, c :: 0 <= l < |lanePreSchedule| && c in lanePreSchedule[l] ==> c < MAX_NUM_CHAIN
    }

    /** Lane `i` takes the first chain of its buffer that waits for nothing, if the lane is free. */
    method OfferChain(i: nat)
      requires Shape() && i < |lanes| && BuffersFit()
      modifies this`lanePreSchedule, this`inputChain, this`chainToLane, lanePreScheduleSize, lanes[i]
      ensures Shape() && View() == ScheduleLane(P(), old(View()), i) && BuffersFit()
    {
      if lanes[i].IsFree() {
        var k := FindEligible(lanePreSchedule[i]);
        if k < |lanePreSchedule[i]| {
          var j := FindInput(lanePreSchedule[i][k]);
          if j < |inputChain| {
            LoadOne(i, k, j);
          }
        }
      }
    }

    method OooScheduler()
      requires Shape() && BuffersFit()
      modifies this`lanePreSchedule, this`inputChain, this`chainToLane, lanePreScheduleSize, lanes
      ensures Shape() && View() == ScheduleLanes(P(), old(View()), |lanes|)
    {
      ghost var start, now, p := View(), View(), P();
      for i := 0 to |lanes|
        invariant Shape() && BuffersFit() && P() == p
        invariant View() == now && now == ScheduleLanes(p, start, i)
      {
        OfferChain(i);
        now := ScheduleLane(p, now, i);
      }
    }

    predicate IsFinished()
      requires Shape()
      reads this, depenTable, lanePreScheduleSize, shared, memory, lanes
      ensures IsFinished() <==> IsFinish(View())
    {
      inputChain == [] && forall i :: 0 <= i < |lanes| ==> lanes[i].IsFree()
    }

    // ---------- A cycle ----------

    /** The lanes run, their requests are buffered, and responses wake lanes. */
    method RunLanes(ready: set<nat>, responses: seq<nat>)
      requires Shape() && EnvOk(P(), View(), Env(ready, responses))
      requires forall q :: q in RunCore(P(), View()).requests ==> q.1 in P().access
      requires MemOk(SendRequests(P(), RunCore(P(), View())).mem)
      modifies this`memReqMap, shared, memory, lanes
      ensures Shape() && P() == old(P())
      ensures View() == UpdateMemory(SendRequests(P(), RunCore(P(), old(View()))), Env(ready, responses))
    {
      RunOneCycleCore();
      ghost var ran := View();
      SendMemoryReq();
      assert View() == SendRequests(P(), ran);
      UpdateMemExe(ready, responses);
    }

    /** The reported chains release their dependents, and free lanes take new chains. */
    method ReleaseAndLoad()
      requires Shape() && BuffersFit()
      requires forall q :: q in shared.finishedChains ==> q < MAX_NUM_CHAIN
      requires forall q, c :: q in unDependencies && c in unDependencies[q] ==> c < MAX_NUM_CHAIN
      modifies this, depenTable, lanePreScheduleSize, shared`finishedChains, lanes
      ensures Shape() && P() == old(P())
      ensures View() == ScheduleLanes(P(), Machine.UpdateChains(old(View())), |lanes|)
    {
      UpdateChains();
      OooScheduler();
    }

    /** One cycle: it is the step of the state machine, and it is possible in every reachable state. */
    method RunACycle(ready: set<nat>, responses: seq<nat>,
                     ghost prog: seq<seq<Instr>>, ghost deps0: map<nat, set<nat>>, ghost home: seq<nat>)
      returns (finished: bool)
      requires Shape() && Reachable(prog, deps0, home, P(), View()) && EnvOk(P(), View(), Env(ready, responses))
      modifies this, depenTable, lanePreScheduleSize, shared, memory, lanes
      ensures Shape() && P() == old(P()) && View() == Cycle(P(), old(View()), Env(ready, responses))
      ensures Reachable(prog, deps0, home, P(), View())
      ensures finished <==> IsFinish(View())
    {
      ghost var s, env := View(), Env(ready, responses);
      StepsReady(prog, deps0, home, P(), s, env);
      RunLanes(ready, responses);
      assert Machine.UpdateChains(View()) == MidCycle(P(), s, env);
      ReleaseAndLoad();
      finished := IsFinished();
    }

    /** Cycle `k` of a run, with what Ruby does in it. */
    method FollowRun(envs: seq<Env>, k: nat, ghost states: seq<CoreState>,
                     ghost prog: seq<seq<Instr>>, ghost deps0: map<nat, set<nat>>, ghost home: seq<nat>)
      returns (finished: bool)
      requires Shape() && k < |envs| && IsRun(P(), states, envs)
      requires View() == states[k] && Reachable(prog, deps0, home, P(), states[0])
      modifies this, depenTable, lanePreScheduleSize, shared, memory, lanes
      ensures Shape() && P() == old(P()) && View() == states[k + 1]
      ensures FirstDone(states, k + 1) == if finished then k + 1 else FirstDone(states, k + 2)
      ensures finished <==> IsFinish(states[k + 1])
    {
      NextOfRun(P(), states, envs, k);
      ReachableInRun(prog, deps0, home, P(), states, envs, k);
      assert Env(envs[k].ready, envs[k].responses) == envs[k];
      finished := RunACycle(envs[k].ready, envs[k].responses, prog, deps0, home);
    }

    /**
     Cycles until the core reports that it is finished, in any memory mode, as long as it is known what
     Ruby does: `states` is the run that this gives.
     */
    method RunWithRuby(envs: seq<Env>, ghost states: seq<CoreState>,
                       ghost prog: seq<seq<Instr>>, ghost deps0: map<nat, set<nat>>, ghost home: seq<nat>)
      returns (cycles: nat, finished: bool)
      requires Shape() && Reachable(prog, deps0, home, P(), View())
      requires IsRun(P(), states, envs) && states[0] == View()
      modifies this, depenTable, lanePreScheduleSize, shared, memory, lanes
      ensures Shape() && P() == old(P()) && cycles <= |envs| && View() == states[cycles]
      ensures finished ==> IsFinish(View())
      ensures FirstDone(states, 1) == if finished then cycles else |states|
      ensures !finished ==> cycles == |envs|
    {
      ghost var p, now, done := P(), View(), FirstDone(states, 1);
      cycles, finished := 0, false;
      while !finished && cycles < |envs|
        invariant cycles <= |envs| && Shape() && P() == p && View() == now && now == states[cycles]
        invariant finished ==> IsFinish(now)
        invariant done == if finished then cycles else FirstDone(states, cycles + 1)
      {
        finished := FollowRun(envs, cycles, states, prog, deps0, home);
        cycles := cycles + 1;
        now := states[cycles];
      }
    }

    /**
     Cycles until the core reports that it is finished.  Without the memory simulator this takes at most as many
     cycles as there is work: seven for every instruction, its latency, and one for every chain.
     */
    method RunToFinish(ghost prog: seq<seq<Instr>>, ghost deps0: map<nat, set<nat>>, ghost home: seq<nat>)
      returns (cycles: nat)
      requires Shape() && Runnable(prog, deps0, home, P(), View())
      modifies this, depenTable, lanePreScheduleSize, shared, memory, lanes
      ensures Shape() && P() == old(P()) && View() == After(P(), old(View()), cycles)
      ensures FinishesAfter(P(), old(View()), cycles) && cycles <= Limit(P(), old(View()))
      ensures CoreInv(prog, deps0, home, cfg, View())
      ensures Timely(cfg, prog) && AllTimely(cfg, old(LaneViews())) ==> AllRetired(prog, View())
    {
      ghost var p, start, now := P(), View(), View();
      ghost var n := FinishTime(prog, deps0, home, p, start);
      cycles := 0;
      var finished := false;
      while !finished
        invariant cycles <= n && Shape() && P() == p && View() == now && now == After(p, start, cycles)
        invariant finished <==> cycles == n
        decreases n - cycles
      {
        RunnableAfter(prog, deps0, home, p, start, cycles);
        SilentRuby(p, now);
        finished := RunACycle({}, [], prog, deps0, home);
        cycles := cycles + 1;
        now := Cycle(p, now, SILENT);
        FinishedOnlyAt(p, start, n, cycles);
      }
      RunnableAfter(prog, deps0, home, p, start, n);
      if Timely(cfg, prog) && AllTimely(cfg, start.lanes) {
        SilentFinishRetires(prog, deps0, home, p, start, n);
      }
    }
  }
}
