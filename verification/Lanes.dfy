/**
 Lanes: the in-order pipelines that run chains (src/Lane.cpp).  A lane is described
 twice: as a value that one cycle maps to the next, on which everything is proved,
 and as the object whose methods update its queues and counters.
 */
module Lanes {
  import opened Sequences

  /** An instruction of a chain: its chain, its node in the original graph, its opcode and its latency. */
  datatype Instr = Instr(cId: nat, oldId: nat, op: string, latency: nat)

  /** The memory mode and the miss latencies of the parameter files. */
  datatype Config = Config(mode: nat, l1: nat, l2: nat, l3: nat)

  const FETCH_DELAY := 4

  predicate IsMemory(ins: Instr)
  {
    ins.op == "Load" || ins.op == "Store"
  }

  /** What the execution counter is set to when an instruction is issued; -1 means waiting for memory. */
  function ExeDelay(cfg: Config, ins: Instr): int
  {
    if IsMemory(ins) then
      match cfg.mode
      case 0 => cfg.l1
      case 1 => cfg.l2
      case 2 => cfg.l3
      case 3 => -1
      case _ => 0
    else ins.latency
  }

  /** `scheduled` lists the chains loaded so far, `retired` the instructions that have left the lane. */
  datatype LaneState = LaneState(queue: seq<Instr>, fetched: seq<Instr>, executing: seq<Instr>,
                                 fetchCnt: nat, exeCnt: int, memoryStall: nat,
                                 scheduled: seq<nat>, retired: seq<Instr>)

  const EMPTY_LANE := LaneState([], [], [], 0, 0, 0, [], [])

  // ---------- One cycle ----------

  function Counted(s: LaneState): LaneState
  {
    s.(fetchCnt := if s.fetchCnt > 0 then s.fetchCnt - 1 else 0,
       exeCnt := if s.exeCnt > 0 then s.exeCnt - 1 else s.exeCnt,
       memoryStall := if s.exeCnt == -1 then s.memoryStall + 1 else s.memoryStall)
  }

  predicate Retires(s: LaneState)
  {
    s.exeCnt == 0 && s.executing != []
  }

  predicate Issues(s: LaneState)
  {
    s.exeCnt == 0 && s.executing == [] && s.fetched != [] && s.fetchCnt == 0
  }

  function Executed(cfg: Config, s: LaneState): LaneState
  {
    if Retires(s) then
      s.(executing := s.executing[1..], retired := s.retired + [s.executing[0]])
    else if Issues(s) then
      s.(executing := [s.fetched[0]], fetched := s.fetched[1..], exeCnt := ExeDelay(cfg, s.fetched[0]))
    else s
  }

  function Fetched(s: LaneState): LaneState
  {
    if s.fetchCnt > 0 || s.queue == [] then s
    else s.(fetched := s.fetched + [s.queue[0]], queue := s.queue[1..], fetchCnt := FETCH_DELAY)
  }

  function RunLane(cfg: Config, s: LaneState): LaneState
  {
    Fetched(Executed(cfg, Counted(s)))
  }

  /** The chain ids that a cycle of the lane reports as finished: one for every retired instruction. */
  function Finishes(s: LaneState): seq<nat>
  {
    if Retires(Counted(s)) then [s.executing[0].cId] else []
  }

  /** The memory requests (lane, node) that a cycle of the lane makes. */
  function Requests(cfg: Config, id: nat, s: LaneState): seq<(nat, nat)>
  {
    if Issues(Counted(s)) && IsMemory(s.fetched[0]) && cfg.mode == 3 then [(id, s.fetched[0].oldId)] else []
  }

  function LoadLane(s: LaneState, chain: nat, instrs: seq<Instr>): LaneState
  {
    s.(queue := s.queue + instrs, scheduled := s.scheduled + [chain])
  }

  /** Free for the scheduler; fetched instructions are not looked at. */
  predicate FreeLane(s: LaneState)
  {
    s.fetchCnt == 0 && s.exeCnt == 0 && s.queue == [] && s.executing == []
  }

  // ---------- What every cycle keeps ----------

  ghost predicate LaneOk(cfg: Config, s: LaneState)
  {
    && |s.executing| <= 1
    && s.exeCnt >= -1
    && (s.exeCnt != 0 ==> s.executing != [])
    && (s.exeCnt == -1 ==> cfg.mode == 3)
  }

  /** Everything the lane was ever given, in program order. */
  ghost function Stream(s: LaneState): seq<Instr>
  {
    s.retired + s.executing + s.fetched + s.queue
  }

  lemma ExecutedKeeps(cfg: Config, c: LaneState)
    requires |c.executing| <= 1
    ensures Stream(Executed(cfg, c)) == Stream(c)
  {
    if Retires(c) {
      assert c.executing == [c.executing[0]];
    } else if Issues(c) {
      assert c.fetched == [c.fetched[0]] + c.fetched[1..];
    }
  }

  lemma FetchedKeeps(e: LaneState)
    ensures Stream(Fetched(e)) == Stream(e)
  {
    if e.queue != [] {
      assert e.queue == [e.queue[0]] + e.queue[1..];
    }
  }

  /** A cycle moves instructions along but loses, repeats and reorders none. */
  lemma RunLaneKeeps(cfg: Config, s: LaneState)
    requires LaneOk(cfg, s)
    ensures LaneOk(cfg, RunLane(cfg, s))
    ensures Stream(RunLane(cfg, s)) == Stream(s)
    ensures RunLane(cfg, s).scheduled == s.scheduled
    ensures RunLane(cfg, s).retired == s.retired + if Retires(Counted(s)) then [s.executing[0]] else []
  {
    ExecutedKeeps(cfg, Counted(s));
    FetchedKeeps(Executed(cfg, Counted(s)));
  }

  // ---------- How long an instruction takes ----------

  ghost function RunLaneFor(cfg: Config, s: LaneState, k: nat): LaneState
  {
    Iterate((t: LaneState) => RunLane(cfg, t), s, k)
  }

  /** The instruction in the execution stage retires after `d` cycles, or after one if that is none, and not before. */
  ghost predicate RetiresAfter(cfg: Config, s: LaneState, d: nat)
  {
    && (forall k: nat :: k < d || k == 0 ==>
                           RunLaneFor(cfg, s, k).executing == s.executing && RunLaneFor(cfg, s, k).retired == s.retired)
    && RunLaneFor(cfg, s, if d == 0 then 1 else d).retired == s.retired + s.executing
  }

  /**
   The instruction in the execution stage stays there until it is woken, and retires a cycle later; every
   cycle counts as a stall.
   */
  ghost predicate RetiresWhenWoken(cfg: Config, s: LaneState)
  {
    forall k: nat ::
      && RunLaneFor(cfg, s, k).executing == s.executing && RunLaneFor(cfg, s, k).retired == s.retired
      && RunLaneFor(cfg, s, k).memoryStall == s.memoryStall + k
      && RunLane(cfg, RunLaneFor(cfg, s, k).(exeCnt := 0)).retired == s.retired + s.executing
  }

  lemma {:induction false} CountsDown(cfg: Config, s: LaneState, k: nat)
    requires |s.executing| == 1 && s.exeCnt >= 0 && (k < s.exeCnt || k == 0)
    ensures var t := RunLaneFor(cfg, s, k);
            t.executing == s.executing && t.retired == s.retired && t.exeCnt == s.exeCnt - k
  {
    if k > 0 {
      CountsDown(cfg, s, k - 1);
    }
  }

  lemma {:induction false} StaysStalled(cfg: Config, s: LaneState, k: nat)
    requires |s.executing| == 1 && s.exeCnt == -1
    ensures var t := RunLaneFor(cfg, s, k);
            t.executing == s.executing && t.retired == s.retired && t.exeCnt == -1 && t.memoryStall == s.memoryStall + k
  {
    if k > 0 {
      StaysStalled(cfg, s, k - 1);
    }
  }

  lemma CountRetires(cfg: Config, s: LaneState, d: nat)
    requires |s.executing| == 1 && s.exeCnt == d
    ensures RetiresAfter(cfg, s, d)
  {
    forall k: nat | k < d || k == 0
      ensures RunLaneFor(cfg, s, k).executing == s.executing && RunLaneFor(cfg, s, k).retired == s.retired
    {
      CountsDown(cfg, s, k);
    }
    var last := if d == 0 then 0 else d - 1;
    CountsDown(cfg, s, last);
    assert s.executing == [s.executing[0]];
  }

  lemma StallRetires(cfg: Config, s: LaneState)
    requires |s.executing| == 1 && s.exeCnt == -1
    ensures RetiresWhenWoken(cfg, s)
  {
    forall k: nat
      ensures RunLaneFor(cfg, s, k).executing == s.executing && RunLaneFor(cfg, s, k).retired == s.retired
      ensures RunLaneFor(cfg, s, k).memoryStall == s.memoryStall + k
      ensures RunLane(cfg, RunLaneFor(cfg, s, k).(exeCnt := 0)).retired == s.retired + s.executing
    {
      StaysStalled(cfg, s, k);
      assert s.executing == [s.executing[0]];
    }
  }

  /**
   From the cycle in which an instruction is issued: a load or store takes the miss latency of
   the memory mode, or waits for an answer in mode 3; any other instruction takes its latency.
   Each takes at least one cycle.
   */
  lemma TimeToRetire(cfg: Config, s: LaneState, ins: Instr)
    requires LaneOk(cfg, s) && s.executing == [] && RunLane(cfg, s).executing == [ins]
    ensures var t, memory := RunLane(cfg, s), ins.op == "Load" || ins.op == "Store";
            && t.retired == s.retired
            && (memory && cfg.mode == 0 ==> RetiresAfter(cfg, t, cfg.l1))
            && (memory && cfg.mode == 1 ==> RetiresAfter(cfg, t, cfg.l2))
            && (memory && cfg.mode == 2 ==> RetiresAfter(cfg, t, cfg.l3))
            && (memory && cfg.mode == 3 ==> RetiresWhenWoken(cfg, t))
            && (memory && cfg.mode > 3 ==> RetiresAfter(cfg, t, 0))
            && (!memory ==> RetiresAfter(cfg, t, ins.latency))
  {
    var t := RunLane(cfg, s);
    assert s.fetched != [] && ins == s.fetched[0] && t.exeCnt == ExeDelay(cfg, ins);
    if t.exeCnt == -1 {
      StallRetires(cfg, t);
    } else {
      CountRetires(cfg, t, t.exeCnt);
    }
  }

  /** A fetched instruction is issued four cycles later, when nothing is in its way. */
  lemma TimeToIssue(cfg: Config, s: LaneState, ins: Instr)
    requires LaneOk(cfg, s) && s.fetched == [] && RunLane(cfg, s).fetched == [ins] && RunLane(cfg, s).executing == []
    ensures var t := RunLane(cfg, s);
            && (forall k: nat :: k < 4 ==> RunLaneFor(cfg, t, k).executing == [] && RunLaneFor(cfg, t, k).fetched == [ins])
            && RunLaneFor(cfg, t, 4).executing == [ins]
  {
    var t := RunLane(cfg, s);
    assert t.fetchCnt == 4 && t.exeCnt == 0;
    assert RunLaneFor(cfg, t, 0) == t;
    forall k: nat | k < 4
      ensures var u := RunLaneFor(cfg, t, k);
              u.executing == [] && u.fetched == [ins] && u.exeCnt == 0 && u.fetchCnt == 4 - k
    {
      WaitsToIssue(cfg, t, ins, k);
    }
  }

  lemma {:induction false} WaitsToIssue(cfg: Config, t: LaneState, ins: Instr, k: nat)
    requires t.executing == [] && t.fetched == [ins] && t.exeCnt == 0 && t.fetchCnt == 4 && k < 4
    ensures var u := RunLaneFor(cfg, t, k);
            u.executing == [] && u.fetched == [ins] && u.exeCnt == 0 && u.fetchCnt == 4 - k
  {
    if k > 0 {
      WaitsToIssue(cfg, t, ins, k - 1);
    }
  }

  // ---------- Work left ----------

  /** Cycles that an instruction occupies the execution stage, apart from its issue and retirement. */
  ghost function Delay(cfg: Config, ins: Instr): nat
  {
    var d := ExeDelay(cfg, ins);
    if d < 0 then 0 else d
  }

  ghost function Work(cfg: Config, each: nat, instrs: seq<Instr>): nat
  {
    if instrs == [] then 0 else each + Delay(cfg, instrs[0]) + Work(cfg, each, instrs[1..])
  }

  lemma {:induction false} WorkConcat(cfg: Config, each: nat, a: seq<Instr>, b: seq<Instr>)
    ensures Work(cfg, each, a + b) == Work(cfg, each, a) + Work(cfg, each, b)
  {
    if a == [] {
      assert a + b == b;
    } else {
      WorkConcat(cfg, each, a[1..], b);
      assert (a + b)[1..] == a[1..] + b;
    }
  }

  /** Seven units and its latency for an instruction that waits, two and its latency once fetched. */
  ghost function LaneWork(cfg: Config, s: LaneState): nat
  {
    Work(cfg, 7, s.queue) + Work(cfg, 2, s.fetched) + s.fetchCnt
    + if s.executing == [] then 0 else 1 + if s.exeCnt > 0 then s.exeCnt else 0
  }

  /** Nothing is left to do in the lane. */
  predicate Drained(s: LaneState)
  {
    FreeLane(s) && s.fetched == []
  }

  /** Without memory waits, every cycle of a lane that is not drained takes away some of its work. */
  lemma LaneWorkDrops(cfg: Config, s: LaneState)
    requires LaneOk(cfg, s) && cfg.mode != 3
    ensures Drained(s) ==> RunLane(cfg, s) == s
    ensures !Drained(s) ==> LaneWork(cfg, RunLane(cfg, s)) < LaneWork(cfg, s)
  {
    var c := Counted(s);
    var e := Executed(cfg, c);
    if Issues(c) {
      ExecutedWork(cfg, c);
    }
    FetchedWork(cfg, e);
  }

  lemma ExecutedWork(cfg: Config, c: LaneState)
    requires Issues(c) && cfg.mode != 3
    ensures LaneWork(cfg, Executed(cfg, c)) == LaneWork(cfg, c) - 1
  {
  }

  lemma FetchedWork(cfg: Config, e: LaneState)
    ensures LaneWork(cfg, Fetched(e)) == LaneWork(cfg, e) - if e.fetchCnt > 0 || e.queue == [] then 0 else 1
  {
    if !(e.fetchCnt > 0 || e.queue == []) {
      WorkConcat(cfg, 2, e.fetched, [e.queue[0]]);
    }
  }

  // ---------- The lane object ----------

  /** The queues that all lanes share. */
  class LaneQueues {
    var finishedChains: seq<nat>
    var memReqQueue: seq<(nat, nat)>

    constructor ()
      ensures finishedChains == [] && memReqQueue == []
    {
      finishedChains, memReqQueue := [], [];
    }
  }

  class Lane {
    const laneId: nat
    const cfg: Config
    const shared: LaneQueues
    var instructionQueue: seq<Instr>
    var fetchStack: seq<Instr>
    var exeStack: seq<Instr>
    var fetchCnt: nat
    var exeCnt: int
    var memoryStall: nat
    var schChainsList: seq<nat>
    ghost var retired: seq<Instr>

    ghost function View(): LaneState
      reads this
    {
      LaneState(instructionQueue, fetchStack, exeStack, fetchCnt, exeCnt, memoryStall, schChainsList, retired)
    }

    constructor (laneId: nat, cfg: Config, shared: LaneQueues)
      ensures this.laneId == laneId && this.cfg == cfg && this.shared == shared
      ensures View() == EMPTY_LANE
    {
      this.laneId, this.cfg, this.shared := laneId, cfg, shared;
      instructionQueue, fetchStack, exeStack := [], [], [];
      fetchCnt, exeCnt, memoryStall := 0, 0, 0;
      schChainsList, retired := [], [];
    }

    method SetExeCounter(delay: int)
      modifies this
      ensures View() == old(View()).(exeCnt := delay)
    {
      exeCnt := delay;
    }

    method LoadInstructionQueue(inputChain: seq<Instr>, chId: nat)
      modifies this
      ensures View() == LoadLane(old(View()), chId, inputChain)
    {
      for k := 0 to |inputChain|
        invariant View() == old(View()).(queue := old(instructionQueue) + inputChain[..k])
      {
        instructionQueue := instructionQueue + [inputChain[k]];
      }
      schChainsList := schChainsList + [chId];
    }

    method UpdateCounter()
      modifies this
      ensures View() == Counted(old(View()))
    {
      if fetchCnt > 0 {
        fetchCnt := fetchCnt - 1;
      }
      if exeCnt > 0 {
        exeCnt := exeCnt - 1;
      } else if exeCnt == -1 {
        memoryStall := memoryStall + 1;
      }
    }

    method Execute()
      modifies this, shared
      ensures View() == Executed(cfg, old(View()))
      ensures shared.finishedChains == old(shared.finishedChains)
                                       + if Retires(old(View())) then [old(exeStack)[0].cId] else []
      ensures shared.memReqQueue == old(shared.memReqQueue) +
                                    if Issues(old(View())) && IsMemory(old(fetchStack)[0]) && cfg.mode == 3
                                    then [(laneId, old(fetchStack)[0].oldId)] else []
    {
      if exeCnt == 0 && exeStack != [] {
        var done := exeStack[0];
        exeStack := exeStack[1..];
        retired := retired + [done];
        shared.finishedChains := shared.finishedChains + [done.cId];
      } else if exeCnt == 0 && fetchStack != [] && fetchCnt == 0 {
        var ins := fetchStack[0];
        exeStack := exeStack + [ins];
        if IsMemory(ins) {
          match cfg.mode {
            case 0 => SetExeCounter(cfg.l1);
            case 1 => SetExeCounter(cfg.l2);
            case 2 => SetExeCounter(cfg.l3);
            case 3 =>
              shared.memReqQueue := shared.memReqQueue + [(laneId, ins.oldId)];
              SetExeCounter(-1);
            case _ =>
          }
        } else {
          SetExeCounter(ins.latency);
        }
        fetchStack := fetchStack[1..];
      }
    }

    method Fetch()
      modifies this
      ensures View() == Fetched(old(View()))
    {
      if fetchCnt == 0 && instructionQueue != [] {
        fetchStack := fetchStack + [instructionQueue[0]];
        instructionQueue := instructionQueue[1..];
        fetchCnt := FETCH_DELAY;
      }
    }

    /** One cycle of the lane. */
    method Run()
      modifies this, shared
      ensures View() == RunLane(cfg, old(View()))
      ensures shared.finishedChains == old(shared.finishedChains) + Finishes(old(View()))
      ensures shared.memReqQueue == old(shared.memReqQueue) + Requests(cfg, laneId, old(View()))
    {
      UpdateCounter();
      Execute();
      Fetch();
    }

    predicate IsFree()
      reads this
      ensures IsFree() <==> FreeLane(View())
    {
      fetchCnt == 0 && exeCnt == 0 && instructionQueue == [] && exeStack == []
    }
  }
}
