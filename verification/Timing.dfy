/**
 In which cycle things happen (src/Core.cpp, run_a_cycle): a chain is loaded in the cycle in
 which the last chain that it waits for starts, and a program of one instruction takes six
 cycles and the time of the instruction.
 */
module Timing {
  import opened Sequences
  import opened Lanes
  import opened MemorySystem
  import opened Machine
  import opened Dispatch
  import opened Progress
  import opened EarlyFinish

  // ---------- No cycle is lost ----------

  /** Offering chains to later lanes leaves a lane as it is. */
  lemma {:induction false} LaterLanesKeep(p: Params, s: CoreState, l: nat, n: nat)
    requires l < n && l < |s.lanes|
    ensures |ScheduleLanes(p, s, n).lanes| == |s.lanes| == |ScheduleLanes(p, s, l + 1).lanes|
    ensures ScheduleLanes(p, s, n).lanes[l] == ScheduleLanes(p, s, l + 1).lanes[l]
  {
    ScheduleLanesFrame(p, s, l + 1);
    if l + 1 < n {
      LaterLanesKeep(p, s, l, n - 1);
      ScheduleLaneFrame(p, ScheduleLanes(p, s, n - 1), n - 1);
    }
  }

  /** A lane that loads takes exactly one more chain. */
  lemma LoadsOneMore(p: Params, s: CoreState, i: nat)
    requires Loads(p, s, i)
    ensures |ScheduleLane(p, s, i).lanes| == |s.lanes|
    ensures |ScheduleLane(p, s, i).lanes[i].scheduled| == |s.lanes[i].scheduled| + 1
  {
  }

  /** What has started when the lanes have run has started when the scheduler looks. */
  lemma StartedInMid(prog: seq<seq<Instr>>, p: Params, s: CoreState, env: Env, q: nat)
    requires Streams(prog, p.cfg, s.lanes) && Started(RunAll(p.cfg, s.lanes), q)
    ensures Started(MidCycle(p, s, env).lanes, q)
  {
    var ran, r := RunAll(p.cfg, s.lanes), SendRequests(p, RunCore(p, s));
    WokenIsOnlyWoken(ran, r.reqMap, Answered(Accessed(r.mem, env.ready), env.responses));
    RunKeepsStreams(prog, p.cfg, s.lanes);
    WakingKeeps(prog, p.cfg, ran, MidCycle(p, s, env).lanes);
  }

  /**
   In the cycle in which the last chain that a chain of its buffer waits for starts, or the lane gets
   free, the lane takes a chain.
   */
  lemma NoCycleLost(prog: seq<seq<Instr>>, deps0: map<nat, set<nat>>, home: seq<nat>, p: Params, s: CoreState, env: Env,
                    l: nat, c: nat)
    requires CoreInv(prog, deps0, home, p.cfg, s) && p.numChains == |prog| && DepsWithin(deps0, |prog|)
    requires l < |s.lanes| && l < |s.buffers| && c in s.buffers[l]
    requires l < |MidCycle(p, s, env).lanes| && FreeLane(MidCycle(p, s, env).lanes[l])
    requires forall q: nat :: Dep(deps0, q, c) ==> Started(RunAll(p.cfg, s.lanes), q)
    ensures l < |Cycle(p, s, env).lanes|
    ensures |Cycle(p, s, env).lanes[l].scheduled| == |s.lanes[l].scheduled| + 1
  {
    var mid := MidCycle(p, s, env);
    MidCycleKeeps(prog, deps0, home, p, s, env);
    forall q: nat | q < |prog|
      ensures (c, q) !in mid.pending
    {
      if Dep(deps0, q, c) {
        StartedInMid(prog, p, s, env, q);
      }
    }
    assert Eligible(mid.pending, p.numChains, c);
    var k :| 0 <= k < |mid.buffers[l]| && mid.buffers[l][k] == c;
    LoadsInTurn(prog, deps0, home, p, mid, l);
    ScheduleLanesFrame(p, mid, l);
    LoadsOneMore(p, ScheduleLanes(p, mid, l), l);
    LaterLanesKeep(p, mid, l, |s.lanes|);
    assert Scheduled(mid.lanes)[l] == Scheduled(s.lanes)[l];
  }

  // ---------- One instruction ----------

  lemma RunLaneSum(cfg: Config, s: LaneState, a: nat, b: nat)
    ensures RunLaneFor(cfg, s, a + b) == RunLaneFor(cfg, RunLaneFor(cfg, s, a), b)
  {
    IterateSum((t: LaneState) => RunLane(cfg, t), s, a, b);
  }

  /** A lane with nothing to fetch stays so. */
  lemma {:induction false} NothingToFetch(cfg: Config, s: LaneState, k: nat)
    requires s.fetchCnt == 0 && s.queue == []
    ensures RunLaneFor(cfg, s, k).fetchCnt == 0 && RunLaneFor(cfg, s, k).queue == []
  {
    if k > 0 {
      NothingToFetch(cfg, s, k - 1);
    }
  }

  lemma {:induction false} LaneForOk(cfg: Config, s: LaneState, k: nat)
    requires LaneOk(cfg, s)
    ensures LaneOk(cfg, RunLaneFor(cfg, s, k)) && Stream(RunLaneFor(cfg, s, k)) == Stream(s)
  {
    if k > 0 {
      LaneForOk(cfg, s, k - 1);
      RunLaneKeeps(cfg, RunLaneFor(cfg, s, k - 1));
    }
  }

  function AtLeastOne(d: nat): nat
  {
    if d == 0 then 1 else d
  }

  /** A lane that was given one instruction. */
  ghost predicate Given(s: LaneState, ins: Instr)
  {
    s == LoadLane(EMPTY_LANE, ins.cId, [ins])
  }

  /** The lane holds one instruction, which was fetched, and the fetch delay is `c`. */
  ghost predicate Waiting(cfg: Config, s: LaneState, ins: Instr, c: nat)
  {
    LaneOk(cfg, s) && s.queue == [] && s.fetched == [ins] && s.executing == [] && s.retired == [] && s.fetchCnt == c && s.exeCnt == 0
  }

  lemma FetchesFirst(cfg: Config, s: LaneState, ins: Instr)
    requires Given(s, ins)
    ensures !FreeLane(s) && Waiting(cfg, RunLane(cfg, s), ins, 4)
  {
  }

  lemma {:induction false} WaitsOn(cfg: Config, s: LaneState, ins: Instr, c: nat, k: nat)
    requires Waiting(cfg, s, ins, c) && k < c
    ensures Waiting(cfg, RunLaneFor(cfg, s, k), ins, c - k)
  {
    if k > 0 {
      WaitsOn(cfg, s, ins, c, k - 1);
    }
  }

  /** The lane executes its only instruction, which retires after `d` cycles. */
  ghost predicate Executing(cfg: Config, s: LaneState, ins: Instr, d: nat)
  {
    && LaneOk(cfg, s) && s.queue == [] && s.fetched == [] && s.executing == [ins] && s.retired == [] && s.fetchCnt == 0
    && RetiresAfter(cfg, s, d)
  }

  lemma IssuesLast(cfg: Config, s: LaneState, ins: Instr)
    requires Waiting(cfg, s, ins, 1) && !IsMemory(ins)
    ensures Executing(cfg, RunLane(cfg, s), ins, ins.latency)
  {
    TimeToRetire(cfg, s, ins);
  }

  lemma AllRetiredIsFree(cfg: Config, s: LaneState)
    requires LaneOk(cfg, s) && |Stream(s)| == 1 && s.retired != [] && s.fetchCnt == 0
    ensures FreeLane(s)
  {
    assert |Stream(s)| == |s.retired| + |s.executing| + |s.fetched| + |s.queue|;
  }

  lemma FreeWhenRetired(cfg: Config, s: LaneState, ins: Instr, d: nat, k: nat)
    requires Executing(cfg, s, ins, d) && k <= AtLeastOne(d)
    ensures FreeLane(RunLaneFor(cfg, s, k)) <==> k == AtLeastOne(d)
  {
    if k == AtLeastOne(d) {
      NothingToFetch(cfg, s, k);
      LaneForOk(cfg, s, k);
      assert Stream(s) == [ins];
      AllRetiredIsFree(cfg, RunLaneFor(cfg, s, k));
    }
  }

  /** The lane is free after five cycles and the time of the instruction, and not before. */
  lemma FreeAgain(cfg: Config, s: LaneState, ins: Instr, k: nat)
    requires Given(s, ins) && !IsMemory(ins) && k <= 5 + AtLeastOne(ins.latency)
    ensures FreeLane(RunLaneFor(cfg, s, k)) <==> k == 5 + AtLeastOne(ins.latency)
  {
    FetchesFirst(cfg, s, ins);
    if k > 0 {
      FirstStep(cfg, s, k);
      FreeAgainFrom(cfg, RunLane(cfg, s), ins, 4, k - 1);
    }
  }

  lemma FreeAgainFrom(cfg: Config, s: LaneState, ins: Instr, c: nat, k: nat)
    requires Waiting(cfg, s, ins, c) && !IsMemory(ins) && 1 <= c && k <= c + AtLeastOne(ins.latency)
    ensures FreeLane(RunLaneFor(cfg, s, k)) <==> k == c + AtLeastOne(ins.latency)
  {
    if k < c {
      WaitsOn(cfg, s, ins, c, k);
    } else {
      WaitsOn(cfg, s, ins, c, c - 1);
      RunLaneSum(cfg, s, c - 1, k - c + 1);
      FreeAfterIssue(cfg, RunLaneFor(cfg, s, c - 1), ins, k - c + 1);
    }
  }

  lemma FreeAfterIssue(cfg: Config, s: LaneState, ins: Instr, k: nat)
    requires Waiting(cfg, s, ins, 1) && !IsMemory(ins) && 1 <= k <= 1 + AtLeastOne(ins.latency)
    ensures FreeLane(RunLaneFor(cfg, s, k)) <==> k == 1 + AtLeastOne(ins.latency)
  {
    IssuesLast(cfg, s, ins);
    FirstStep(cfg, s, k);
    FreeWhenRetired(cfg, RunLane(cfg, s), ins, ins.latency, k - 1);
  }

  lemma FirstStep(cfg: Config, s: LaneState, k: nat)
    requires k > 0
    ensures RunLaneFor(cfg, s, k) == RunLaneFor(cfg, RunLane(cfg, s), k - 1)
  {
    IterateFirst((t: LaneState) => RunLane(cfg, t), s, k);
  }

  // ---------- A program of one instruction ----------

  /** With Ruby silent, no lane is woken. */
  lemma SilentMid(p: Params, s: CoreState)
    ensures MidCycle(p, s, SILENT).lanes == RunAll(p.cfg, s.lanes)
    ensures MidCycle(p, s, SILENT).inputs == s.inputs && MidCycle(p, s, SILENT).buffers == s.buffers
  {
  }

  lemma {:induction false} NothingToOffer(p: Params, s: CoreState, n: nat)
    requires s.inputs == []
    ensures ScheduleLanes(p, s, n) == s
  {
    if n > 0 {
      NothingToOffer(p, s, n - 1);
    }
  }

  /** Once nothing waits, the lanes only run. */
  lemma LanesOnlyRun(p: Params, s: CoreState)
    requires s.inputs == []
    ensures Cycle(p, s, SILENT).inputs == [] && Cycle(p, s, SILENT).lanes == RunAll(p.cfg, s.lanes)
  {
    SilentMid(p, s);
    NothingToOffer(p, MidCycle(p, s, SILENT), |s.lanes|);
  }

  /** In a core in which nothing waits, the only lane takes the step `g` when the core takes the step `f`. */
  ghost predicate OnlyLaneSteps(f: CoreState -> CoreState, g: LaneState -> LaneState)
  {
    forall t: CoreState, y: LaneState {:trigger f(t), g(y)} ::
      t.inputs == [] && t.lanes == [y] ==> f(t).inputs == [] && f(t).lanes == [g(y)]
  }

  lemma {:induction false} LockStep(f: CoreState -> CoreState, g: LaneState -> LaneState, s: CoreState, x: LaneState, k: nat)
    requires OnlyLaneSteps(f, g) && f(s).inputs == [] && f(s).lanes == [x] && k >= 1
    ensures Iterate(f, s, k).inputs == [] && Iterate(f, s, k).lanes == [Iterate(g, x, k - 1)]
  {
    if k == 1 {
      assert Iterate(f, s, 0) == s && Iterate(g, x, 0) == x;
    } else {
      LockStep(f, g, s, x, k - 1);
      var t, y := Iterate(f, s, k - 1), Iterate(g, x, k - 2);
      assert Iterate(f, s, k) == f(t) && Iterate(g, x, k - 1) == g(y);
    }
  }

  lemma LaneStepsOnly(p: Params)
    ensures OnlyLaneSteps((t: CoreState) => Cycle(p, t, SILENT), (y: LaneState) => RunLane(p.cfg, y))
  {
    forall t: CoreState, y: LaneState | t.inputs == [] && t.lanes == [y]
      ensures Cycle(p, t, SILENT).inputs == [] && Cycle(p, t, SILENT).lanes == [RunLane(p.cfg, y)]
    {
      LanesOnlyRun(p, t);
      assert RunAll(p.cfg, t.lanes)[0] == RunLane(p.cfg, y);
    }
  }

  /** The `n`th step, and none before it, leads to a finished state. */
  ghost predicate FinishesFirst(step: CoreState -> CoreState, s: CoreState, n: nat)
  {
    && n >= 1 && IsFinish(Iterate(step, s, n))
    && forall k: nat :: 1 <= k < n ==> !IsFinish(Iterate(step, s, k))
  }

  lemma LockFinish(f: CoreState -> CoreState, g: LaneState -> LaneState, s: CoreState, x: LaneState, n: nat)
    requires OnlyLaneSteps(f, g) && f(s).inputs == [] && f(s).lanes == [x] && n >= 1
    requires forall k: nat :: k < n ==> (FreeLane(Iterate(g, x, k)) <==> k == n - 1)
    ensures FinishesFirst(f, s, n)
  {
    forall k: nat | 1 <= k <= n
      ensures IsFinish(Iterate(f, s, k)) <==> k == n
    {
      LockStep(f, g, s, x, k);
      assert Iterate(f, s, k).lanes[0] == Iterate(g, x, k - 1);
    }
  }

  ghost function OneStart(ins: Instr): CoreState
  {
    InitialState([[ins]], map[], [[0]], [1])
  }

  lemma OnePlaced(ins: Instr)
    ensures Prescheduled([[ins]], [0], [[0]], [1])
  {
    assert TotalSize([[ins]], [0]) == TotalSize([[ins]], [0][..0]) + 1;
    assert LanePlaced([[ins]], [0], [], [0], 1, 0);
  }

  /** In the first cycle the chain is loaded. */
  lemma FirstCycleLoads(p: Params, ins: Instr)
    requires p.numChains == 1 && ins.cId == 0
    ensures Cycle(p, OneStart(ins), SILENT).inputs == []
    ensures Cycle(p, OneStart(ins), SILENT).lanes == [LoadLane(EMPTY_LANE, 0, [ins])]
  {
    var s, prog := OneStart(ins), [[ins]];
    OnePlaced(ins);
    InitialKeeps(prog, map[], [0], p.cfg, [[0]], [1]);
    MidCycleKeeps(prog, map[], [0], p, s, SILENT);
    SilentMid(p, s);
    var mid := MidCycle(p, s, SILENT);
    assert s.lanes == [EMPTY_LANE] && mid.lanes[0] == EMPTY_LANE;
    TakesFirst(prog, [0], p, mid);
    OneLaneSchedule(p, mid);
  }

  lemma AfterIs(p: Params, s: CoreState, k: nat)
    ensures After(p, s, k) == Iterate((t: CoreState) => Cycle(p, t, SILENT), s, k)
  {
  }

  lemma FirstIsAfter(p: Params, s: CoreState, n: nat)
    requires FinishesFirst((t: CoreState) => Cycle(p, t, SILENT), s, n)
    ensures FinishesAfter(p, s, n)
  {
    AfterIs(p, s, n);
    forall k: nat | 1 <= k < n
      ensures !IsFinish(After(p, s, k))
    {
      AfterIs(p, s, k);
    }
  }

  lemma LoadedTime(p: Params, s: CoreState, lane: LaneState, ins: Instr)
    requires Cycle(p, s, SILENT).inputs == [] && Cycle(p, s, SILENT).lanes == [lane] && Given(lane, ins) && !IsMemory(ins)
    ensures FinishesFirst((t: CoreState) => Cycle(p, t, SILENT), s, 6 + AtLeastOne(ins.latency))
  {
    var f, g := (t: CoreState) => Cycle(p, t, SILENT), (y: LaneState) => RunLane(p.cfg, y);
    forall k: nat | k < 6 + AtLeastOne(ins.latency)
      ensures FreeLane(Iterate(g, lane, k)) <==> k == 5 + AtLeastOne(ins.latency)
    {
      FreeAgain(p.cfg, lane, ins, k);
    }
    LaneStepsOnly(p);
    LockFinish(f, g, s, lane, 6 + AtLeastOne(ins.latency));
  }

  /** A program of one instruction is finished after six cycles and the time of the instruction, at least one. */
  lemma OneInstructionTime(p: Params, ins: Instr)
    requires p.numChains == 1 && ins.cId == 0 && ins.op != "Load" && ins.op != "Store"
    ensures FinishesAfter(p, OneStart(ins), 6 + if ins.latency == 0 then 1 else ins.latency)
  {
    FirstCycleLoads(p, ins);
    LoadedTime(p, OneStart(ins), LoadLane(EMPTY_LANE, 0, [ins]), ins);
    FirstIsAfter(p, OneStart(ins), 6 + AtLeastOne(ins.latency));
  }
}
