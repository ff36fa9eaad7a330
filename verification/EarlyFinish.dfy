/**
 Programs that are reported finished too early.  A slow instruction that another one of its
 chain follows gives the fetch stage time to run ahead; from then on the fetched
 instructions stay behind.  When the chain is the last of a lane, the lane is free with an
 instruction fetched but not executed.
 */
module EarlyFinish {
  import opened Digraph
  import opened Sequences
  import opened Lanes
  import opened MemorySystem
  import opened Machine
  import opened Dispatch
  import opened Progress
  import opened Stalls
  import opened Steps
  import opened Finish

  // ---------- One lane that falls behind ----------

  /** A memory access is answered when no fetch is under way, and no earlier. */
  function Answer(s: LaneState): LaneState
  {
    if s.exeCnt == -1 && s.fetchCnt == 0 then s.(exeCnt := 0) else s
  }

  function SlowLane(cfg: Config, s: LaneState): LaneState
  {
    Answer(RunLane(cfg, s))
  }

  /** A slow instruction that is not the last one is still to be issued. */
  ghost predicate SlowAhead(cfg: Config, s: LaneState)
  {
    exists k :: 0 <= k < |s.fetched + s.queue| - 1 && !Short(cfg, (s.fetched + s.queue)[k])
  }

  /** When the fetch delay is over, an instruction will have been fetched that cannot be issued. */
  ghost predicate Behind(s: LaneState)
  {
    && s.fetched != [] && (s.fetchCnt == 0 ==> s.queue == [])
    && (|s.fetched| >= 2 || s.fetchCnt == 0 || (s.executing != [] && (s.exeCnt < 0 || s.exeCnt >= s.fetchCnt)))
  }

  lemma BehindStays(cfg: Config, s: LaneState)
    requires LaneOk(cfg, s) && Behind(s) && !FreeLane(s)
    ensures Behind(SlowLane(cfg, s))
  {
  }

  /** The lane will be free with an instruction left in it. */
  ghost predicate Doomed(cfg: Config, s: LaneState)
  {
    SlowAhead(cfg, s) || Behind(s)
  }

  lemma IssueSlow(cfg: Config, s: LaneState)
    requires LaneOk(cfg, s) && Issues(Counted(s)) && !Short(cfg, s.fetched[0]) && |s.fetched + s.queue| >= 2
    ensures Behind(SlowLane(cfg, s))
  {
  }

  lemma SlowStaysAhead(cfg: Config, s: LaneState, k: nat)
    requires LaneOk(cfg, s) && k < |s.fetched + s.queue| - 1 && !Short(cfg, (s.fetched + s.queue)[k])
    requires Issues(Counted(s)) ==> k > 0
    ensures SlowAhead(cfg, SlowLane(cfg, s))
  {
    var t := SlowLane(cfg, s);
    if Issues(Counted(s)) {
      assert t.fetched + t.queue == (s.fetched + s.queue)[1..];
      assert (t.fetched + t.queue)[k - 1] == (s.fetched + s.queue)[k];
    } else {
      assert t.fetched + t.queue == s.fetched + s.queue;
    }
  }

  lemma DoomedStays(cfg: Config, s: LaneState)
    requires LaneOk(cfg, s) && Doomed(cfg, s) && !FreeLane(s)
    ensures Doomed(cfg, SlowLane(cfg, s))
  {
    if SlowAhead(cfg, s) {
      var k :| 0 <= k < |s.fetched + s.queue| - 1 && !Short(cfg, (s.fetched + s.queue)[k]);
      if Issues(Counted(s)) && k == 0 {
        IssueSlow(cfg, s);
      } else {
        SlowStaysAhead(cfg, s, k);
      }
    } else {
      BehindStays(cfg, s);
    }
  }

  lemma DoomedFree(cfg: Config, s: LaneState)
    requires Doomed(cfg, s) && FreeLane(s)
    ensures s.fetched != []
  {
  }

  /** A free lane that takes a chain with a slow instruction before its last one is doomed. */
  lemma LoadDooms(cfg: Config, s: LaneState, chain: nat, instrs: seq<Instr>)
    requires FreeLane(s) && !AllButLastShort(cfg, instrs)
    ensures Doomed(cfg, LoadLane(s, chain, instrs))
  {
    var k :| 0 <= k < |instrs| - 1 && !Short(cfg, instrs[k]);
    var t := LoadLane(s, chain, instrs);
    assert t.queue == instrs;
    assert (t.fetched + t.queue)[|t.fetched| + k] == instrs[k];
  }

  // ---------- It ends ----------

  ghost function ExecutionWork(s: LaneState): nat
  {
    if s.executing == [] then 0 else if s.exeCnt < 0 then 2 else 1 + s.exeCnt
  }

  ghost function SlowWork(cfg: Config, s: LaneState): nat
  {
    Work(cfg, 8, s.queue) + Work(cfg, 3, s.fetched) + s.fetchCnt + ExecutionWork(s)
  }

  lemma FetchedSlowWork(cfg: Config, e: LaneState)
    ensures SlowWork(cfg, Fetched(e)) == SlowWork(cfg, e) - if e.fetchCnt > 0 || e.queue == [] then 0 else 1
  {
    if !(e.fetchCnt > 0 || e.queue == []) {
      WorkConcat(cfg, 3, e.fetched, [e.queue[0]]);
    }
  }

  lemma ExecutedSlowWork(cfg: Config, c: LaneState)
    requires Issues(c)
    ensures SlowWork(cfg, Executed(cfg, c)) < SlowWork(cfg, c)
  {
  }

  /** With memory accesses answered late, every cycle of a lane that is not drained takes work away. */
  lemma SlowWorkDrops(cfg: Config, s: LaneState)
    requires LaneOk(cfg, s)
    ensures Drained(s) ==> SlowLane(cfg, s) == s
    ensures !Drained(s) ==> SlowWork(cfg, SlowLane(cfg, s)) < SlowWork(cfg, s)
  {
    var c := Counted(s);
    var e := Executed(cfg, c);
    if Issues(c) {
      ExecutedSlowWork(cfg, c);
    }
    FetchedSlowWork(cfg, e);
  }

  // ---------- Ruby answers late ----------

  ghost function LinesOf(b: seq<Request>): set<nat>
  {
    set r | r in b :: BaseAddr(r.vaddr)
  }

  /** Ruby is ready for every line, and answers the one lane when no fetch is under way. */
  ghost function LateRuby(p: Params, s: CoreState): Env
    requires |s.lanes| == 1
  {
    var r := SendRequests(p, RunCore(p, s));
    var t := RunLane(p.cfg, s.lanes[0]);
    Env(LinesOf(r.mem.buffer),
        if t.exeCnt == -1 && t.fetchCnt == 0 && r.mem.buffer != [] then [BaseAddr(r.mem.buffer[0].vaddr)] else [])
  }

  lemma {:induction false} NoLines(b: seq<Request>)
    requires forall r :: r in b ==> !r.isIssue
    ensures IssuedLines(b) == multiset{}
  {
    if b != [] {
      NoLines(b[1..]);
    }
  }

  /** A single buffered request is with Ruby after its line was ready. */
  lemma SingleIssued(m: MemState, ready: set<nat>)
    requires MemOk(m) && |m.buffer| == 1 && BaseAddr(m.buffer[0].vaddr) in ready
    ensures BaseAddr(m.buffer[0].vaddr) in Accessed(m, ready).outstanding
    ensures |Accessed(m, ready).buffer| == 1 && Accessed(m, ready).buffer[0].nodeId == m.buffer[0].nodeId
  {
    var r := m.buffer[0];
    assert m.buffer == [r] && m.buffer[1..] == [];
    assert IssuedLines(m.buffer[1..]) == multiset{};
    if !r.isIssue {
      NoLines(m.buffer);
      assert FirstReady(m.buffer, ready) == 0;
    }
  }

  lemma BufferedWaits(lanes: seq<LaneState>, b: seq<Request>, k: nat)
    requires |lanes| == 1 && StalledIds(lanes) == Ids(b) && k < |b|
    ensures Stalled(lanes[0]) && b[k].nodeId == lanes[0].executing[0].oldId
  {
    assert b[k] in b;
    StalledId(lanes, b[k].nodeId);
    var l: nat :| WaitsFor(lanes, l, b[k].nodeId);
  }

  lemma OneWaiter(lanes: seq<LaneState>, b: seq<Request>)
    requires |lanes| == 1 && StalledIds(lanes) == Ids(b) && DistinctIds(b)
    ensures Stalled(lanes[0]) <==> b != []
    ensures |b| <= 1 && (b != [] ==> b[0].nodeId == lanes[0].executing[0].oldId)
  {
    if Stalled(lanes[0]) {
      assert WaitsFor(lanes, 0, lanes[0].executing[0].oldId);
      StalledId(lanes, lanes[0].executing[0].oldId);
      var r :| r in b && r.nodeId == lanes[0].executing[0].oldId;
    }
    if |b| > 0 {
      BufferedWaits(lanes, b, 0);
    }
    if |b| > 1 {
      BufferedWaits(lanes, b, 1);
    }
  }

  /** The answer is for the request that the lane waits for, and Ruby holds its line. */
  lemma LateAnswer(m: MemState, lanes: seq<LaneState>, responses: seq<nat>)
    requires MemOk(m) && |lanes| == 1 && StalledIds(lanes) == Ids(m.buffer)
    requires responses == [] || (m.buffer != [] && responses == [BaseAddr(m.buffer[0].vaddr)])
    ensures multiset(responses) <= Accessed(m, LinesOf(m.buffer)).outstanding
  {
    OneWaiter(lanes, m.buffer);
    if responses != [] {
      assert m.buffer[0] in m.buffer;
      SingleIssued(m, LinesOf(m.buffer));
    }
  }

  lemma AnsweredWaiter(lanes: seq<LaneState>, nodes: seq<nat>)
    requires |lanes| == 1 && forall n :: n in nodes ==> n in StalledIds(lanes)
    ensures AfterAnswers(lanes, 0, nodes) == if nodes == [] then lanes[0] else lanes[0].(exeCnt := 0)
    ensures nodes != [] ==> Stalled(lanes[0])
  {
    if nodes != [] {
      assert nodes[0] in StalledIds(lanes);
      StalledId(lanes, nodes[0]);
    }
  }

  lemma LateEnvOk(prog: seq<seq<Instr>>, deps0: map<nat, set<nat>>, home: seq<nat>, p: Params, s: CoreState)
    requires CoreInv(prog, deps0, home, p.cfg, s) && StallInv(s) && ProgramFits(prog, p) && |s.lanes| == 1
    ensures EnvOk(p, s, LateRuby(p, s))
    ensures RunLane(p.cfg, s.lanes[0]).exeCnt == -1 ==> SendRequests(p, RunCore(p, s)).mem.buffer != []
  {
    var r := SendRequests(p, RunCore(p, s));
    SentMatches(prog, deps0, home, p, s);
    LateAnswer(r.mem, r.lanes, LateRuby(p, s).responses);
    OneWaiter(r.lanes, r.mem.buffer);
    assert LaneStream(prog, p.cfg, s.lanes[0]);
    RunLaneKeeps(p.cfg, s.lanes[0]);
  }

  lemma RanLane(p: Params, s: CoreState)
    requires |s.lanes| == 1
    ensures SendRequests(p, RunCore(p, s)).lanes == [RunLane(p.cfg, s.lanes[0])]
  {
  }

  lemma OneOf(lanes: seq<LaneState>, a: LaneState)
    requires |lanes| == 1 && lanes[0] == a
    ensures lanes == [a]
  {
  }

  /** Which nodes are answered, and what that does to the one lane. */
  lemma LateWake(prog: seq<seq<Instr>>, deps0: map<nat, set<nat>>, home: seq<nat>, p: Params, s: CoreState, env: Env)
    returns (nodes: seq<nat>)
    requires CoreInv(prog, deps0, home, p.cfg, s) && StallInv(s) && ProgramFits(prog, p) && |s.lanes| == 1
    requires EnvOk(p, s, env)
    ensures |nodes| == |env.responses|
    ensures var ran := [RunLane(p.cfg, s.lanes[0])];
            && (forall n :: n in nodes ==> n in StalledIds(ran))
            && MidCycle(p, s, env).lanes == [AfterAnswers(ran, 0, nodes)]
  {
    RanLane(p, s);
    ResponsesWake(prog, deps0, home, p, s, env);
    nodes := Answered(Accessed(SendRequests(p, RunCore(p, s)).mem, env.ready), env.responses);
    OneOf(MidCycle(p, s, env).lanes, AfterAnswers([RunLane(p.cfg, s.lanes[0])], 0, nodes));
  }

  /** With the memory simulator, the one lane runs and is answered late. */
  lemma LateCycle(prog: seq<seq<Instr>>, deps0: map<nat, set<nat>>, home: seq<nat>, p: Params, s: CoreState)
    requires CoreInv(prog, deps0, home, p.cfg, s) && StallInv(s) && ProgramFits(prog, p) && |s.lanes| == 1
    ensures EnvOk(p, s, LateRuby(p, s))
    ensures MidCycle(p, s, LateRuby(p, s)).lanes == [SlowLane(p.cfg, s.lanes[0])]
  {
    var env, ran := LateRuby(p, s), [RunLane(p.cfg, s.lanes[0])];
    LateEnvOk(prog, deps0, home, p, s);
    var nodes := LateWake(prog, deps0, home, p, s, env);
    AnsweredWaiter(ran, nodes);
    LateOutcome(ran[0], SendRequests(p, RunCore(p, s)).mem.buffer, env.responses, nodes);
  }

  lemma LateOutcome(a: LaneState, b: seq<Request>, responses: seq<nat>, nodes: seq<nat>)
    requires responses == if a.exeCnt == -1 && a.fetchCnt == 0 && b != [] then [BaseAddr(b[0].vaddr)] else []
    requires |nodes| == |responses| && (a.exeCnt == -1 ==> b != [])
    ensures Answer(a) == if nodes == [] then a else a.(exeCnt := 0)
  {
  }

  /** Without the memory simulator there is nothing to answer. */
  lemma QuietCycle(prog: seq<seq<Instr>>, p: Params, s: CoreState)
    requires Streams(prog, p.cfg, s.lanes) && p.cfg.mode != 3 && Quiet(s) && |s.lanes| == 1
    ensures EnvOk(p, s, LateRuby(p, s))
    ensures MidCycle(p, s, LateRuby(p, s)).lanes == [SlowLane(p.cfg, s.lanes[0])]
  {
    NoRequests(p.cfg, s.lanes);
    assert s.requests + AllRequests(p.cfg, s.lanes) == [];
    assert LaneStream(prog, p.cfg, s.lanes[0]);
    RunLaneKeeps(p.cfg, s.lanes[0]);
    QuietMidCycle(p, s, LateRuby(p, s));
  }

  // ---------- The run ----------

  /** The buffer ends with chain `c`, or that has been loaded and the lane is doomed. */
  ghost predicate Losing(cfg: Config, c: nat, buffer: seq<nat>, lane: LaneState)
  {
    if buffer == [] then Doomed(cfg, lane) else buffer[|buffer| - 1] == c
  }

  /** One lane without dependencies; chain `c` is slow before its end, and comes last. */
  ghost predicate LosingCore(prog: seq<seq<Instr>>, p: Params, c: nat, s: CoreState)
  {
    && Reachable(prog, map[], seq(|prog|, _ => 0), p, s) && |s.lanes| == 1 && |s.buffers| == 1
    && (p.cfg.mode == 3 ==> ProgramFits(prog, p))
    && c < |prog| && !AllButLastShort(p.cfg, prog[c])
    && Losing(p.cfg, c, s.buffers[0], s.lanes[0])
  }

  lemma LosingMid(prog: seq<seq<Instr>>, p: Params, c: nat, s: CoreState)
    requires LosingCore(prog, p, c, s)
    ensures EnvOk(p, s, LateRuby(p, s))
    ensures MidCycle(p, s, LateRuby(p, s)).lanes == [SlowLane(p.cfg, s.lanes[0])]
  {
    if p.cfg.mode == 3 {
      LateCycle(prog, map[], seq(|prog|, _ => 0), p, s);
    } else if Quiet(s) {
      QuietCycle(prog, p, s);
    } else {
      LateCycle(prog, map[], seq(|prog|, _ => 0), p, s);
    }
  }

  /** Without dependencies nothing waits, so the first chain of the buffer is taken. */
  lemma TakesFirst(prog: seq<seq<Instr>>, home: seq<nat>, p: Params, t: CoreState)
    requires CoreInv(prog, map[], home, p.cfg, t) && |t.lanes| == |t.buffers| == 1 && t.buffers[0] != []
    requires FreeLane(t.lanes[0])
    ensures Loads(p, t, 0) && FirstEligible(t.pending, p.numChains, t.buffers[0]) == 0
    ensures var u := ScheduleLane(p, t, 0);
            && |u.inputs| < |t.inputs| && |u.lanes| == |u.buffers| == 1 && u.buffers[0] == t.buffers[0][1..]
            && t.buffers[0][0] < |prog|
            && u.lanes[0] == LoadLane(t.lanes[0], t.buffers[0][0], prog[t.buffers[0][0]])
  {
    assert Eligible(t.pending, p.numChains, t.buffers[0][0]);
    EligibleLoads(prog, map[], home, p, t, 0);
  }

  /** The chains that wait are those of the one buffer. */
  lemma NothingWaits(prog: seq<seq<Instr>>, home: seq<nat>, p: Params, s: CoreState)
    requires CoreInv(prog, map[], home, p.cfg, s) && |s.lanes| == |s.buffers| == 1
    ensures s.buffers[0] == [] <==> s.inputs == []
  {
    var sched := Scheduled(s.lanes);
    if s.inputs != [] {
      var c := s.inputs[0].id;
      assert Waits(s.inputs, c) && ChainPlaced(home, sched, s.inputs, s.buffers, c);
    }
    if s.buffers[0] != [] {
      var c := s.buffers[0][0];
      assert LanePlaced(prog, home, sched[0], s.buffers[0], s.sizes[0], 0);
      assert c in s.buffers[0] && ChainPlaced(home, sched, s.inputs, s.buffers, c);
    }
  }

  lemma OneLaneSchedule(p: Params, mid: CoreState)
    ensures ScheduleLanes(p, mid, 1) == ScheduleLane(p, mid, 0)
  {
    assert ScheduleLanes(p, mid, 0) == mid;
  }

  /** The lane ran and took no chain. */
  lemma LosingLane(cfg: Config, c: nat, buffer: seq<nat>, a: LaneState)
    requires LaneOk(cfg, a) && Losing(cfg, c, buffer, a) && (buffer == [] ==> !FreeLane(a))
    requires FreeLane(SlowLane(cfg, a)) ==> buffer == []
    ensures Losing(cfg, c, buffer, SlowLane(cfg, a)) && SlowWork(cfg, SlowLane(cfg, a)) < SlowWork(cfg, a)
  {
    SlowWorkDrops(cfg, a);
    if buffer == [] {
      DoomedStays(cfg, a);
    }
  }

  /** The lane took the first chain of its buffer. */
  lemma LosingLoad(cfg: Config, c: nat, buffer: seq<nat>, a: LaneState, instrs: seq<Instr>)
    requires buffer != [] && buffer[|buffer| - 1] == c && FreeLane(a)
    requires buffer[0] == c ==> !AllButLastShort(cfg, instrs)
    ensures Losing(cfg, c, buffer[1..], LoadLane(a, buffer[0], instrs))
  {
    if |buffer| == 1 {
      LoadDooms(cfg, a, c, instrs);
    }
  }

  /** A chain was loaded, or work was done. */
  ghost predicate Ahead(cfg: Config, s: CoreState, t: CoreState)
    requires |s.lanes| == 1 && |t.lanes| == 1
  {
    |t.inputs| < |s.inputs| || (t.inputs == s.inputs && SlowWork(cfg, t.lanes[0]) < SlowWork(cfg, s.lanes[0]))
  }

  lemma UnfinishedIsBusy(prog: seq<seq<Instr>>, home: seq<nat>, p: Params, s: CoreState)
    requires CoreInv(prog, map[], home, p.cfg, s) && |s.lanes| == |s.buffers| == 1 && !IsFinish(s)
    ensures LaneOk(p.cfg, s.lanes[0]) && (s.buffers[0] == [] ==> !FreeLane(s.lanes[0]))
  {
    assert LaneStream(prog, p.cfg, s.lanes[0]);
    NothingWaits(prog, home, p, s);
  }

  lemma LosingSchedule(prog: seq<seq<Instr>>, home: seq<nat>, p: Params, c: nat, s: CoreState, mid: CoreState)
    requires CoreInv(prog, map[], home, p.cfg, mid) && |s.lanes| == |s.buffers| == 1
    requires LaneOk(p.cfg, s.lanes[0]) && (s.buffers[0] == [] ==> !FreeLane(s.lanes[0]))
    requires Losing(p.cfg, c, s.buffers[0], s.lanes[0])
    requires mid.lanes == [SlowLane(p.cfg, s.lanes[0])] && mid.buffers == s.buffers && mid.inputs == s.inputs
    requires c < |prog| && !AllButLastShort(p.cfg, prog[c])
    ensures var t := ScheduleLane(p, mid, 0);
            |t.lanes| == |t.buffers| == 1 && Losing(p.cfg, c, t.buffers[0], t.lanes[0]) && Ahead(p.cfg, s, t)
  {
    if FreeLane(mid.lanes[0]) && mid.buffers[0] != [] {
      TakesFirst(prog, home, p, mid);
      LosingLoad(p.cfg, c, mid.buffers[0], mid.lanes[0], prog[mid.buffers[0][0]]);
    } else {
      LosingLane(p.cfg, c, s.buffers[0], s.lanes[0]);
    }
  }

  /** A cycle with late answers keeps the losing core losing, and loads a chain or takes work away. */
  lemma LosingStep(prog: seq<seq<Instr>>, p: Params, c: nat, s: CoreState) returns (env: Env, t: CoreState)
    requires LosingCore(prog, p, c, s) && !IsFinish(s)
    ensures Next(p, s, env, t) && LosingCore(prog, p, c, t) && Ahead(p.cfg, s, t)
  {
    var home := seq(|prog|, _ => 0);
    env := LateRuby(p, s);
    t := Cycle(p, s, env);
    var mid := MidCycle(p, s, env);
    LosingMid(prog, p, c, s);
    ReachableStays(prog, map[], home, p, s, env);
    MidCycleKeeps(prog, map[], home, p, s, env);
    OneLaneSchedule(p, mid);
    UnfinishedIsBusy(prog, home, p, s);
    LosingSchedule(prog, home, p, c, s, mid);
  }

  /** A run that is not finished before its last state. */
  ghost predicate FirstFinish(p: Params, states: seq<CoreState>, envs: seq<Env>)
  {
    IsRun(p, states, envs) && IsFinish(states[|envs|]) && forall k :: 0 <= k < |envs| ==> !IsFinish(states[k])
  }

  lemma PrependStep(p: Params, s: CoreState, env: Env, states: seq<CoreState>, envs: seq<Env>)
    requires IsRun(p, states, envs) && Next(p, s, env, states[0])
    ensures IsRun(p, [s] + states, [env] + envs)
  {
    var all, with := [s] + states, [env] + envs;
    forall k | 0 <= k < |with|
      ensures Next(p, all[k], with[k], all[k + 1])
    {
      if k > 0 {
        NextOfRun(p, states, envs, k - 1);
        assert all[k] == states[k - 1] && all[k + 1] == states[k] && with[k] == envs[k - 1];
      }
    }
  }

  lemma PrependToRun(p: Params, s: CoreState, env: Env, states: seq<CoreState>, envs: seq<Env>)
    requires FirstFinish(p, states, envs) && !IsFinish(s) && Next(p, s, env, states[0])
    ensures FirstFinish(p, [s] + states, [env] + envs) && ([s] + states)[|envs| + 1] == states[|envs|]
  {
    PrependStep(p, s, env, states, envs);
    var all := [s] + states;
    forall k | 0 <= k < |envs| + 1
      ensures !IsFinish(all[k])
    {
      assert all[k] == if k == 0 then s else states[k - 1];
    }
  }

  /** From a losing core there is a run to a first finished state, in which the lane is doomed. */
  lemma {:induction false} LosingRun(prog: seq<seq<Instr>>, p: Params, c: nat, s: CoreState)
    returns (states: seq<CoreState>, envs: seq<Env>)
    requires LosingCore(prog, p, c, s)
    ensures FirstFinish(p, states, envs) && states[0] == s && LosingCore(prog, p, c, states[|envs|])
    decreases |s.inputs|, SlowWork(p.cfg, s.lanes[0])
  {
    if IsFinish(s) {
      states, envs := [s], [];
    } else {
      var env, t := LosingStep(prog, p, c, s);
      var rest, later := LosingRun(prog, p, c, t);
      PrependToRun(p, s, env, rest, later);
      states, envs := [s] + rest, [env] + later;
    }
  }

  /** All chains, `c` last. */
  function LastOf(n: nat, c: nat): (order: seq<nat>)
    requires c < n
    ensures |order| == n && order[n - 1] == c
  {
    seq(n, k requires 0 <= k < n => if k < c then k else if k < n - 1 then k + 1 else c)
  }

  lemma LastOfIsAll(n: nat, c: nat)
    requires c < n
    ensures NoRepeats(LastOf(n, c)) && forall x: nat :: x in LastOf(n, c) <==> x < n
  {
    forall x: nat | x < n
      ensures x in LastOf(n, c)
    {
      assert LastOf(n, c)[if x < c then x else if x == c then n - 1 else x - 1] == x;
    }
  }

  lemma OneLanePlaced(prog: seq<seq<Instr>>, order: seq<nat>)
    requires NoRepeats(order) && forall x: nat :: x in order <==> x < |prog|
    ensures Prescheduled(prog, seq(|prog|, _ => 0), [order], [TotalSize(prog, order)])
  {
    assert LanePlaced(prog, seq(|prog|, _ => 0), [], order, TotalSize(prog, order), 0);
  }

  lemma LosingStart(prog: seq<seq<Instr>>, p: Params, c: nat, order: seq<nat>, sizes: seq<int>)
    requires ProgramOk(prog) && p.numChains == |prog| && (p.cfg.mode == 3 ==> ProgramFits(prog, p))
    requires c < |prog| && !AllButLastShort(p.cfg, prog[c]) && order != [] && order[|order| - 1] == c
    requires Prescheduled(prog, seq(|prog|, _ => 0), [order], sizes)
    ensures LosingCore(prog, p, c, InitialState(prog, map[], [order], sizes))
  {
    InitialKeeps(prog, map[], seq(|prog|, _ => 0), p.cfg, [order], sizes);
    InitialStalls(prog, map[], [order], sizes);
    assert InitialState(prog, map[], [order], sizes).lanes == [EMPTY_LANE];
  }

  /**
   A program with a slow instruction before the last one of some chain, on one lane and
   without dependencies: there is a run whose first finished state lacks an instruction.
   */
  lemma SlowProgramLoses(prog: seq<seq<Instr>>, p: Params)
    returns (home: seq<nat>, buffers: seq<seq<nat>>, sizes: seq<int>, states: seq<CoreState>, envs: seq<Env>)
    requires ProgramOk(prog) && p.numChains == |prog| && (p.cfg.mode == 3 ==> ProgramFits(prog, p))
    requires !Timely(p.cfg, prog)
    ensures RunOf(prog, p, map[], home, buffers, sizes, states, envs) && |buffers| == 1
    ensures FirstFinish(p, states, envs) && !AllRetired(prog, states[|envs|])
  {
    var c: nat :| c < |prog| && !AllButLastShort(p.cfg, prog[c]);
    var order := LastOf(|prog|, c);
    LastOfIsAll(|prog|, c);
    OneLanePlaced(prog, order);
    home, buffers, sizes := seq(|prog|, _ => 0), [order], [TotalSize(prog, order)];
    LosingStart(prog, p, c, order, sizes);
    states, envs := LosingRun(prog, p, c, InitialState(prog, map[], buffers, sizes));
    LosesOne(prog, p, c, states[|envs|]);
    NoDependencies();
  }

  lemma NoDependencies()
    ensures Acyclic(MapEdges(map[]))
  {
    assert Ranked(MapEdges(map[]), map[]);
    AcyclicIffRanked(MapEdges(map[]));
  }

  lemma LosesOne(prog: seq<seq<Instr>>, p: Params, c: nat, s: CoreState)
    requires LosingCore(prog, p, c, s) && IsFinish(s)
    ensures !AllRetired(prog, s)
  {
    var home := seq(|prog|, _ => 0);
    NothingWaits(prog, home, p, s);
    DoomedFree(p.cfg, s.lanes[0]);
    FinishMeansLoaded(prog, map[], home, p.cfg, s);
    assert s.lanes[0].retired + s.lanes[0].fetched == Code(prog, s.lanes[0].scheduled);
  }

  // ---------- The exact condition ----------

  /** However the program is placed and whatever Ruby does, finished means that every instruction has retired. */
  ghost predicate AlwaysComplete(prog: seq<seq<Instr>>, p: Params)
  {
    forall deps0, home, buffers, sizes, states, envs, k: nat ::
      RunOf(prog, p, deps0, home, buffers, sizes, states, envs) && k < |states| && IsFinish(states[k]) ==>
        AllRetired(prog, states[k])
  }

  /**
   Finished means that every instruction has retired, in all runs, exactly when in every
   chain no instruction but the last executes for more than three cycles or waits for memory.
   */
  lemma FinishCompleteIff(prog: seq<seq<Instr>>, p: Params)
    requires ProgramOk(prog) && p.numChains == |prog| && (p.cfg.mode == 3 ==> ProgramFits(prog, p))
    ensures AlwaysComplete(prog, p) <==> Timely(p.cfg, prog)
  {
    if Timely(p.cfg, prog) {
      forall deps0, home, buffers, sizes, states, envs, k: nat |
        RunOf(prog, p, deps0, home, buffers, sizes, states, envs) && k < |states| && IsFinish(states[k])
        ensures AllRetired(prog, states[k])
      {
        TimelyFinishIsComplete(prog, p, deps0, home, buffers, sizes, states, envs, k);
      }
    } else {
      var home, buffers, sizes, states, envs := SlowProgramLoses(prog, p);
      assert RunOf(prog, p, map[], home, buffers, sizes, states, envs) && IsFinish(states[|envs|]);
    }
  }
}
