/**
 When the order of instructions is kept in all runs.  Only the first instruction of a chain
 is sure to have retired when the chains that depend on it are loaded.  For every later
 instruction there is a run in which any instruction of another chain overtakes it: each
 chain has a lane of its own, and that one instruction is slow.
 */
module OrderCondition {
  import opened Digraph
  import opened Chains
  import opened Lanes
  import opened Machine
  import opened Dispatch
  import opened Progress
  import opened Finish
  import opened Order
  import opened CoreObject
  import opened Simulator
  import opened PathCovers

  // ---------- One slow instruction ----------

  /** No instruction but number `a` of chain `i` occupies the execution stage, and none accesses memory. */
  ghost predicate OneSlow(prog: seq<seq<Instr>>, i: nat, a: nat)
    requires i < |prog| && a < |prog[i]|
  {
    forall c, ins :: 0 <= c < |prog| && ins in prog[c] ==>
                       !IsMemory(ins) && (ins == prog[i][a] || ins.latency == 0)
  }

  /** The slow instruction has not retired, and executes for at least `left` more cycles once it is issued. */
  ghost predicate SlowedLane(slow: Instr, left: nat, s: LaneState)
  {
    && slow !in s.retired && s.exeCnt >= 0
    && (slow in s.executing ==> s.exeCnt >= left)
    && (s.exeCnt > 0 ==> s.executing == [slow])
  }

  ghost predicate Quick(slow: Instr, instrs: seq<Instr>)
  {
    forall ins :: ins in instrs ==> !IsMemory(ins) && (ins == slow || ins.latency == 0)
  }

  lemma SlowedLaneStays(cfg: Config, slow: Instr, left: nat, s: LaneState)
    requires LaneOk(cfg, s) && SlowedLane(slow, left, s) && left >= 2 && slow.latency >= left
    requires Quick(slow, s.fetched)
    ensures SlowedLane(slow, left - 1, RunLane(cfg, s))
    ensures slow in s.executing ==> RunLane(cfg, s).executing == s.executing && RunLane(cfg, s).exeCnt == s.exeCnt - 1
    ensures slow !in s.executing && slow in RunLane(cfg, s).executing ==> RunLane(cfg, s).exeCnt == slow.latency
  {
    if Issues(Counted(s)) {
      assert s.fetched[0] in s.fetched;
    }
  }

  // ---------- The work beside the slow instruction ----------

  ghost function SlowPart(slow: Instr, s: LaneState): int
  {
    if slow in s.executing then s.exeCnt else slow.latency
  }

  /** All work but what the slow instruction has left to execute. */
  ghost function Rest(cfg: Config, slow: Instr, h: nat, s: CoreState): int
    requires h < |s.lanes|
  {
    CoreWork(cfg, s) - SlowPart(slow, s.lanes[h])
  }

  /** The lane has nothing to do but to wait for the end of an execution. */
  ghost predicate Idle(s: LaneState)
  {
    Drained(s) || s.exeCnt > 0
  }

  ghost predicate AllIdle(lanes: seq<LaneState>)
  {
    forall l :: 0 <= l < |lanes| ==> Idle(lanes[l])
  }

  ghost predicate AllSlowed(cfg: Config, slow: Instr, left: nat, h: nat, lanes: seq<LaneState>)
  {
    forall l :: 0 <= l < |lanes| ==> LaneOk(cfg, lanes[l]) && SlowedLane(slow, left, lanes[l])
                                     && Quick(slow, lanes[l].fetched) && (l != h ==> slow !in lanes[l].executing)
  }

  /** While the slow instruction executes, its lane is credited with the cycle that this takes. */
  lemma ExecutingRest(cfg: Config, slow: Instr, left: nat, h: nat, lanes: seq<LaneState>)
    requires cfg.mode != 3 && h < |lanes| && AllSlowed(cfg, slow, left, h, lanes) && left >= 2 && slow.latency >= left
    requires slow in lanes[h].executing
    ensures LanesWork(cfg, RunAll(cfg, lanes)) < LanesWork(cfg, lanes)
    ensures !AllIdle(lanes) ==> LanesWork(cfg, RunAll(cfg, lanes)) + 1 < LanesWork(cfg, lanes)
  {
    var ran := RunAll(cfg, lanes);
    SlowedLaneStays(cfg, slow, left, lanes[h]);
    var credited := ran[h].(exeCnt := lanes[h].exeCnt);
    assert LaneWork(cfg, credited) == LaneWork(cfg, ran[h]) + 1;
    LanesWorkUpdate(cfg, ran, h, credited);
    forall l | 0 <= l < |lanes|
      ensures LaneWork(cfg, ran[h := credited][l]) <= LaneWork(cfg, lanes[l])
      ensures !Idle(lanes[l]) ==> LaneWork(cfg, ran[h := credited][l]) < LaneWork(cfg, lanes[l])
    {
      LaneWorkDrops(cfg, lanes[l]);
    }
    LanesWorkFalls(cfg, lanes, ran[h := credited]);
    if l :| 0 <= l < |lanes| && !Idle(lanes[l]) {
      LanesWorkDrops(cfg, lanes, ran[h := credited], l);
    }
  }

  lemma RunRest(cfg: Config, slow: Instr, left: nat, h: nat, lanes: seq<LaneState>)
    requires cfg.mode != 3 && h < |lanes| && AllSlowed(cfg, slow, left, h, lanes) && left >= 2 && slow.latency >= left
    ensures var ran := RunAll(cfg, lanes);
            var before, after := LanesWork(cfg, lanes) - SlowPart(slow, lanes[h]), LanesWork(cfg, ran) - SlowPart(slow, ran[h]);
            after <= before && (!AllIdle(lanes) ==> after < before)
  {
    SlowedLaneStays(cfg, slow, left, lanes[h]);
    if slow in lanes[h].executing {
      ExecutingRest(cfg, slow, left, h, lanes);
    } else {
      RunningDrops(cfg, lanes);
    }
  }

  // ---------- A core with one slow instruction ----------

  function Each(n: nat): (r: seq<nat>)
    ensures |r| == n && forall l :: 0 <= l < n ==> r[l] == l
  {
    seq(n, l requires 0 <= l < n => l)
  }

  /** Every chain has a lane of its own, and in chain `i` the instruction `a`, not the first one, is slow. */
  ghost predicate SlowCore(prog: seq<seq<Instr>>, deps0: map<nat, set<nat>>, p: Params, i: nat, a: nat, left: nat, s: CoreState)
  {
    && Runnable(prog, deps0, Each(|prog|), p, s) && DifferentInstrs(prog)
    && |s.lanes| == |prog| && i < |prog| && 0 < a < |prog[i]| && OneSlow(prog, i, a)
    && forall l :: 0 <= l < |s.lanes| ==> SlowedLane(prog[i][a], left, s.lanes[l])
  }

  lemma ExecutingInStream(s: LaneState, ins: Instr)
    ensures ins in s.executing ==> ins in Stream(s)
  {
  }

  lemma LaneHolds(prog: seq<seq<Instr>>, cfg: Config, s: LaneState, ins: Instr)
    requires LaneStream(prog, cfg, s) && ins in Stream(s)
    ensures exists c :: 0 <= c < |prog| && c in s.scheduled && ins in prog[c]
  {
    CodeMembers(prog, s.scheduled, ins);
    var k :| 0 <= k < |s.scheduled| && ins in CodeOf(prog, s.scheduled[k]);
    assert s.scheduled[k] in s.scheduled;
  }

  /** The slow instruction is in its own lane. */
  lemma SlowIsHome(prog: seq<seq<Instr>>, deps0: map<nat, set<nat>>, p: Params, i: nat, a: nat, left: nat, s: CoreState,
                   l: nat)
    requires SlowCore(prog, deps0, p, i, a, left, s) && l < |s.lanes|
    ensures Quick(prog[i][a], s.lanes[l].fetched)
    ensures prog[i][a] in Stream(s.lanes[l]) ==> l == i
    ensures forall c :: c in s.lanes[l].scheduled ==> c == l
  {
    var home, lane := Each(|prog|), s.lanes[l];
    assert LaneStream(prog, p.cfg, lane);
    assert LanePlaced(prog, home, Scheduled(s.lanes)[l], s.buffers[l], s.sizes[l], l);
    forall ins | ins in lane.fetched
      ensures !IsMemory(ins) && (ins == prog[i][a] || ins.latency == 0)
    {
      assert ins in Stream(lane);
      LaneHolds(prog, p.cfg, lane, ins);
    }
    if prog[i][a] in Stream(lane) {
      LaneHolds(prog, p.cfg, lane, prog[i][a]);
      var c :| 0 <= c < |prog| && c in lane.scheduled && prog[i][a] in prog[c];
      assert prog[i][a] in prog[i];
      assert c == i && home[c] == l;
    }
  }

  lemma LanesSlowed(prog: seq<seq<Instr>>, deps0: map<nat, set<nat>>, p: Params, i: nat, a: nat, left: nat, s: CoreState)
    requires SlowCore(prog, deps0, p, i, a, left, s)
    ensures AllSlowed(p.cfg, prog[i][a], left, i, s.lanes)
  {
    forall l | 0 <= l < |s.lanes|
      ensures LaneOk(p.cfg, s.lanes[l]) && Quick(prog[i][a], s.lanes[l].fetched)
      ensures l != i ==> prog[i][a] !in s.lanes[l].executing
    {
      assert LaneStream(prog, p.cfg, s.lanes[l]);
      SlowIsHome(prog, deps0, p, i, a, left, s, l);
    }
  }

  lemma SlowCoreStays(prog: seq<seq<Instr>>, deps0: map<nat, set<nat>>, p: Params, i: nat, a: nat, left: nat,
                      s: CoreState, env: Env, t: CoreState)
    requires SlowCore(prog, deps0, p, i, a, left, s) && 2 <= left <= prog[i][a].latency && Next(p, s, env, t)
    ensures SlowCore(prog, deps0, p, i, a, left - 1, t)
  {
    var slow, mid := prog[i][a], MidCycle(p, s, env);
    RunnableStays(prog, deps0, Each(|prog|), p, s, env);
    LanesSlowed(prog, deps0, p, i, a, left, s);
    QuietMidCycle(p, s, env);
    ScheduleLanesFrame(p, mid, |s.lanes|);
    forall l | 0 <= l < |s.lanes|
      ensures SlowedLane(slow, left - 1, mid.lanes[l])
    {
      SlowedLaneStays(p.cfg, slow, left, s.lanes[l]);
    }
  }

  // ---------- The rest of the work gets done ----------

  /** With idle lanes, every loaded chain has started: the slow instruction is not the first of its chain. */
  lemma IdleStarted(prog: seq<seq<Instr>>, deps0: map<nat, set<nat>>, p: Params, i: nat, a: nat, left: nat, s: CoreState,
                    q: nat)
    requires SlowCore(prog, deps0, p, i, a, left, s) && AllIdle(s.lanes) && q < |prog| && !Waits(s.inputs, q)
    ensures Started(s.lanes, q)
  {
    var home, lane, slow := Each(|prog|), s.lanes[q], prog[i][a];
    assert ChainPlaced(home, Scheduled(s.lanes), s.inputs, s.buffers, q);
    assert LaneStream(prog, p.cfg, lane);
    if Drained(lane) {
      DrainedStarted(prog, p.cfg, s.lanes, q, q);
    } else {
      assert slow in Stream(lane);
      SlowIsHome(prog, deps0, p, i, a, left, s, q);
      SameChain(prog, p.cfg, lane, i, 0, a);
      assert prog[i][0] in prog[i];
      assert HasRetired(lane, i);
    }
  }

  /** A lane that waits for the slow instruction has no chain in its buffer. */
  lemma BufferedIsDrained(prog: seq<seq<Instr>>, deps0: map<nat, set<nat>>, p: Params, i: nat, a: nat, left: nat, s: CoreState,
                          l: nat)
    requires SlowCore(prog, deps0, p, i, a, left, s) && AllIdle(s.lanes) && l < |s.lanes| && s.buffers[l] != []
    ensures Drained(s.lanes[l])
  {
    var home, c := Each(|prog|), s.buffers[l][0];
    assert c in s.buffers[l];
    assert LanePlaced(prog, home, Scheduled(s.lanes)[l], s.buffers[l], s.sizes[l], l);
    assert ChainPlaced(home, Scheduled(s.lanes), s.inputs, s.buffers, c);
    if !Drained(s.lanes[l]) {
      assert LaneStream(prog, p.cfg, s.lanes[l]);
      assert prog[i][a] in Stream(s.lanes[l]);
      LaneHolds(prog, p.cfg, s.lanes[l], prog[i][a]);
      SlowIsHome(prog, deps0, p, i, a, left, s, l);
    }
  }

  lemma IdleLoads(prog: seq<seq<Instr>>, deps0: map<nat, set<nat>>, p: Params, i: nat, a: nat, left: nat, s: CoreState)
    requires SlowCore(prog, deps0, p, i, a, left, s) && AllIdle(s.lanes) && s.inputs != []
    ensures var mid := MidCycle(p, s, SILENT);
            WorkAfter(p, mid, |s.lanes|) < WorkAfter(p, mid, 0)
  {
    var home, mid := Each(|prog|), MidCycle(p, s, SILENT);
    SilentRuby(p, s);
    QuietMidCycle(p, s, SILENT);
    MidCycleKeeps(prog, deps0, home, p, s, SILENT);
    forall q: nat | q < |prog| && !Waits(mid.inputs, q)
      ensures Started(mid.lanes, q)
    {
      IdleStarted(prog, deps0, p, i, a, left, s, q);
    }
    var l := SomeEligible(prog, deps0, home, p, mid);
    assert LaneStream(prog, p.cfg, s.lanes[l]);
    BufferedIsDrained(prog, deps0, p, i, a, left, s, l);
    LaneWorkDrops(p.cfg, s.lanes[l]);
    LoadsInTurn(prog, deps0, home, p, mid, l);
    LoadingDrops(p, mid, l);
  }

  /** Nothing is left to do but to wait for the slow instruction. */
  ghost predicate Settled(s: CoreState)
  {
    s.inputs == [] && AllIdle(s.lanes)
  }

  lemma RestDrops(prog: seq<seq<Instr>>, deps0: map<nat, set<nat>>, p: Params, i: nat, a: nat, left: nat, s: CoreState)
    requires SlowCore(prog, deps0, p, i, a, left, s) && 2 <= left <= prog[i][a].latency && !Settled(s)
    ensures |Cycle(p, s, SILENT).lanes| == |s.lanes|
    ensures Rest(p.cfg, prog[i][a], i, Cycle(p, s, SILENT)) < Rest(p.cfg, prog[i][a], i, s)
  {
    var slow, mid := prog[i][a], MidCycle(p, s, SILENT);
    SilentRuby(p, s);
    QuietMidCycle(p, s, SILENT);
    LanesSlowed(prog, deps0, p, i, a, left, s);
    RunRest(p.cfg, slow, left, i, s.lanes);
    ScheduleLanesFrame(p, mid, |s.lanes|);
    LaterLanesToo(p, mid, 0, |s.lanes|);
    if AllIdle(s.lanes) {
      IdleLoads(prog, deps0, p, i, a, left, s);
    }
  }

  // ---------- The rest is never negative ----------

  lemma {:induction false} WorkAtLeast(cfg: Config, each: nat, instrs: seq<Instr>, ins: Instr)
    requires ins in instrs
    ensures Work(cfg, each, instrs) >= Delay(cfg, ins)
  {
    if instrs[0] != ins {
      WorkAtLeast(cfg, each, instrs[1..], ins);
    }
  }

  lemma {:induction false} InputsAtLeast(cfg: Config, inputs: seq<Chain>, k: nat)
    requires k < |inputs|
    ensures InputsWork(cfg, inputs) >= Work(cfg, 7, inputs[k].instrs)
  {
    if k > 0 {
      InputsAtLeast(cfg, inputs[1..], k - 1);
    }
  }

  lemma {:induction false} LanesAtLeast(cfg: Config, lanes: seq<LaneState>, l: nat)
    requires l < |lanes|
    ensures LanesWork(cfg, lanes) >= LaneWork(cfg, lanes[l])
  {
    if l < |lanes| - 1 {
      LanesAtLeast(cfg, lanes[..|lanes| - 1], l);
    }
  }

  /** An instruction of a loaded chain that has not retired is part of the work of its lane. */
  lemma LoadedPart(prog: seq<seq<Instr>>, cfg: Config, s: LaneState, c: nat, slow: Instr)
    requires LaneStream(prog, cfg, s) && c < |prog| && c in s.scheduled && slow in prog[c] && !IsMemory(slow)
    requires slow !in s.retired
    ensures LaneWork(cfg, s) >= SlowPart(slow, s)
  {
    var k :| 0 <= k < |s.scheduled| && s.scheduled[k] == c;
    assert slow in CodeOf(prog, s.scheduled[k]);
    CodeMembers(prog, s.scheduled, slow);
    assert slow in Stream(s);
    if slow in s.fetched {
      WorkAtLeast(cfg, 2, s.fetched, slow);
    } else if slow in s.queue {
      WorkAtLeast(cfg, 7, s.queue, slow);
    }
  }

  lemma RestIsNat(prog: seq<seq<Instr>>, deps0: map<nat, set<nat>>, p: Params, i: nat, a: nat, left: nat, s: CoreState)
    requires SlowCore(prog, deps0, p, i, a, left, s)
    ensures Rest(p.cfg, prog[i][a], i, s) >= 0
  {
    var slow, lane, home := prog[i][a], s.lanes[i], Each(|prog|);
    assert slow in prog[i];
    LanesAtLeast(p.cfg, s.lanes, i);
    assert LaneStream(prog, p.cfg, lane);
    assert ChainPlaced(home, Scheduled(s.lanes), s.inputs, s.buffers, i);
    if !Waits(s.inputs, i) {
      LoadedPart(prog, p.cfg, lane, i, slow);
    } else if slow !in lane.executing {
      var k :| 0 <= k < |s.inputs| && s.inputs[k].id == i;
      InputsAtLeast(p.cfg, s.inputs, k);
      WorkAtLeast(p.cfg, 7, prog[i], slow);
    }
  }

  // ---------- The run ----------

  /** The slow instruction is still executing after fewer cycles than it takes. */
  ghost predicate SlowAfter(prog: seq<seq<Instr>>, deps0: map<nat, set<nat>>, p: Params, i: nat, a: nat, m: nat, s: CoreState)
  {
    && i < |prog| && a < |prog[i]| && m < prog[i][a].latency
    && SlowCore(prog, deps0, p, i, a, prog[i][a].latency - m, s)
  }

  lemma SlowNext(prog: seq<seq<Instr>>, deps0: map<nat, set<nat>>, p: Params, i: nat, a: nat, m: nat,
                 s: CoreState, env: Env, t: CoreState)
    requires SlowAfter(prog, deps0, p, i, a, m, s) && m + 1 < prog[i][a].latency && Next(p, s, env, t)
    ensures SlowAfter(prog, deps0, p, i, a, m + 1, t)
  {
    SlowCoreStays(prog, deps0, p, i, a, prog[i][a].latency - m, s, env, t);
  }

  lemma SlowInRun(prog: seq<seq<Instr>>, deps0: map<nat, set<nat>>, p: Params, i: nat, a: nat,
                  states: seq<CoreState>, envs: seq<Env>, inv: (nat, CoreState) -> bool, k: nat)
    requires IsRun(p, states, envs) && i < |prog| && a < |prog[i]| && k < |states| && k < prog[i][a].latency
    requires forall m, t :: inv(m, t) <==> SlowAfter(prog, deps0, p, i, a, m, t)
    requires inv(0, states[0])
    ensures inv(k, states[k])
  {
    forall m: nat, t, env, u | m < k && inv(m, t) && Next(p, t, env, u)
      ensures inv(m + 1, u)
    {
      SlowNext(prog, deps0, p, i, a, m, t, env, u);
    }
    RunInduction(p, states, envs, inv, k);
  }

  lemma SlowAlong(prog: seq<seq<Instr>>, deps0: map<nat, set<nat>>, p: Params, i: nat, a: nat, s: CoreState, k: nat)
    requires i < |prog| && a < |prog[i]| && k < prog[i][a].latency
    requires SlowCore(prog, deps0, p, i, a, prog[i][a].latency, s)
    ensures SlowCore(prog, deps0, p, i, a, prog[i][a].latency - k, After(p, s, k))
  {
    var envs := AftersRun(p, s, k);
    var inv := (m: nat, t: CoreState) => SlowAfter(prog, deps0, p, i, a, m, t);
    SlowInRun(prog, deps0, p, i, a, Afters(p, s, k), envs, inv, k);
  }

  /** A cycle of the run: unless the core is settled, work beside the slow instruction goes away. */
  lemma RestAlong(prog: seq<seq<Instr>>, deps0: map<nat, set<nat>>, p: Params, i: nat, a: nat, s: CoreState, k: nat)
    returns (before: nat, after: nat)
    requires i < |prog| && a < |prog[i]| && k + 2 <= prog[i][a].latency
    requires SlowCore(prog, deps0, p, i, a, prog[i][a].latency, s)
    ensures |After(p, s, k).lanes| == |After(p, s, k + 1).lanes| == |prog|
    ensures before == Rest(p.cfg, prog[i][a], i, After(p, s, k)) && after == Rest(p.cfg, prog[i][a], i, After(p, s, k + 1))
    ensures !Settled(After(p, s, k)) ==> after < before
  {
    var left := prog[i][a].latency - k;
    SlowAlong(prog, deps0, p, i, a, s, k);
    SlowAlong(prog, deps0, p, i, a, s, k + 1);
    RestIsNat(prog, deps0, p, i, a, left, After(p, s, k));
    RestIsNat(prog, deps0, p, i, a, left - 1, After(p, s, k + 1));
    if !Settled(After(p, s, k)) {
      RestDrops(prog, deps0, p, i, a, left, After(p, s, k));
    }
    before, after := Rest(p.cfg, prog[i][a], i, After(p, s, k)), Rest(p.cfg, prog[i][a], i, After(p, s, k + 1));
  }

  /** Within as many cycles as there is other work, the core settles. */
  lemma {:induction false} Settles(prog: seq<seq<Instr>>, deps0: map<nat, set<nat>>, p: Params, i: nat, a: nat, bound: nat,
                                   s: CoreState, k: nat) returns (n: nat)
    requires i < |prog| && a < |prog[i]| && k + bound + 2 <= prog[i][a].latency
    requires SlowCore(prog, deps0, p, i, a, prog[i][a].latency, s)
    requires |After(p, s, k).lanes| == |prog| && Rest(p.cfg, prog[i][a], i, After(p, s, k)) <= bound
    ensures n < prog[i][a].latency && Settled(After(p, s, n))
    decreases bound
  {
    n := k;
    if !Settled(After(p, s, k)) {
      var before, after := RestAlong(prog, deps0, p, i, a, s, k);
      n := Settles(prog, deps0, p, i, a, bound - 1, s, k + 1);
    }
  }

  /** In a settled core every instruction of the other chains has retired, and the slow one has not. */
  lemma SettledOvertakes(prog: seq<seq<Instr>>, deps0: map<nat, set<nat>>, p: Params, i: nat, a: nat, left: nat, s: CoreState,
                         j: nat, b: nat)
    requires SlowCore(prog, deps0, p, i, a, left, s) && Settled(s)
    requires j < |prog| && j != i && b < |prog[j]|
    ensures Retired(s.lanes, prog[j][b]) && !Retired(s.lanes, prog[i][a])
  {
    var home, lane := Each(|prog|), s.lanes[j];
    assert LaneStream(prog, p.cfg, lane);
    assert ChainPlaced(home, Scheduled(s.lanes), s.inputs, s.buffers, j);
    assert !Waits(s.inputs, j);
    SlowIsHome(prog, deps0, p, i, a, left, s, j);
    ExecutingInStream(lane, prog[i][a]);
    var k :| 0 <= k < |lane.scheduled| && lane.scheduled[k] == j;
    assert prog[j][b] in CodeOf(prog, lane.scheduled[k]);
    CodeMembers(prog, lane.scheduled, prog[j][b]);
    assert Stream(lane) == lane.retired;
  }

  // ---------- The same run in every memory mode ----------

  /** Without memory instructions, the configuration does not matter. */
  ghost predicate NoMemory(lanes: seq<LaneState>)
  {
    forall l, ins :: 0 <= l < |lanes| && ins in lanes[l].fetched ==> !IsMemory(ins)
  }

  lemma SameLaneRun(a: Config, b: Config, id: nat, s: LaneState)
    requires forall ins :: ins in s.fetched ==> !IsMemory(ins)
    ensures RunLane(a, s) == RunLane(b, s) && Requests(a, id, s) == Requests(b, id, s)
  {
    if Issues(Counted(s)) {
      assert s.fetched[0] in s.fetched;
    }
  }

  lemma {:induction false} SameRequests(a: Config, b: Config, lanes: seq<LaneState>)
    requires NoMemory(lanes)
    ensures AllRequests(a, lanes) == AllRequests(b, lanes)
  {
    if lanes != [] {
      SameRequests(a, b, lanes[..|lanes| - 1]);
      SameLaneRun(a, b, |lanes| - 1, lanes[|lanes| - 1]);
    }
  }

  lemma {:induction false} SameSchedule(p: Params, q: Params, s: CoreState, n: nat)
    requires p.numChains == q.numChains
    ensures ScheduleLanes(p, s, n) == ScheduleLanes(q, s, n)
  {
    if n > 0 {
      SameSchedule(p, q, s, n - 1);
    }
  }

  lemma SameCycle(p: Params, q: Params, s: CoreState, env: Env)
    requires q == p.(cfg := q.cfg) && NoMemory(s.lanes)
    ensures Cycle(p, s, env) == Cycle(q, s, env)
  {
    forall l | 0 <= l < |s.lanes|
      ensures RunLane(p.cfg, s.lanes[l]) == RunLane(q.cfg, s.lanes[l])
    {
      SameLaneRun(p.cfg, q.cfg, l, s.lanes[l]);
    }
    SameRequests(p.cfg, q.cfg, s.lanes);
    assert RunAll(p.cfg, s.lanes) == RunAll(q.cfg, s.lanes);
    assert RunCore(p, s) == RunCore(q, s);
    SameSchedule(p, q, MidCycle(p, s, env), |s.lanes|);
  }

  lemma SilentNext(prog: seq<seq<Instr>>, deps0: map<nat, set<nat>>, p: Params, q: Params, i: nat, a: nat,
                   s: CoreState, k: nat)
    requires i < |prog| && a < |prog[i]| && k < prog[i][a].latency && q == p.(cfg := q.cfg)
    requires SlowCore(prog, deps0, p, i, a, prog[i][a].latency, s)
    ensures Next(q, After(p, s, k), SILENT, After(p, s, k + 1))
  {
    SlowAlong(prog, deps0, p, i, a, s, k);
    SlowFetchesNoMemory(prog, deps0, p, i, a, prog[i][a].latency - k, After(p, s, k));
    SameCycle(p, q, After(p, s, k), SILENT);
    SilentRuby(q, After(p, s, k));
  }

  lemma SilentAt(prog: seq<seq<Instr>>, deps0: map<nat, set<nat>>, p: Params, q: Params, i: nat, a: nat,
                 s: CoreState, n: nat, envs: seq<Env>, k: nat)
    requires i < |prog| && a < |prog[i]| && n < prog[i][a].latency && q == p.(cfg := q.cfg)
    requires SlowCore(prog, deps0, p, i, a, prog[i][a].latency, s)
    requires k < n == |envs| && envs[k] == SILENT
    ensures Next(q, Afters(p, s, n)[k], envs[k], Afters(p, s, n)[k + 1])
  {
    SilentNext(prog, deps0, p, q, i, a, s, k);
  }

  /** The silent run of the core, with the configuration of `q`. */
  lemma SilentRun(prog: seq<seq<Instr>>, deps0: map<nat, set<nat>>, p: Params, q: Params, i: nat, a: nat,
                  s: CoreState, n: nat) returns (envs: seq<Env>)
    requires i < |prog| && a < |prog[i]| && n < prog[i][a].latency && q == p.(cfg := q.cfg)
    requires SlowCore(prog, deps0, p, i, a, prog[i][a].latency, s)
    ensures |envs| == n && IsRun(q, Afters(p, s, n), envs)
  {
    envs := seq(n, _ => SILENT);
    forall k | 0 <= k < n
      ensures Next(q, Afters(p, s, n)[k], envs[k], Afters(p, s, n)[k + 1])
    {
      SilentAt(prog, deps0, p, q, i, a, s, n, envs, k);
    }
  }

  lemma SlowFetchesNoMemory(prog: seq<seq<Instr>>, deps0: map<nat, set<nat>>, p: Params, i: nat, a: nat, left: nat, s: CoreState)
    requires SlowCore(prog, deps0, p, i, a, left, s)
    ensures NoMemory(s.lanes)
  {
    LanesSlowed(prog, deps0, p, i, a, left, s);
  }

  // ---------- The program ----------

  /** The vertices under their own numbers, one of them with a slow opcode. */
  function Nodes(n: nat): (r: map<nat, nat>)
    ensures forall v: nat :: if v < n then v in r && r[v] == v else v !in r
  {
    if n == 0 then map[] else Nodes(n - 1)[n - 1 := n - 1]
  }

  function Opcodes(n: nat, slow: nat): seq<string>
  {
    seq(n, v => if v == slow then "Div" else "Add")
  }

  function Latencies(latency: nat): map<string, nat>
  {
    map["Add" := 0, "Div" := latency]
  }

  /** The program of the chains in which only vertex `slow` takes time. */
  ghost function SlowProgram(g: Graph, chains: seq<seq<nat>>, slow: nat, latency: nat): seq<seq<Instr>>
    requires Partition(g, chains)
  {
    VerticesDescribed(g, chains, slow, latency);
    ProgramOf(chains, Nodes(|g.out|), Opcodes(|g.out|, slow), Latencies(latency))
  }

  lemma VerticesDescribed(g: Graph, chains: seq<seq<nat>>, slow: nat, latency: nat)
    requires Partition(g, chains)
    ensures Described(chains, Opcodes(|g.out|, slow), Latencies(latency)) && InjectiveOn(g, Nodes(|g.out|))
  {
    forall i, k | 0 <= i < |chains| && 0 <= k < |chains[i]|
      ensures chains[i][k] < |g.out|
    {
      assert chains[i][k] in chains[i];
    }
  }

  lemma OnlyPlace(g: Graph, chains: seq<seq<nat>>, i: nat, a: nat, c: nat, b: nat)
    requires Partition(g, chains) && i < |chains| && a < |chains[i]| && c < |chains| && b < |chains[c]|
    ensures chains[c][b] == chains[i][a] <==> c == i && b == a
    ensures chains[c][b] < |g.out|
  {
    assert chains[c][b] in chains[c] && chains[i][a] in chains[i];
  }

  lemma ProgramIsSlow(g: Graph, chains: seq<seq<nat>>, i: nat, a: nat, latency: nat)
    requires Partition(g, chains) && i < |chains| && a < |chains[i]|
    ensures var prog := SlowProgram(g, chains, chains[i][a], latency);
            && |prog| == |chains| && (forall c :: 0 <= c < |chains| ==> |prog[c]| == |chains[c]|)
            && prog[i][a].latency == latency && OneSlow(prog, i, a)
  {
    var prog := SlowProgram(g, chains, chains[i][a], latency);
    OnlyPlace(g, chains, i, a, i, a);
    forall c, ins | 0 <= c < |prog| && ins in prog[c]
      ensures !IsMemory(ins) && (ins == prog[i][a] || ins.latency == 0)
    {
      var b :| 0 <= b < |prog[c]| && prog[c][b] == ins;
      OnlyPlace(g, chains, i, a, c, b);
    }
  }

  lemma {:induction false} WorkUpdate(cfg: Config, each: nat, instrs: seq<Instr>, k: nat, ins: Instr)
    requires k < |instrs|
    ensures Work(cfg, each, instrs[k := ins]) == Work(cfg, each, instrs) - Delay(cfg, instrs[k]) + Delay(cfg, ins)
  {
    if k > 0 {
      WorkUpdate(cfg, each, instrs[1..], k - 1, ins);
      assert instrs[k := ins][1..] == instrs[1..][k - 1 := ins];
    } else {
      assert instrs[k := ins][1..] == instrs[1..];
    }
  }

  lemma {:induction false} BoundUpdate(cfg: Config, prog: seq<seq<Instr>>, c: nat, instrs: seq<Instr>)
    requires c < |prog|
    ensures Bound(cfg, prog[c := instrs]) == Bound(cfg, prog) - Work(cfg, 7, prog[c]) + Work(cfg, 7, instrs)
  {
    if c > 0 {
      BoundUpdate(cfg, prog[1..], c - 1, instrs);
      assert prog[c := instrs][1..] == prog[1..][c - 1 := instrs];
    } else {
      assert prog[c := instrs][1..] == prog[1..];
    }
  }

  /** The latency of the slow instruction adds just that to the bound of the program. */
  lemma SlowBound(g: Graph, chains: seq<seq<nat>>, i: nat, a: nat, cfg: Config, latency: nat)
    requires Partition(g, chains) && i < |chains| && a < |chains[i]|
    ensures Bound(cfg, SlowProgram(g, chains, chains[i][a], latency))
            == Bound(cfg, SlowProgram(g, chains, chains[i][a], 0)) + latency
  {
    var slow := chains[i][a];
    var quick, prog := SlowProgram(g, chains, slow, 0), SlowProgram(g, chains, slow, latency);
    forall c, b | 0 <= c < |chains| && 0 <= b < |chains[c]|
      ensures prog[c][b] == if c == i && b == a then prog[i][a] else quick[c][b]
    {
      OnlyPlace(g, chains, i, a, c, b);
    }
    assert forall c :: 0 <= c < |chains| && c != i ==> prog[c] == quick[c];
    ProgramIsSlow(g, chains, i, a, latency);
    ProgramIsSlow(g, chains, i, a, 0);
    assert prog[i][a] in prog[i] && quick[i][a] in quick[i];
    assert prog[i] == quick[i][a := prog[i][a]];
    assert prog == quick[i := prog[i]];
    WorkUpdate(cfg, 7, quick[i], a, prog[i][a]);
    BoundUpdate(cfg, quick, i, prog[i]);
  }

  // ---------- An overtaking run ----------

  ghost function Singles(n: nat): (r: seq<seq<nat>>)
    ensures |r| == n && forall l :: 0 <= l < n ==> r[l] == [l]
  {
    seq(n, l requires 0 <= l < n => [l])
  }

  ghost function Sizes(prog: seq<seq<Instr>>): (r: seq<int>)
    ensures |r| == |prog| && forall l :: 0 <= l < |prog| ==> r[l] == |prog[l]|
  {
    seq(|prog|, l requires 0 <= l < |prog| => |prog[l]|)
  }

  lemma EachPlaced(prog: seq<seq<Instr>>)
    ensures Prescheduled(prog, Each(|prog|), Singles(|prog|), Sizes(prog))
  {
    forall l: nat | l < |prog|
      ensures LanePlaced(prog, Each(|prog|), [], Singles(|prog|)[l], Sizes(prog)[l], l)
    {
      assert [l][..0] == [];
      assert TotalSize(prog, [l]) == TotalSize(prog, [l][..0]) + |prog[l]|;
    }
  }

  const PLAIN := Config(0, 0, 0, 0)

  lemma EmptySlowed(prog: seq<seq<Instr>>, deps0: map<nat, set<nat>>, slow: Instr)
    ensures var lanes := InitialState(prog, deps0, Singles(|prog|), Sizes(prog)).lanes;
            |lanes| == |prog| && forall l :: 0 <= l < |lanes| ==> lanes[l] == EMPTY_LANE && SlowedLane(slow, slow.latency, lanes[l])
  {
  }

  lemma SlowStart(prog: seq<seq<Instr>>, deps0: map<nat, set<nat>>, p: Params, i: nat, a: nat)
    requires p.cfg == PLAIN && p.numChains == |prog| && ProgramOk(prog) && NonemptyChains(prog) && DifferentInstrs(prog)
    requires DepsWithin(deps0, |prog|) && Acyclic(MapEdges(deps0))
    requires i < |prog| && 0 < a < |prog[i]| && OneSlow(prog, i, a)
    ensures SlowCore(prog, deps0, p, i, a, prog[i][a].latency, InitialState(prog, deps0, Singles(|prog|), Sizes(prog)))
    ensures CoreWork(p.cfg, InitialState(prog, deps0, Singles(|prog|), Sizes(prog))) == Bound(p.cfg, prog)
  {
    EachPlaced(prog);
    InitialRunnable(prog, deps0, Each(|prog|), p, Singles(|prog|), Sizes(prog));
    EmptySlowed(prog, deps0, prog[i][a]);
  }

  /** From a core with a slow instruction there is a run in which the other chains are done before it retires. */
  lemma OvertakingRun(prog: seq<seq<Instr>>, deps0: map<nat, set<nat>>, p: Params, q: Params, i: nat, a: nat,
                      s: CoreState, rest: nat, j: nat, b: nat) returns (states: seq<CoreState>, envs: seq<Env>)
    requires i < |prog| && a < |prog[i]| && j < |prog| && j != i && b < |prog[j]| && q == p.(cfg := q.cfg)
    requires SlowCore(prog, deps0, p, i, a, prog[i][a].latency, s) && rest + 2 <= prog[i][a].latency
    requires |s.lanes| == |prog| && Rest(p.cfg, prog[i][a], i, s) <= rest
    ensures IsRun(q, states, envs) && states[0] == s
    ensures Retired(states[|envs|].lanes, prog[j][b]) && !Retired(states[|envs|].lanes, prog[i][a])
  {
    var n := Settles(prog, deps0, p, i, a, rest, s, 0);
    states := Afters(p, s, n);
    envs := SilentRun(prog, deps0, p, q, i, a, s, n);
    SlowAlong(prog, deps0, p, i, a, s, n);
    SettledOvertakes(prog, deps0, p, i, a, prog[i][a].latency - n, states[n], j, b);
  }

  lemma SlowSetup(g: Graph, chains: seq<seq<nat>>, unique: map<nat, set<nat>>, p: Params, i: nat, a: nat, latency: nat)
    returns (s: CoreState)
    requires WellChained(g, chains) && MapEdges(unique) == ChainEdges(g, chains) && p.numChains == |chains| && p.cfg == PLAIN
    requires i < |chains| && 0 < a < |chains[i]| && latency > 0
    ensures var prog := SlowProgram(g, chains, chains[i][a], latency);
            && s == InitialState(prog, unique, Singles(|prog|), Sizes(prog))
            && Prescheduled(prog, Each(|prog|), Singles(|prog|), Sizes(prog))
            && DepsWithin(unique, |prog|) && Acyclic(MapEdges(unique))
            && |prog| == |chains| && (forall c :: 0 <= c < |chains| ==> |prog[c]| == |chains[c]|)
            && prog[i][a].latency == latency && SlowCore(prog, unique, p, i, a, latency, s) && |s.lanes| == |prog|
            && Rest(PLAIN, prog[i][a], i, s) == Bound(PLAIN, SlowProgram(g, chains, chains[i][a], 0))
  {
    var slow := chains[i][a];
    var prog := SlowProgram(g, chains, slow, latency);
    ProgramIsSlow(g, chains, i, a, latency);
    SlowBound(g, chains, i, a, PLAIN, latency);
    VerticesDescribed(g, chains, slow, latency);
    CompiledProgram(g, chains, unique, Nodes(|g.out|), Opcodes(|g.out|, slow), Latencies(latency));
    CompiledDiffers(g, chains, Nodes(|g.out|), Opcodes(|g.out|, slow), Latencies(latency));
    SlowStart(prog, unique, p, i, a);
    EachPlaced(prog);
    s := InitialState(prog, unique, Singles(|prog|), Sizes(prog));
    EmptySlowed(prog, unique, prog[i][a]);
  }

  /**
   Any later instruction of a chain can be overtaken by any instruction of another chain: with
   the chains on lanes of their own and that instruction slow enough, there is a run in which
   the other one has retired while it has not, whatever the configuration.
   */
  lemma Overtaken(g: Graph, chains: seq<seq<nat>>, unique: map<nat, set<nat>>, p: Params, i: nat, a: nat, j: nat, b: nat)
    returns (latency: nat, home: seq<nat>, buffers: seq<seq<nat>>, sizes: seq<int>,
             states: seq<CoreState>, envs: seq<Env>)
    requires WellChained(g, chains) && MapEdges(unique) == ChainEdges(g, chains) && p.numChains == |chains|
    requires i < |chains| && 0 < a < |chains[i]| && j < |chains| && b < |chains[j]| && i != j
    ensures var prog := SlowProgram(g, chains, chains[i][a], latency);
            && RunOf(prog, p, unique, home, buffers, sizes, states, envs)
            && |prog| == |chains| && |prog[i]| == |chains[i]| && |prog[j]| == |chains[j]|
            && Retired(states[|envs|].lanes, prog[j][b]) && !Retired(states[|envs|].lanes, prog[i][a])
  {
    var q := p.(cfg := PLAIN);
    var rest := Bound(PLAIN, SlowProgram(g, chains, chains[i][a], 0));
    latency := rest + 2;
    var prog := SlowProgram(g, chains, chains[i][a], latency);
    var s := SlowSetup(g, chains, unique, q, i, a, latency);
    home, buffers, sizes := Each(|prog|), Singles(|prog|), Sizes(prog);
    states, envs := OvertakingRun(prog, unique, q, p, i, a, s, rest, j, b);
  }

  // ---------- The exact condition ----------

  /** An edge leads from vertex `a` of chain `i` to vertex `b` of chain `j`. */
  ghost predicate EdgeFromTo(g: Graph, chains: seq<seq<nat>>, i: nat, a: nat, j: nat, b: nat)
  {
    i < |chains| && a < |chains[i]| && j < |chains| && b < |chains[j]| && HasEdge(g, chains[i][a], chains[j][b])
  }

  /** Every edge out of a chain leaves its first vertex. */
  ghost predicate LiveOutsFirst(g: Graph, chains: seq<seq<nat>>)
  {
    forall i: nat, a: nat, j: nat, b: nat :: EdgeFromTo(g, chains, i, a, j, b) && i != j ==> a == 0
  }

  /** No instruction runs or has retired before one that it needs has retired. */
  ghost predicate OrderKept(g: Graph, chains: seq<seq<nat>>, prog: seq<seq<Instr>>, s: CoreState)
    requires |prog| == |chains| && forall c :: 0 <= c < |chains| ==> |prog[c]| == |chains[c]|
  {
    forall i: nat, a: nat, j: nat, b: nat :: EdgeFromTo(g, chains, i, a, j, b) && Runs(s.lanes, prog[j][b]) ==>
                                               Retired(s.lanes, prog[i][a])
  }

  /**
   The order is kept in all runs of the compiled graph, whatever the opcodes, latencies and
   placement, and whatever Ruby does.
   */
  ghost predicate AlwaysInOrder(g: Graph, chains: seq<seq<nat>>, unique: map<nat, set<nat>>, p: Params)
  {
    forall nodeMap, opcode, latency, home, buffers, sizes, states: seq<CoreState>, envs, k: nat ::
      Described(chains, opcode, latency) && InjectiveOn(g, nodeMap)
      && RunOf(ProgramOf(chains, nodeMap, opcode, latency), p, unique, home, buffers, sizes, states, envs)
      && k < |states| ==>
        OrderKept(g, chains, ProgramOf(chains, nodeMap, opcode, latency), states[k])
  }

  lemma RunKeepsOrder(g: Graph, chains: seq<seq<nat>>, unique: map<nat, set<nat>>, nodeMap: map<nat, nat>,
                      opcode: seq<string>, latency: map<string, nat>, home: seq<nat>, p: Params,
                      buffers: seq<seq<nat>>, sizes: seq<int>, states: seq<CoreState>, envs: seq<Env>, k: nat)
    requires WellChained(g, chains) && MapEdges(unique) == ChainEdges(g, chains) && p.numChains == |chains|
    requires LiveOutsFirst(g, chains) && Described(chains, opcode, latency) && InjectiveOn(g, nodeMap)
    requires RunOf(ProgramOf(chains, nodeMap, opcode, latency), p, unique, home, buffers, sizes, states, envs)
    requires k < |states|
    ensures OrderKept(g, chains, ProgramOf(chains, nodeMap, opcode, latency), states[k])
  {
    var prog := ProgramOf(chains, nodeMap, opcode, latency);
    forall i: nat, a: nat, j: nat, b: nat | EdgeFromTo(g, chains, i, a, j, b) && Runs(states[k].lanes, prog[j][b])
      ensures Retired(states[k].lanes, prog[i][a])
    {
      EdgesKeepOrder(g, chains, unique, nodeMap, opcode, latency, home, p, buffers, sizes, states, envs, k, i, a, j, b);
    }
  }

  /**
   In every configuration, instructions always run after the instructions that they need exactly when
   every edge out of a chain leaves its first vertex.
   */
  lemma OrderKeptIff(g: Graph, chains: seq<seq<nat>>, unique: map<nat, set<nat>>, p: Params)
    requires WellChained(g, chains) && MapEdges(unique) == ChainEdges(g, chains) && p.numChains == |chains|
    ensures AlwaysInOrder(g, chains, unique, p) <==> LiveOutsFirst(g, chains)
  {
    if LiveOutsFirst(g, chains) {
      forall nodeMap, opcode, latency, home, buffers, sizes, states: seq<CoreState>, envs, k: nat |
        Described(chains, opcode, latency) && InjectiveOn(g, nodeMap)
        && RunOf(ProgramOf(chains, nodeMap, opcode, latency), p, unique, home, buffers, sizes, states, envs)
        && k < |states|
        ensures OrderKept(g, chains, ProgramOf(chains, nodeMap, opcode, latency), states[k])
      {
        RunKeepsOrder(g, chains, unique, nodeMap, opcode, latency, home, p, buffers, sizes, states, envs, k);
      }
    } else {
      var i: nat, a: nat, j: nat, b: nat :| EdgeFromTo(g, chains, i, a, j, b) && i != j && a != 0;
      var latency, home, buffers, sizes, states, envs := Overtaken(g, chains, unique, p, i, a, j, b);
      VerticesDescribed(g, chains, chains[i][a], latency);
      var prog := SlowProgram(g, chains, chains[i][a], latency);
      var s := states[|envs|];
      RetiredRuns(s.lanes, prog[j][b]);
      assert !OrderKept(g, chains, prog, s);
    }
  }

  lemma RetiredRuns(lanes: seq<LaneState>, ins: Instr)
    requires Retired(lanes, ins)
    ensures Runs(lanes, ins)
  {
    var l :| 0 <= l < |lanes| && ins in lanes[l].retired;
    assert HasRun(lanes[l], ins);
  }

  // ---------- A graph whose order can be broken ----------

  const GRAPH := Graph([[1], [2], []])
  const CHAINS := [[0, 1], [2]]
  const DEPENDENCIES := map[0 := {1}]

  lemma ChainsSplitGraph()
    ensures ValidGraph(GRAPH) && Partition(GRAPH, CHAINS) && AllForward(GRAPH, CHAINS)
    ensures HasEdge(GRAPH, 1, 2)
  {
    assert CHAINS[0][0] == 0 && CHAINS[0][1] == 1 && CHAINS[1][0] == 2;
    assert GRAPH.out[0] == [1] && GRAPH.out[1] == [2] && GRAPH.out[2] == [];
    forall v: nat | v < 3
      ensures Chained(CHAINS, v)
    {
      assert v == 0 || v == 1 ==> v in CHAINS[0];
      assert v == 2 ==> v in CHAINS[1];
    }
  }

  lemma OneDependency(i: nat, j: nat)
    ensures (i, j) in ChainEdges(GRAPH, CHAINS) <==> i == 0 && j == 1
    ensures (i, j) in MapEdges(DEPENDENCIES) <==> i == 0 && j == 1
  {
    assert GRAPH.out[0] == [1] && GRAPH.out[1] == [2] && GRAPH.out[2] == [];
    ChainEdge(GRAPH, CHAINS, i, j);
    if i == 0 && j == 1 {
      assert CHAINS[0][1] == 1 && CHAINS[1][0] == 2 && HasEdge(GRAPH, 1, 2);
    }
    MapEdge(DEPENDENCIES, i, j);
  }

  lemma ChainsOfGraph()
    ensures ValidGraph(GRAPH) && WellChained(GRAPH, CHAINS) && HasEdge(GRAPH, CHAINS[0][1], CHAINS[1][0])
    ensures MapEdges(DEPENDENCIES) == ChainEdges(GRAPH, CHAINS)
  {
    ChainsSplitGraph();
    forall i: nat, j: nat
      ensures (i, j) in ChainEdges(GRAPH, CHAINS) <==> i == 0 && j == 1
      ensures (i, j) in MapEdges(DEPENDENCIES) <==> i == 0 && j == 1
    {
      OneDependency(i, j);
    }
    PairwiseSubset(MapEdges(DEPENDENCIES), ChainEdges(GRAPH, CHAINS));
    PairwiseSubset(ChainEdges(GRAPH, CHAINS), MapEdges(DEPENDENCIES));
    assert Ranked(ChainEdges(GRAPH, CHAINS), map[0 := 0, 1 := 1]);
    AcyclicIffRanked(ChainEdges(GRAPH, CHAINS));
  }

  /** The path 0, 1, 2 in the chains 0, 1 and 2: there are runs in which 2 does not wait for 1. */
  lemma PathIsOvertaken(p: Params)
    requires p.numChains == 2
    ensures WellChained(GRAPH, CHAINS) && MapEdges(DEPENDENCIES) == ChainEdges(GRAPH, CHAINS)
    ensures !AlwaysInOrder(GRAPH, CHAINS, DEPENDENCIES, p)
  {
    ChainsOfGraph();
    assert EdgeFromTo(GRAPH, CHAINS, 0, 1, 1, 0);
    OrderKeptIff(GRAPH, CHAINS, DEPENDENCIES, p);
  }
}
