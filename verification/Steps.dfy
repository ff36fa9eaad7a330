/**
 What the core object may rely on between the steps of a cycle.
 */
module Steps {
  import opened Lanes
  import opened MemorySystem
  import opened Machine
  import opened Dispatch
  import opened Progress
  import opened Stalls

  /** The memory side of a reachable state: matched stalls, or no memory activity at all. */
  ghost predicate MemoryReady(prog: seq<seq<Instr>>, p: Params, s: CoreState)
  {
    (StallInv(s) && ProgramFits(prog, p)) || (p.cfg.mode != 3 && Quiet(s))
  }

  ghost predicate Reachable(prog: seq<seq<Instr>>, deps0: map<nat, set<nat>>, home: seq<nat>, p: Params, s: CoreState)
  {
    && CoreInv(prog, deps0, home, p.cfg, s) && MemoryReady(prog, p, s)
    && ProgramOk(prog) && DepsWithin(deps0, |prog|) && p.numChains == |prog|
  }

  lemma {:induction false} FinishesWithin(prog: seq<seq<Instr>>, cfg: Config, lanes: seq<LaneState>, q: nat)
    requires ProgramOk(prog) && Streams(prog, cfg, lanes) && q in AllFinishes(lanes)
    ensures q < |prog|
  {
    FinishesOfAll(lanes, q);
    var l :| 0 <= l < |lanes| && q in Finishes(lanes[l]);
    var ins := lanes[l].executing[0];
    assert LaneStream(prog, cfg, lanes[l]) && ins in Stream(lanes[l]);
    CodeMembers(prog, lanes[l].scheduled, ins);
    var k :| 0 <= k < |lanes[l].scheduled| && ins in CodeOf(prog, lanes[l].scheduled[k]);
  }

  lemma RequestsReady(prog: seq<seq<Instr>>, deps0: map<nat, set<nat>>, home: seq<nat>, p: Params, s: CoreState)
    requires Reachable(prog, deps0, home, p, s)
    ensures forall q :: q in RunCore(p, s).requests ==> q.1 in p.access
  {
    if p.cfg.mode != 3 && Quiet(s) {
      NoRequests(p.cfg, s.lanes);
    } else {
      RequestsMapped(prog, p, s.lanes);
    }
  }

  lemma MemoryStaysOk(prog: seq<seq<Instr>>, deps0: map<nat, set<nat>>, home: seq<nat>, p: Params, s: CoreState)
    requires Reachable(prog, deps0, home, p, s)
    ensures MemOk(SendRequests(p, RunCore(p, s)).mem)
  {
    if p.cfg.mode != 3 && Quiet(s) {
      NoRequests(p.cfg, s.lanes);
      assert IssuedLines(EMPTY_MEMORY.buffer) == multiset{};
    } else {
      SentMatches(prog, deps0, home, p, s);
    }
  }

  /** Requests can be sent, and finished chains are chains. */
  lemma AfterRunning(prog: seq<seq<Instr>>, deps0: map<nat, set<nat>>, home: seq<nat>, p: Params, s: CoreState)
    requires Reachable(prog, deps0, home, p, s)
    ensures forall q :: q in RunCore(p, s).requests ==> q.1 in p.access
    ensures forall q :: q in RunCore(p, s).finished ==> q < |prog|
    ensures MemOk(SendRequests(p, RunCore(p, s)).mem)
  {
    RequestsReady(prog, deps0, home, p, s);
    MemoryStaysOk(prog, deps0, home, p, s);
    forall q | q in RunCore(p, s).finished
      ensures q < |prog|
    {
      assert s.finished + AllFinishes(s.lanes) == AllFinishes(s.lanes);
      FinishesWithin(prog, p.cfg, s.lanes, q);
    }
  }

  lemma BuffersWithin(prog: seq<seq<Instr>>, deps0: map<nat, set<nat>>, home: seq<nat>, cfg: Config, s: CoreState)
    requires CoreInv(prog, deps0, home, cfg, s)
    ensures forall l, c :: 0 <= l < |s.buffers| && c in s.buffers[l] ==> c < |prog|
  {
    forall l, c | 0 <= l < |s.buffers| && c in s.buffers[l]
      ensures c < |prog|
    {
      assert LanePlaced(prog, home, Scheduled(s.lanes)[l], s.buffers[l], s.sizes[l], l);
    }
  }

  /** Cycles lead from reachable states to reachable states. */
  lemma ReachableStays(prog: seq<seq<Instr>>, deps0: map<nat, set<nat>>, home: seq<nat>, p: Params, s: CoreState, env: Env)
    requires Reachable(prog, deps0, home, p, s) && EnvOk(p, s, env)
    ensures Reachable(prog, deps0, home, p, Cycle(p, s, env))
  {
    CycleKeeps(prog, deps0, home, p, s, env);
    if p.cfg.mode != 3 && Quiet(s) {
      QuietMidCycle(p, s, env);
      assert forall l :: 0 <= l < |s.lanes| ==> LaneStream(prog, p.cfg, s.lanes[l]);
      RunStaysQuiet(p.cfg, s.lanes);
      ScheduleLanesFrame(p, MidCycle(p, s, env), |s.lanes|);
    } else {
      CycleKeepsStalls(prog, deps0, home, p, s, env);
    }
  }

  /** Everything that the steps of one cycle need, and what the cycle leads to. */
  lemma StepsReady(prog: seq<seq<Instr>>, deps0: map<nat, set<nat>>, home: seq<nat>, p: Params, s: CoreState, env: Env)
    requires Reachable(prog, deps0, home, p, s) && EnvOk(p, s, env)
    ensures forall q :: q in RunCore(p, s).requests ==> q.1 in p.access
    ensures forall q :: q in RunCore(p, s).finished ==> q < |prog|
    ensures MemOk(SendRequests(p, RunCore(p, s)).mem)
    ensures forall q, c :: q in s.deps && c in s.deps[q] ==> c < |prog|
    ensures forall l, c :: 0 <= l < |s.buffers| && c in s.buffers[l] ==> c < |prog|
    ensures Reachable(prog, deps0, home, p, Cycle(p, s, env))
  {
    AfterRunning(prog, deps0, home, p, s);
    forall q, c | q in s.deps && c in s.deps[q]
      ensures c < |prog|
    {
      assert Dep(s.deps, q, c);
    }
    BuffersWithin(prog, deps0, home, p.cfg, s);
    ReachableStays(prog, deps0, home, p, s, env);
  }

  lemma ReachableNext(prog: seq<seq<Instr>>, deps0: map<nat, set<nat>>, home: seq<nat>, p: Params,
                      s: CoreState, env: Env, t: CoreState)
    requires Reachable(prog, deps0, home, p, s) && Next(p, s, env, t)
    ensures Reachable(prog, deps0, home, p, t)
  {
    ReachableStays(prog, deps0, home, p, s, env);
  }

  /** The states of a run from a reachable state are reachable. */
  lemma ReachableInRun(prog: seq<seq<Instr>>, deps0: map<nat, set<nat>>, home: seq<nat>, p: Params,
                       states: seq<CoreState>, envs: seq<Env>, k: nat)
    requires IsRun(p, states, envs) && k < |states| && Reachable(prog, deps0, home, p, states[0])
    ensures Reachable(prog, deps0, home, p, states[k])
  {
    var inv := (_: nat, s: CoreState) => Reachable(prog, deps0, home, p, s);
    forall m: nat, s, env, t | inv(m, s) && Next(p, s, env, t)
      ensures inv(m + 1, t)
    {
      ReachableNext(prog, deps0, home, p, s, env, t);
    }
    RunInduction(p, states, envs, inv, k);
  }
}
