/**
 What "finished" means for the instructions (src/Core.cpp, is_finish, with
 src/Lane.cpp, is_free).  The test does not look at the fetch stacks.  They are empty when
 it succeeds if, in every chain, no instruction but the last executes for more than three
 cycles or waits for memory; then everything has retired.
 */
module Finish {
  import opened Digraph
  import opened Lanes
  import opened MemorySystem
  import opened Machine
  import opened Dispatch

  // ---------- One lane ----------

  /** The instruction leaves the execution stage before the next one has been fetched. */
  predicate Short(cfg: Config, ins: Instr)
  {
    0 <= ExeDelay(cfg, ins) <= 3
  }

  /** No instruction that another one follows holds up the execution stage. */
  ghost predicate AllButLastShort(cfg: Config, instrs: seq<Instr>)
  {
    forall k :: 0 <= k < |instrs| - 1 ==> Short(cfg, instrs[k])
  }

  /** The instructions in the lane. */
  ghost function Inside(s: LaneState): seq<Instr>
  {
    s.executing + s.fetched + s.queue
  }

  /** What has been fetched is issued as soon as its fetch delay is over. */
  ghost predicate InStep(s: LaneState)
  {
    && (s.fetched != [] ==>
          && |s.fetched| == 1 && s.fetchCnt >= 1
          && (s.executing != [] ==> s.fetchCnt >= 2 && 0 <= s.exeCnt < s.fetchCnt))
    && (s.queue != [] && s.executing != [] ==> s.fetched != [])
  }

  ghost predicate TimelyLane(cfg: Config, s: LaneState)
  {
    InStep(s) && AllButLastShort(cfg, Inside(s))
  }

  lemma RetiredInside(cfg: Config, c: LaneState)
    requires |c.executing| <= 1 && Retires(c)
    ensures Inside(Executed(cfg, c)) == Inside(c)[1..]
  {
    assert Executed(cfg, c).executing == [];
    assert Inside(c) == [c.executing[0]] + Inside(Executed(cfg, c));
  }

  lemma IssuedInside(cfg: Config, c: LaneState)
    requires Issues(c)
    ensures Inside(Executed(cfg, c)) == Inside(c)
  {
    assert Inside(c) == c.fetched + c.queue;
    assert c.fetched == [c.fetched[0]] + c.fetched[1..];
  }

  lemma ExecutedInside(cfg: Config, c: LaneState)
    requires |c.executing| <= 1
    ensures Inside(Executed(cfg, c)) == if Retires(c) then Inside(c)[1..] else Inside(c)
  {
    if Retires(c) {
      RetiredInside(cfg, c);
    } else if Issues(c) {
      IssuedInside(cfg, c);
    }
  }

  lemma FetchedInside(e: LaneState)
    ensures Inside(Fetched(e)) == Inside(e)
  {
    if e.queue != [] {
      assert e.queue == [e.queue[0]] + e.queue[1..];
    }
  }

  lemma RunInside(cfg: Config, s: LaneState)
    requires LaneOk(cfg, s)
    ensures Inside(RunLane(cfg, s)) == if Retires(Counted(s)) then Inside(s)[1..] else Inside(s)
  {
    ExecutedInside(cfg, Counted(s));
    FetchedInside(Executed(cfg, Counted(s)));
  }

  lemma RunKeepsInStep(cfg: Config, s: LaneState)
    requires LaneOk(cfg, s) && TimelyLane(cfg, s)
    ensures InStep(RunLane(cfg, s))
  {
    if Issues(Counted(s)) {
      assert Inside(s)[0] == s.fetched[0];
    }
  }

  /** A cycle keeps a lane timely, whatever the memory mode. */
  lemma RunKeepsTimely(cfg: Config, s: LaneState)
    requires LaneOk(cfg, s) && TimelyLane(cfg, s)
    ensures TimelyLane(cfg, RunLane(cfg, s))
  {
    RunKeepsInStep(cfg, s);
    RunInside(cfg, s);
  }

  /** A free lane that is timely is empty, and stays timely when it takes a chain. */
  lemma LoadKeepsTimely(cfg: Config, s: LaneState, chain: nat, instrs: seq<Instr>)
    requires TimelyLane(cfg, s) && FreeLane(s) && AllButLastShort(cfg, instrs)
    ensures Drained(s) && TimelyLane(cfg, LoadLane(s, chain, instrs))
  {
    assert Inside(LoadLane(s, chain, instrs)) == instrs;
  }

  // ---------- All lanes ----------

  ghost predicate AllTimely(cfg: Config, lanes: seq<LaneState>)
  {
    forall l :: 0 <= l < |lanes| ==> TimelyLane(cfg, lanes[l])
  }

  /** In every chain, every instruction but the last executes for at most three cycles and does not wait for memory. */
  ghost predicate Timely(cfg: Config, prog: seq<seq<Instr>>)
  {
    forall c :: 0 <= c < |prog| ==> AllButLastShort(cfg, prog[c])
  }

  lemma MidKeepsTimely(prog: seq<seq<Instr>>, p: Params, s: CoreState, env: Env)
    requires Streams(prog, p.cfg, s.lanes) && AllTimely(p.cfg, s.lanes)
    ensures AllTimely(p.cfg, MidCycle(p, s, env).lanes)
  {
    var ran, r := RunAll(p.cfg, s.lanes), SendRequests(p, RunCore(p, s));
    var mid := MidCycle(p, s, env).lanes;
    WokenIsOnlyWoken(ran, r.reqMap, Answered(Accessed(r.mem, env.ready), env.responses));
    forall l | 0 <= l < |mid|
      ensures TimelyLane(p.cfg, mid[l])
    {
      assert LaneStream(prog, p.cfg, s.lanes[l]);
      RunKeepsTimely(p.cfg, s.lanes[l]);
      assert Inside(mid[l]) == Inside(ran[l]);
    }
  }

  lemma OfferKeepsTimely(prog: seq<seq<Instr>>, p: Params, s: CoreState, i: nat)
    requires InputsOk(prog, s.inputs) && Timely(p.cfg, prog) && AllTimely(p.cfg, s.lanes)
    ensures AllTimely(p.cfg, ScheduleLane(p, s, i).lanes) && InputsOk(prog, ScheduleLane(p, s, i).inputs)
  {
    if Loads(p, s, i) {
      var c := s.buffers[i][FirstEligible(s.pending, p.numChains, s.buffers[i])];
      var j := FindChain(s.inputs, c);
      LoadKeepsTimely(p.cfg, s.lanes[i], c, s.inputs[j].instrs);
      RemoveInput(prog, s.inputs, j);
    }
  }

  lemma ScheduleKeepsTimely(prog: seq<seq<Instr>>, p: Params, s: CoreState, n: nat)
    requires InputsOk(prog, s.inputs) && Timely(p.cfg, prog) && AllTimely(p.cfg, s.lanes)
    ensures AllTimely(p.cfg, ScheduleLanes(p, s, n).lanes) && InputsOk(prog, ScheduleLanes(p, s, n).inputs)
  {
    var inv := (s: CoreState) => AllTimely(p.cfg, s.lanes) && InputsOk(prog, s.inputs);
    forall t, i: nat | inv(t)
      ensures inv(ScheduleLane(p, t, i))
    {
      OfferKeepsTimely(prog, p, t, i);
    }
    ScheduleInduction(p, s, inv, n);
  }

  ghost predicate TimelyCore(prog: seq<seq<Instr>>, deps0: map<nat, set<nat>>, home: seq<nat>, p: Params, s: CoreState)
  {
    CoreInv(prog, deps0, home, p.cfg, s) && AllTimely(p.cfg, s.lanes)
  }

  lemma CycleKeepsTimely(prog: seq<seq<Instr>>, deps0: map<nat, set<nat>>, home: seq<nat>, p: Params, s: CoreState,
                         env: Env)
    requires TimelyCore(prog, deps0, home, p, s) && Timely(p.cfg, prog)
    requires p.numChains == |prog| && DepsWithin(deps0, |prog|)
    ensures TimelyCore(prog, deps0, home, p, Cycle(p, s, env))
  {
    MidKeepsTimely(prog, p, s, env);
    ScheduleKeepsTimely(prog, p, MidCycle(p, s, env), |s.lanes|);
    CycleKeeps(prog, deps0, home, p, s, env);
  }

  // ---------- Whole runs ----------

  /** A run of the program from a prescheduled core, with acyclic dependencies. */
  ghost predicate RunOf(prog: seq<seq<Instr>>, p: Params, deps0: map<nat, set<nat>>, home: seq<nat>,
                        buffers: seq<seq<nat>>, sizes: seq<int>, states: seq<CoreState>, envs: seq<Env>)
  {
    && Prescheduled(prog, home, buffers, sizes) && DepsWithin(deps0, |prog|) && Acyclic(MapEdges(deps0))
    && IsRun(p, states, envs) && states[0] == InitialState(prog, deps0, buffers, sizes)
  }

  lemma NextTimely(prog: seq<seq<Instr>>, deps0: map<nat, set<nat>>, home: seq<nat>, p: Params,
                   s: CoreState, env: Env, t: CoreState)
    requires TimelyCore(prog, deps0, home, p, s) && Timely(p.cfg, prog) && Next(p, s, env, t)
    requires p.numChains == |prog| && DepsWithin(deps0, |prog|)
    ensures TimelyCore(prog, deps0, home, p, t)
  {
    CycleKeepsTimely(prog, deps0, home, p, s, env);
  }

  lemma RunStaysTimely(prog: seq<seq<Instr>>, deps0: map<nat, set<nat>>, home: seq<nat>, p: Params,
                       states: seq<CoreState>, envs: seq<Env>, k: nat)
    requires IsRun(p, states, envs) && k < |states| && TimelyCore(prog, deps0, home, p, states[0])
    requires Timely(p.cfg, prog) && p.numChains == |prog| && DepsWithin(deps0, |prog|)
    ensures TimelyCore(prog, deps0, home, p, states[k])
  {
    var inv := (_: nat, s: CoreState) => TimelyCore(prog, deps0, home, p, s);
    forall m: nat, s, env, t | inv(m, s) && Next(p, s, env, t)
      ensures inv(m + 1, t)
    {
      NextTimely(prog, deps0, home, p, s, env, t);
    }
    RunInduction(p, states, envs, inv, k);
  }

  lemma StartsTimely(prog: seq<seq<Instr>>, deps0: map<nat, set<nat>>, home: seq<nat>, p: Params,
                     buffers: seq<seq<nat>>, sizes: seq<int>)
    requires Prescheduled(prog, home, buffers, sizes)
    ensures TimelyCore(prog, deps0, home, p, InitialState(prog, deps0, buffers, sizes))
  {
    InitialKeeps(prog, deps0, home, p.cfg, buffers, sizes);
    var lanes := InitialState(prog, deps0, buffers, sizes).lanes;
    assert forall l :: 0 <= l < |lanes| ==> lanes[l] == EMPTY_LANE;
  }

  /** Everything that was loaded into the lanes has retired, in order. */
  ghost predicate AllRetired(prog: seq<seq<Instr>>, s: CoreState)
  {
    forall l :: 0 <= l < |s.lanes| ==> s.lanes[l].retired == Code(prog, s.lanes[l].scheduled)
  }

  lemma FinishRetires(prog: seq<seq<Instr>>, deps0: map<nat, set<nat>>, home: seq<nat>, p: Params, s: CoreState)
    requires TimelyCore(prog, deps0, home, p, s) && IsFinish(s)
    ensures AllRetired(prog, s)
  {
    FinishMeansLoaded(prog, deps0, home, p.cfg, s);
    forall l | 0 <= l < |s.lanes|
      ensures s.lanes[l].retired == Code(prog, s.lanes[l].scheduled)
    {
      assert FreeLane(s.lanes[l]) && TimelyLane(p.cfg, s.lanes[l]);
      assert s.lanes[l].fetched == [];
    }
  }

  /**
   When no chain has a slow instruction before its last one, a run that is reported
   finished has loaded every chain and retired every instruction, in every memory mode and
   whatever Ruby does.
   */
  lemma TimelyFinishIsComplete(prog: seq<seq<Instr>>, p: Params, deps0: map<nat, set<nat>>, home: seq<nat>,
                               buffers: seq<seq<nat>>, sizes: seq<int>,
                               states: seq<CoreState>, envs: seq<Env>, k: nat)
    requires RunOf(prog, p, deps0, home, buffers, sizes, states, envs) && p.numChains == |prog|
    requires Timely(p.cfg, prog) && k < |states| && IsFinish(states[k])
    ensures AllRetired(prog, states[k])
    ensures forall c :: 0 <= c < |prog| ==> home[c] < |states[k].lanes| && c in states[k].lanes[home[c]].scheduled
  {
    StartsTimely(prog, deps0, home, p, buffers, sizes);
    RunStaysTimely(prog, deps0, home, p, states, envs, k);
    FinishRetires(prog, deps0, home, p, states[k]);
    FinishMeansLoaded(prog, deps0, home, p.cfg, states[k]);
  }

  /** The same for runs without Ruby. */
  lemma SilentFinishRetires(prog: seq<seq<Instr>>, deps0: map<nat, set<nat>>, home: seq<nat>, p: Params, s: CoreState, n: nat)
    requires TimelyCore(prog, deps0, home, p, s) && Timely(p.cfg, prog) && IsFinish(After(p, s, n))
    requires p.numChains == |prog| && DepsWithin(deps0, |prog|)
    ensures AllRetired(prog, After(p, s, n))
  {
    var envs := AftersRun(p, s, n);
    RunStaysTimely(prog, deps0, home, p, Afters(p, s, n), envs, n);
    FinishRetires(prog, deps0, home, p, After(p, s, n));
  }
}
