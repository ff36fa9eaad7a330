/**
 Without memory waits the core always finishes: a measure of the work that is left
 drops in every cycle, so there is no deadlock and the number of cycles is linear in
 the number of instructions.
 */
module Progress {
  import opened Digraph
  import opened Levels
  import opened Lanes
  import opened MemorySystem
  import opened Machine
  import opened Dispatch

  // ---------- The measure ----------

  ghost function LanesWork(cfg: Config, lanes: seq<LaneState>): nat
  {
    if lanes == [] then 0 else LanesWork(cfg, lanes[..|lanes| - 1]) + LaneWork(cfg, lanes[|lanes| - 1])
  }

  /** A waiting chain costs one unit for its loading. */
  ghost function InputsWork(cfg: Config, inputs: seq<Chain>): nat
  {
    if inputs == [] then 0 else 1 + Work(cfg, 7, inputs[0].instrs) + InputsWork(cfg, inputs[1..])
  }

  ghost function CoreWork(cfg: Config, s: CoreState): nat
  {
    LanesWork(cfg, s.lanes) + InputsWork(cfg, s.inputs)
  }

  /** Seven units and its latency for every instruction, and one unit for every chain. */
  ghost function Bound(cfg: Config, prog: seq<seq<Instr>>): nat
  {
    if prog == [] then 0 else 1 + Work(cfg, 7, prog[0]) + Bound(cfg, prog[1..])
  }

  lemma {:induction false} RemoveInputWork(cfg: Config, inputs: seq<Chain>, j: nat)
    requires j < |inputs|
    ensures InputsWork(cfg, RemoveAt(inputs, j)) == InputsWork(cfg, inputs) - 1 - Work(cfg, 7, inputs[j].instrs)
  {
    if j == 0 {
      assert RemoveAt(inputs, j) == inputs[1..];
    } else {
      RemoveInputWork(cfg, inputs[1..], j - 1);
      assert RemoveAt(inputs, j)[1..] == RemoveAt(inputs[1..], j - 1);
    }
  }

  lemma {:induction false} LanesWorkUpdate(cfg: Config, lanes: seq<LaneState>, i: nat, s: LaneState)
    requires i < |lanes|
    ensures LanesWork(cfg, lanes[i := s]) == LanesWork(cfg, lanes) - LaneWork(cfg, lanes[i]) + LaneWork(cfg, s)
  {
    var n := |lanes| - 1;
    if i < n {
      LanesWorkUpdate(cfg, lanes[..n], i, s);
      assert lanes[i := s][..n] == lanes[..n][i := s];
    } else {
      assert lanes[i := s][..n] == lanes[..n];
    }
  }

  // ---------- No memory activity ----------

  /** Nothing in the core waits for memory. */
  ghost predicate Quiet(s: CoreState)
  {
    && s.requests == [] && s.mem == EMPTY_MEMORY
    && forall l :: 0 <= l < |s.lanes| ==> s.lanes[l].exeCnt >= 0
  }

  lemma {:induction false} NoRequests(cfg: Config, lanes: seq<LaneState>)
    requires cfg.mode != 3
    ensures AllRequests(cfg, lanes) == []
  {
    if lanes != [] {
      NoRequests(cfg, lanes[..|lanes| - 1]);
    }
  }

  /** In a quiet core a cycle only runs the lanes, clears the table and loads chains. */
  lemma QuietMidCycle(p: Params, s: CoreState, env: Env)
    requires p.cfg.mode != 3 && Quiet(s) && EnvOk(p, s, env)
    ensures MidCycle(p, s, env).lanes == RunAll(p.cfg, s.lanes)
    ensures MidCycle(p, s, env).inputs == s.inputs && MidCycle(p, s, env).requests == []
    ensures MidCycle(p, s, env).mem == EMPTY_MEMORY
  {
    NoRequests(p.cfg, s.lanes);
    var r := SendRequests(p, RunCore(p, s));
    assert s.requests + AllRequests(p.cfg, s.lanes) == [];
    assert r.mem == EMPTY_MEMORY && Accessed(r.mem, env.ready) == r.mem;
    assert |multiset(env.responses)| <= |r.mem.outstanding|;
    assert env.responses == [];
  }

  lemma RunStaysQuiet(cfg: Config, lanes: seq<LaneState>)
    requires cfg.mode != 3 && forall l :: 0 <= l < |lanes| ==> LaneOk(cfg, lanes[l])
    ensures forall l :: 0 <= l < |lanes| ==> RunAll(cfg, lanes)[l].exeCnt >= 0
  {
    forall l | 0 <= l < |lanes|
      ensures RunAll(cfg, lanes)[l].exeCnt >= 0
    {
      RunLaneKeeps(cfg, lanes[l]);
    }
  }

  // ---------- Running lanes ----------

  /** Running the lanes takes work away unless all of them are drained. */
  lemma {:induction false} LanesWorkFalls(cfg: Config, a: seq<LaneState>, b: seq<LaneState>)
    requires |a| == |b| && forall l :: 0 <= l < |a| ==> LaneWork(cfg, b[l]) <= LaneWork(cfg, a[l])
    ensures LanesWork(cfg, b) <= LanesWork(cfg, a)
  {
    if a != [] {
      LanesWorkFalls(cfg, a[..|a| - 1], b[..|a| - 1]);
    }
  }

  lemma {:induction false} LanesWorkDrops(cfg: Config, a: seq<LaneState>, b: seq<LaneState>, l: nat)
    requires |a| == |b| && forall i :: 0 <= i < |a| ==> LaneWork(cfg, b[i]) <= LaneWork(cfg, a[i])
    requires l < |a| && LaneWork(cfg, b[l]) < LaneWork(cfg, a[l])
    ensures LanesWork(cfg, b) < LanesWork(cfg, a)
  {
    var n := |a| - 1;
    if l < n {
      LanesWorkDrops(cfg, a[..n], b[..n], l);
    } else {
      LanesWorkFalls(cfg, a[..n], b[..n]);
    }
  }

  lemma RunningDrops(cfg: Config, lanes: seq<LaneState>)
    requires cfg.mode != 3 && forall l :: 0 <= l < |lanes| ==> LaneOk(cfg, lanes[l])
    ensures LanesWork(cfg, RunAll(cfg, lanes)) <= LanesWork(cfg, lanes)
    ensures (exists l :: 0 <= l < |lanes| && !Drained(lanes[l])) ==>
              LanesWork(cfg, RunAll(cfg, lanes)) < LanesWork(cfg, lanes)
  {
    forall l | 0 <= l < |lanes|
      ensures LaneWork(cfg, RunAll(cfg, lanes)[l]) <= LaneWork(cfg, lanes[l])
      ensures !Drained(lanes[l]) ==> LaneWork(cfg, RunAll(cfg, lanes)[l]) < LaneWork(cfg, lanes[l])
    {
      LaneWorkDrops(cfg, lanes[l]);
    }
    LanesWorkFalls(cfg, lanes, RunAll(cfg, lanes));
    if l :| 0 <= l < |lanes| && !Drained(lanes[l]) {
      LanesWorkDrops(cfg, lanes, RunAll(cfg, lanes), l);
    }
  }

  lemma DrainedStays(cfg: Config, lanes: seq<LaneState>)
    requires cfg.mode != 3 && forall l :: 0 <= l < |lanes| ==> LaneOk(cfg, lanes[l]) && Drained(lanes[l])
    ensures RunAll(cfg, lanes) == lanes
  {
    forall l | 0 <= l < |lanes|
      ensures RunAll(cfg, lanes)[l] == lanes[l]
    {
      LaneWorkDrops(cfg, lanes[l]);
    }
  }

  // ---------- Loading chains ----------

  lemma ScheduleLaneWork(p: Params, s: CoreState, i: nat)
    ensures CoreWork(p.cfg, ScheduleLane(p, s, i)) == CoreWork(p.cfg, s) - if Loads(p, s, i) then 1 else 0
  {
    if Loads(p, s, i) {
      var k := FirstEligible(s.pending, p.numChains, s.buffers[i]);
      var j := FindChain(s.inputs, s.buffers[i][k]);
      var ch := s.inputs[j];
      RemoveInputWork(p.cfg, s.inputs, j);
      var after := LoadLane(s.lanes[i], s.buffers[i][k], ch.instrs);
      LanesWorkUpdate(p.cfg, s.lanes, i, after);
      WorkConcat(p.cfg, 7, s.lanes[i].queue, ch.instrs);
    }
  }

  /** Offering one lane a chain touches only that lane. */
  lemma ScheduleLaneFrame(p: Params, s: CoreState, i: nat)
    ensures var t := ScheduleLane(p, s, i);
            && |t.lanes| == |s.lanes| && |t.buffers| == |s.buffers| && |t.sizes| == |s.sizes|
            && t.pending == s.pending && t.requests == s.requests && t.mem == s.mem && t.reqMap == s.reqMap
            && (forall l :: 0 <= l < |s.lanes| ==>
                              t.lanes[l] == s.lanes[l].(queue := t.lanes[l].queue, scheduled := t.lanes[l].scheduled))
            && (forall l :: 0 <= l < |s.lanes| && l != i ==> t.lanes[l] == s.lanes[l])
            && (forall l :: 0 <= l < |s.buffers| && l != i ==> t.buffers[l] == s.buffers[l])
  {
  }

  /** Lanes are offered chains one after the other; the lanes not yet reached are untouched. */
  lemma {:induction false} ScheduleLanesFrame(p: Params, s: CoreState, n: nat)
    ensures var t := ScheduleLanes(p, s, n);
            && |t.lanes| == |s.lanes| && |t.buffers| == |s.buffers| && |t.sizes| == |s.sizes|
            && t.pending == s.pending && t.requests == s.requests && t.mem == s.mem && t.reqMap == s.reqMap
            && (forall l :: 0 <= l < |s.lanes| ==>
                              t.lanes[l] == s.lanes[l].(queue := t.lanes[l].queue, scheduled := t.lanes[l].scheduled))
            && (forall l :: n <= l < |s.lanes| ==> t.lanes[l] == s.lanes[l])
            && (forall l :: n <= l < |s.buffers| ==> t.buffers[l] == s.buffers[l])
  {
    if n > 0 {
      ScheduleLanesFrame(p, s, n - 1);
      ScheduleLaneFrame(p, ScheduleLanes(p, s, n - 1), n - 1);
    }
  }

  /** The work left when the first `n` lanes have been offered a chain. */
  ghost function WorkAfter(p: Params, s: CoreState, n: nat): nat
  {
    CoreWork(p.cfg, ScheduleLanes(p, s, n))
  }

  lemma NextLane(p: Params, s: CoreState, n: nat)
    ensures WorkAfter(p, s, n + 1) <= WorkAfter(p, s, n)
    ensures Loads(p, ScheduleLanes(p, s, n), n) ==> WorkAfter(p, s, n + 1) < WorkAfter(p, s, n)
  {
    ScheduleLaneWork(p, ScheduleLanes(p, s, n), n);
  }

  lemma {:induction false} Descends(w: seq<nat>, m: nat, n: nat)
    requires m <= n < |w| && forall k :: 0 <= k < |w| - 1 ==> w[k + 1] <= w[k]
    ensures w[n] <= w[m]
    decreases n
  {
    if m < n {
      Descends(w, m, n - 1);
      assert w[n - 1 + 1] <= w[n - 1];
    }
  }

  /** Offering chains to more lanes adds no work. */
  lemma LaterLanesToo(p: Params, s: CoreState, m: nat, n: nat)
    requires m <= n
    ensures WorkAfter(p, s, n) <= WorkAfter(p, s, m)
  {
    var w := seq(n + 1, k requires 0 <= k <= n => WorkAfter(p, s, k));
    forall k | 0 <= k < n
      ensures w[k + 1] <= w[k]
    {
      NextLane(p, s, k);
    }
    Descends(w, m, n);
  }

  // ---------- No deadlock ----------

  /** Of the waiting chains, one of least rank; the chains that it depends on have been loaded. */
  lemma {:induction false} LeastWaiting(r: map<nat, nat>, inputs: seq<Chain>) returns (c: nat)
    requires inputs != []
    ensures Waits(inputs, c) && forall d :: Waits(inputs, d) ==> Rank(r, c) <= Rank(r, d)
  {
    var first := inputs[0].id;
    if |inputs| == 1 {
      c := first;
      assert inputs[0].id == c;
    } else {
      var rest := inputs[1..];
      var b := LeastWaiting(r, rest);
      c := if Rank(r, first) <= Rank(r, b) then first else b;
      assert inputs[0].id == first;
      var k :| 0 <= k < |rest| && rest[k].id == b;
      assert inputs[k + 1].id == b;
      forall d | Waits(inputs, d)
        ensures Rank(r, c) <= Rank(r, d)
      {
        var i :| 0 <= i < |inputs| && inputs[i].id == d;
        if i > 0 {
          assert rest[i - 1].id == d;
        }
      }
    }
  }

  /** In a drained lane, every loaded chain with an instruction has started. */
  lemma DrainedStarted(prog: seq<seq<Instr>>, cfg: Config, lanes: seq<LaneState>, l: nat, q: nat)
    requires ProgramOk(prog) && l < |lanes| && q < |prog| && prog[q] != []
    requires LaneStream(prog, cfg, lanes[l]) && Drained(lanes[l]) && q in lanes[l].scheduled
    ensures Started(lanes, q)
  {
    var ins := prog[q][0];
    assert ins in prog[q];
    CodeMembers(prog, lanes[l].scheduled, ins);
    var k :| 0 <= k < |lanes[l].scheduled| && lanes[l].scheduled[k] == q;
    assert ins in CodeOf(prog, lanes[l].scheduled[k]);
    assert Stream(lanes[l]) == lanes[l].retired;
    assert HasRetired(lanes[l], q);
  }

  ghost predicate NonemptyChains(prog: seq<seq<Instr>>)
  {
    forall c :: 0 <= c < |prog| ==> prog[c] != []
  }

  /** When every loaded chain has started and chains wait, one of them is eligible. */
  lemma SomeEligible(prog: seq<seq<Instr>>, deps0: map<nat, set<nat>>, home: seq<nat>, p: Params, s: CoreState)
    returns (i: nat)
    requires CoreInv(prog, deps0, home, p.cfg, s) && p.numChains == |prog|
    requires DepsWithin(deps0, |prog|) && Acyclic(MapEdges(deps0))
    requires s.inputs != [] && forall q: nat :: q < |prog| && !Waits(s.inputs, q) ==> Started(s.lanes, q)
    ensures i < |s.lanes| && FirstEligible(s.pending, p.numChains, s.buffers[i]) < |s.buffers[i]|
  {
    var r, top := AcyclicHasRank(MapEdges(deps0));
    var c := LeastWaiting(r, s.inputs);
    var sched := Scheduled(s.lanes);
    assert exists k :: 0 <= k < |s.inputs| && s.inputs[k].id == c;
    i := home[c];
    assert ChainPlaced(home, sched, s.inputs, s.buffers, c);
    forall q: nat | q < |prog|
      ensures (c, q) !in s.pending
    {
      if Dep(deps0, q, c) {
        assert (q, c) in MapEdges(deps0);
        assert !Waits(s.inputs, q);
      }
    }
    assert Eligible(s.pending, p.numChains, c);
    var k :| 0 <= k < |s.buffers[i]| && s.buffers[i][k] == c;
  }

  /** When all lanes are drained and chains wait, some lane can load a chain. */
  lemma NoDeadlock(prog: seq<seq<Instr>>, deps0: map<nat, set<nat>>, home: seq<nat>, p: Params, s: CoreState)
    returns (i: nat)
    requires CoreInv(prog, deps0, home, p.cfg, s) && p.numChains == |prog|
    requires ProgramOk(prog) && NonemptyChains(prog)
    requires DepsWithin(deps0, |prog|) && Acyclic(MapEdges(deps0))
    requires s.inputs != [] && forall l :: 0 <= l < |s.lanes| ==> Drained(s.lanes[l])
    ensures i < |s.lanes| && FirstEligible(s.pending, p.numChains, s.buffers[i]) < |s.buffers[i]|
  {
    forall q: nat | q < |prog| && !Waits(s.inputs, q)
      ensures Started(s.lanes, q)
    {
      assert ChainPlaced(home, Scheduled(s.lanes), s.inputs, s.buffers, q);
      assert LaneStream(prog, p.cfg, s.lanes[home[q]]);
      DrainedStarted(prog, p.cfg, s.lanes, home[q], q);
    }
    i := SomeEligible(prog, deps0, home, p, s);
  }

  // ---------- A cycle makes progress ----------

  /** The facts about a run that its progress needs. */
  ghost predicate Runnable(prog: seq<seq<Instr>>, deps0: map<nat, set<nat>>, home: seq<nat>, p: Params, s: CoreState)
  {
    && CoreInv(prog, deps0, home, p.cfg, s) && Quiet(s)
    && p.cfg.mode != 3 && p.numChains == |prog|
    && ProgramOk(prog) && NonemptyChains(prog)
    && DepsWithin(deps0, |prog|) && Acyclic(MapEdges(deps0))
  }

  lemma RunnableStays(prog: seq<seq<Instr>>, deps0: map<nat, set<nat>>, home: seq<nat>, p: Params, s: CoreState, env: Env)
    requires Runnable(prog, deps0, home, p, s) && EnvOk(p, s, env)
    ensures Runnable(prog, deps0, home, p, Cycle(p, s, env))
  {
    CycleKeeps(prog, deps0, home, p, s, env);
    QuietMidCycle(p, s, env);
    assert forall l :: 0 <= l < |s.lanes| ==> LaneStream(prog, p.cfg, s.lanes[l]);
    RunStaysQuiet(p.cfg, s.lanes);
    ScheduleLanesFrame(p, MidCycle(p, s, env), |s.lanes|);
  }

  /** A free lane with an eligible chain loads it. */
  lemma EligibleLoads(prog: seq<seq<Instr>>, deps0: map<nat, set<nat>>, home: seq<nat>, p: Params, t: CoreState, i: nat)
    requires CoreInv(prog, deps0, home, p.cfg, t) && i < |t.lanes| && FreeLane(t.lanes[i])
    requires FirstEligible(t.pending, p.numChains, t.buffers[i]) < |t.buffers[i]|
    ensures Loads(p, t, i)
  {
    var c := t.buffers[i][FirstEligible(t.pending, p.numChains, t.buffers[i])];
    var sched := Scheduled(t.lanes);
    assert LanePlaced(prog, home, sched[i], t.buffers[i], t.sizes[i], i);
    assert c in t.buffers[i] && home[c] == i;
    assert ChainPlaced(home, sched, t.inputs, t.buffers, c);
    var j :| 0 <= j < |t.inputs| && t.inputs[j].id == c;
  }

  /** When the turn of a free lane with an eligible chain comes, it loads a chain. */
  lemma LoadsInTurn(prog: seq<seq<Instr>>, deps0: map<nat, set<nat>>, home: seq<nat>, p: Params, s: CoreState, i: nat)
    requires CoreInv(prog, deps0, home, p.cfg, s) && p.numChains == |prog| && DepsWithin(deps0, |prog|)
    requires i < |s.lanes| && FreeLane(s.lanes[i])
    requires FirstEligible(s.pending, p.numChains, s.buffers[i]) < |s.buffers[i]|
    ensures Loads(p, ScheduleLanes(p, s, i), i)
  {
    ScheduleLanesKeeps(prog, deps0, home, p, s, i);
    ScheduleLanesFrame(p, s, i);
    EligibleLoads(prog, deps0, home, p, ScheduleLanes(p, s, i), i);
  }

  /** With drained lanes and waiting chains, offering chains loads one. */
  lemma SomethingLoads(prog: seq<seq<Instr>>, deps0: map<nat, set<nat>>, home: seq<nat>, p: Params, s: CoreState)
    requires Runnable(prog, deps0, home, p, s)
    requires s.inputs != [] && forall l :: 0 <= l < |s.lanes| ==> Drained(s.lanes[l])
    ensures WorkAfter(p, s, |s.lanes|) < WorkAfter(p, s, 0)
  {
    var i := NoDeadlock(prog, deps0, home, p, s);
    assert Drained(s.lanes[i]);
    LoadsInTurn(prog, deps0, home, p, s, i);
    LoadingDrops(p, s, i);
  }

  lemma LoadingDrops(p: Params, s: CoreState, i: nat)
    requires i < |s.lanes| && Loads(p, ScheduleLanes(p, s, i), i)
    ensures WorkAfter(p, s, |s.lanes|) < WorkAfter(p, s, 0)
  {
    LaterLanesToo(p, s, 0, i);
    NextLane(p, s, i);
    LaterLanesToo(p, s, i + 1, |s.lanes|);
  }

  lemma DrainedCycleLoads(prog: seq<seq<Instr>>, deps0: map<nat, set<nat>>, home: seq<nat>, p: Params, s: CoreState, env: Env)
    requires Runnable(prog, deps0, home, p, s) && EnvOk(p, s, env) && s.inputs != []
    requires forall l :: 0 <= l < |s.lanes| ==> Drained(s.lanes[l])
    ensures var mid := MidCycle(p, s, env);
            WorkAfter(p, mid, |s.lanes|) < WorkAfter(p, mid, 0)
  {
    QuietMidCycle(p, s, env);
    MidCycleKeeps(prog, deps0, home, p, s, env);
    assert forall l :: 0 <= l < |s.lanes| ==> LaneStream(prog, p.cfg, s.lanes[l]);
    RunStaysQuiet(p.cfg, s.lanes);
    DrainedStays(p.cfg, s.lanes);
    SomethingLoads(prog, deps0, home, p, MidCycle(p, s, env));
  }

  /** Every cycle of a core that is not finished takes work away. */
  lemma CycleDrops(prog: seq<seq<Instr>>, deps0: map<nat, set<nat>>, home: seq<nat>, p: Params, s: CoreState, env: Env)
    requires Runnable(prog, deps0, home, p, s) && EnvOk(p, s, env) && !IsFinish(s)
    ensures CoreWork(p.cfg, Cycle(p, s, env)) < CoreWork(p.cfg, s)
  {
    var mid := MidCycle(p, s, env);
    QuietMidCycle(p, s, env);
    assert forall l :: 0 <= l < |s.lanes| ==> LaneStream(prog, p.cfg, s.lanes[l]);
    RunningDrops(p.cfg, s.lanes);
    LaterLanesToo(p, mid, 0, |s.lanes|);
    if forall l :: 0 <= l < |s.lanes| ==> Drained(s.lanes[l]) {
      DrainedCycleLoads(prog, deps0, home, p, s, env);
    }
  }

  /** No cycle adds work. */
  lemma CycleNeverAdds(prog: seq<seq<Instr>>, deps0: map<nat, set<nat>>, home: seq<nat>, p: Params, s: CoreState, env: Env)
    requires Runnable(prog, deps0, home, p, s) && EnvOk(p, s, env)
    ensures CoreWork(p.cfg, Cycle(p, s, env)) <= CoreWork(p.cfg, s)
  {
    QuietMidCycle(p, s, env);
    assert forall l :: 0 <= l < |s.lanes| ==> LaneStream(prog, p.cfg, s.lanes[l]);
    RunningDrops(p.cfg, s.lanes);
    LaterLanesToo(p, MidCycle(p, s, env), 0, |s.lanes|);
  }

  lemma {:induction false} BusyLaneHasWork(cfg: Config, lanes: seq<LaneState>, l: nat)
    requires l < |lanes| && LaneOk(cfg, lanes[l]) && !FreeLane(lanes[l])
    ensures LanesWork(cfg, lanes) > 0
  {
    if l < |lanes| - 1 {
      BusyLaneHasWork(cfg, lanes[..|lanes| - 1], l);
    }
  }

  lemma UnfinishedHasWork(prog: seq<seq<Instr>>, cfg: Config, s: CoreState)
    requires Streams(prog, cfg, s.lanes) && !IsFinish(s)
    ensures CoreWork(cfg, s) > 0
  {
    if s.inputs == [] {
      var l :| 0 <= l < |s.lanes| && !FreeLane(s.lanes[l]);
      assert LaneStream(prog, cfg, s.lanes[l]);
      BusyLaneHasWork(cfg, s.lanes, l);
    }
  }

  // ---------- Whole runs ----------

  lemma {:induction false} InitialLanesWork(cfg: Config, lanes: seq<LaneState>)
    requires forall l :: 0 <= l < |lanes| ==> lanes[l] == EMPTY_LANE
    ensures LanesWork(cfg, lanes) == 0
  {
    if lanes != [] {
      InitialLanesWork(cfg, lanes[..|lanes| - 1]);
    }
  }

  lemma {:induction false} InputsBound(cfg: Config, prog: seq<seq<Instr>>, inputs: seq<Chain>)
    requires |inputs| == |prog| && forall c :: 0 <= c < |prog| ==> inputs[c].instrs == prog[c]
    ensures InputsWork(cfg, inputs) == Bound(cfg, prog)
  {
    if prog != [] {
      InputsBound(cfg, prog[1..], inputs[1..]);
    }
  }

  lemma InitialRunnable(prog: seq<seq<Instr>>, deps0: map<nat, set<nat>>, home: seq<nat>, p: Params,
                        buffers: seq<seq<nat>>, sizes: seq<int>)
    requires Prescheduled(prog, home, buffers, sizes) && p.cfg.mode != 3 && p.numChains == |prog|
    requires ProgramOk(prog) && NonemptyChains(prog) && DepsWithin(deps0, |prog|) && Acyclic(MapEdges(deps0))
    ensures Runnable(prog, deps0, home, p, InitialState(prog, deps0, buffers, sizes))
    ensures CoreWork(p.cfg, InitialState(prog, deps0, buffers, sizes)) == Bound(p.cfg, prog)
  {
    InitialKeeps(prog, deps0, home, p.cfg, buffers, sizes);
    var s := InitialState(prog, deps0, buffers, sizes);
    InitialLanesWork(p.cfg, s.lanes);
    InputsBound(p.cfg, prog, s.inputs);
  }

  lemma RunnableNext(prog: seq<seq<Instr>>, deps0: map<nat, set<nat>>, home: seq<nat>, p: Params,
                     s: CoreState, env: Env, t: CoreState)
    requires Runnable(prog, deps0, home, p, s) && Next(p, s, env, t)
    ensures Runnable(prog, deps0, home, p, t)
  {
    RunnableStays(prog, deps0, home, p, s, env);
  }

  lemma RunnableAlongRun(prog: seq<seq<Instr>>, deps0: map<nat, set<nat>>, home: seq<nat>, p: Params,
                         states: seq<CoreState>, envs: seq<Env>, k: nat)
    requires IsRun(p, states, envs) && k < |states| && Runnable(prog, deps0, home, p, states[0])
    ensures Runnable(prog, deps0, home, p, states[k])
  {
    var inv := (_: nat, s: CoreState) => Runnable(prog, deps0, home, p, s);
    forall m: nat, s, env, t | inv(m, s) && Next(p, s, env, t)
      ensures inv(m + 1, t)
    {
      RunnableNext(prog, deps0, home, p, s, env, t);
    }
    RunInduction(p, states, envs, inv, k);
  }

  lemma WorkOfCycle(prog: seq<seq<Instr>>, deps0: map<nat, set<nat>>, home: seq<nat>, p: Params,
                    states: seq<CoreState>, envs: seq<Env>, k: nat)
    requires IsRun(p, states, envs) && k < |envs| && Runnable(prog, deps0, home, p, states[0]) && !IsFinish(states[k])
    ensures CoreWork(p.cfg, states[k + 1]) < CoreWork(p.cfg, states[k])
  {
    RunnableAlongRun(prog, deps0, home, p, states, envs, k);
    NextOfRun(p, states, envs, k);
    CycleDrops(prog, deps0, home, p, states[k], envs[k]);
  }

  lemma {:induction false} FallingBound(work: seq<nat>, k: nat)
    requires k < |work| && forall j :: 0 <= j < k ==> work[j + 1] < work[j]
    ensures work[k] + k <= work[0]
  {
    if k > 0 {
      FallingBound(work, k - 1);
    }
  }

  ghost function Works(cfg: Config, states: seq<CoreState>): (r: seq<nat>)
    ensures |r| == |states| && forall j :: 0 <= j < |r| ==> r[j] == CoreWork(cfg, states[j])
  {
    seq(|states|, j requires 0 <= j < |states| => CoreWork(cfg, states[j]))
  }

  /** As long as a run is unfinished, every cycle has taken away at least one unit of work. */
  lemma WorkAlongRun(prog: seq<seq<Instr>>, deps0: map<nat, set<nat>>, home: seq<nat>, p: Params,
                     states: seq<CoreState>, envs: seq<Env>, k: nat)
    requires IsRun(p, states, envs) && k < |states| && Runnable(prog, deps0, home, p, states[0])
    requires forall j :: 0 <= j < k ==> !IsFinish(states[j])
    ensures CoreWork(p.cfg, states[k]) + k <= CoreWork(p.cfg, states[0])
  {
    var work := Works(p.cfg, states);
    forall j | 0 <= j < k
      ensures work[j + 1] < work[j]
    {
      WorkOfCycle(prog, deps0, home, p, states, envs, j);
    }
    FallingBound(work, k);
  }

  /**
   Without the memory simulator, every run on nonempty chains with acyclic dependencies
   finishes: one of the states reached within 7 cycles for every instruction, its latency,
   and one cycle for every chain is finished.
   */
  lemma EveryRunFinishes(prog: seq<seq<Instr>>, deps0: map<nat, set<nat>>, home: seq<nat>, p: Params,
                         buffers: seq<seq<nat>>, sizes: seq<int>, states: seq<CoreState>, envs: seq<Env>)
    requires Prescheduled(prog, home, buffers, sizes) && p.cfg.mode != 3 && p.numChains == |prog|
    requires ProgramOk(prog) && NonemptyChains(prog) && DepsWithin(deps0, |prog|) && Acyclic(MapEdges(deps0))
    requires IsRun(p, states, envs) && states[0] == InitialState(prog, deps0, buffers, sizes)
    requires |envs| >= Bound(p.cfg, prog)
    ensures exists k :: 0 <= k <= Bound(p.cfg, prog) && IsFinish(states[k])
  {
    InitialRunnable(prog, deps0, home, p, buffers, sizes);
    var n := Bound(p.cfg, prog);
    if forall j :: 0 <= j < n ==> !IsFinish(states[j]) {
      WorkAlongRun(prog, deps0, home, p, states, envs, n);
      RunnableAlongRun(prog, deps0, home, p, states, envs, n);
      if !IsFinish(states[n]) {
        UnfinishedHasWork(prog, p.cfg, states[n]);
      }
    }
  }

  // ---------- When the loop ends ----------

  /** The states of a silent run stay what progress needs. */
  lemma RunnableAfter(prog: seq<seq<Instr>>, deps0: map<nat, set<nat>>, home: seq<nat>, p: Params, s: CoreState, k: nat)
    requires Runnable(prog, deps0, home, p, s)
    ensures Runnable(prog, deps0, home, p, After(p, s, k))
  {
    var envs := AftersRun(p, s, k);
    RunnableAlongRun(prog, deps0, home, p, Afters(p, s, k), envs, k);
  }

  /** The first cycle adds no work; later ones take some away as long as the core is not finished. */
  lemma SilentWork(prog: seq<seq<Instr>>, deps0: map<nat, set<nat>>, home: seq<nat>, p: Params, s: CoreState, k: nat)
    requires Runnable(prog, deps0, home, p, s)
    ensures var w, v := CoreWork(p.cfg, After(p, s, k)), CoreWork(p.cfg, After(p, s, k + 1));
            v <= w && (!IsFinish(After(p, s, k)) ==> v < w)
  {
    var t := After(p, s, k);
    RunnableAfter(prog, deps0, home, p, s, k);
    SilentRuby(p, t);
    CycleNeverAdds(prog, deps0, home, p, t, SILENT);
    if !IsFinish(t) {
      CycleDrops(prog, deps0, home, p, t, SILENT);
    }
  }

  /** The work in the states of a silent run; one more for a core that is finished at the start. */
  ghost function SilentWorks(p: Params, s: CoreState, n: nat): (r: seq<nat>)
    ensures |r| == n + 1 && r[0] == CoreWork(p.cfg, s) + if IsFinish(s) then 1 else 0
    ensures forall k :: 1 <= k <= n ==> r[k] == CoreWork(p.cfg, After(p, s, k))
  {
    seq(n + 1, k requires 0 <= k <= n =>
      CoreWork(p.cfg, After(p, s, k)) + if k == 0 && IsFinish(s) then 1 else 0)
  }

  lemma SilentWorkFalls(prog: seq<seq<Instr>>, deps0: map<nat, set<nat>>, home: seq<nat>, p: Params, s: CoreState, n: nat)
    requires Runnable(prog, deps0, home, p, s) && forall k: nat :: 1 <= k < n ==> !IsFinish(After(p, s, k))
    ensures SilentWorks(p, s, n)[n] + n <= SilentWorks(p, s, n)[0]
  {
    var work := SilentWorks(p, s, n);
    forall k | 0 <= k < n
      ensures work[k + 1] < work[k]
    {
      SilentWork(prog, deps0, home, p, s, k);
      assert After(p, s, 0) == s;
    }
    FallingBound(work, n);
  }

  lemma StillWork(prog: seq<seq<Instr>>, deps0: map<nat, set<nat>>, home: seq<nat>, p: Params, s: CoreState, n: nat)
    requires Runnable(prog, deps0, home, p, s) && !IsFinish(After(p, s, n))
    ensures CoreWork(p.cfg, After(p, s, n)) > 0
  {
    RunnableAfter(prog, deps0, home, p, s, n);
    UnfinishedHasWork(prog, p.cfg, After(p, s, n));
  }

  /** How many cycles there can be at most. */
  ghost function Limit(p: Params, s: CoreState): nat
  {
    CoreWork(p.cfg, s) + if IsFinish(s) then 1 else 0
  }

  lemma SomeFinish(prog: seq<seq<Instr>>, deps0: map<nat, set<nat>>, home: seq<nat>, p: Params, s: CoreState)
    requires Runnable(prog, deps0, home, p, s)
    ensures exists m: nat :: 1 <= m <= Limit(p, s) && IsFinish(After(p, s, m))
  {
    var limit := Limit(p, s);
    assert After(p, s, 0) == s;
    if !IsFinish(s) {
      StillWork(prog, deps0, home, p, s, 0);
    }
    if !IsFinish(After(p, s, limit)) {
      StillWork(prog, deps0, home, p, s, limit);
      if forall k: nat :: 1 <= k < limit ==> !IsFinish(After(p, s, k)) {
        SilentWorkFalls(prog, deps0, home, p, s, limit);
      }
    }
  }

  /** The loop that runs cycles until one of them reports finished ends, within as many cycles as there is work. */
  lemma FinishTime(prog: seq<seq<Instr>>, deps0: map<nat, set<nat>>, home: seq<nat>, p: Params, s: CoreState)
    returns (n: nat)
    requires Runnable(prog, deps0, home, p, s)
    ensures FinishesAfter(p, s, n) && n <= Limit(p, s)
  {
    SomeFinish(prog, deps0, home, p, s);
    var m: nat :| 1 <= m <= Limit(p, s) && IsFinish(After(p, s, m));
    n := FirstFinish(p, s, m);
  }
}
