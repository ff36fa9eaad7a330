/**
 In which order instructions run (src/Core.cpp and src/Lane.cpp together).  A chain is
 released as soon as one instruction of each chain that it depends on has retired, so an
 instruction may run before an instruction of another chain that it needs.  It cannot when
 it needs the first instruction of that chain, or when both chains are on one lane.
 */
module Order {
  import opened Sequences
  import opened Digraph
  import opened Chains
  import opened Lanes
  import opened Machine
  import opened Dispatch
  import opened Finish
  import opened CoreObject
  import opened Simulator

  // ---------- Places in the code of a lane ----------

  /** Where chain `sched[q]` begins in the code of the list. */
  ghost function Start(prog: seq<seq<Instr>>, sched: seq<nat>, q: nat): nat
    requires q <= |sched|
  {
    TotalSize(prog, sched[..q])
  }

  lemma {:induction false} CodeSize(prog: seq<seq<Instr>>, sched: seq<nat>)
    ensures |Code(prog, sched)| == TotalSize(prog, sched)
  {
    if sched != [] {
      CodeSize(prog, sched[..|sched| - 1]);
    }
  }

  lemma StartNext(prog: seq<seq<Instr>>, sched: seq<nat>, q: nat)
    requires q < |sched|
    ensures Start(prog, sched, q + 1) == Start(prog, sched, q) + |CodeOf(prog, sched[q])|
  {
    assert sched[..q + 1][..q] == sched[..q];
  }

  lemma {:induction false} StartsRise(prog: seq<seq<Instr>>, sched: seq<nat>, q: nat, r: nat)
    requires q < r <= |sched|
    ensures Start(prog, sched, q) + |CodeOf(prog, sched[q])| <= Start(prog, sched, r)
  {
    StartNext(prog, sched, r - 1);
    if q < r - 1 {
      StartsRise(prog, sched, q, r - 1);
    }
  }

  lemma {:induction false} CodeAt(prog: seq<seq<Instr>>, sched: seq<nat>, q: nat, a: nat)
    requires q < |sched| && a < |CodeOf(prog, sched[q])|
    ensures Start(prog, sched, q) + a < |Code(prog, sched)|
    ensures Code(prog, sched)[Start(prog, sched, q) + a] == CodeOf(prog, sched[q])[a]
    decreases |sched|
  {
    var n := |sched| - 1;
    CodeSize(prog, sched[..n]);
    if q < n {
      CodeAt(prog, sched[..n], q, a);
      assert sched[..n][..q] == sched[..q];
    }
  }

  lemma {:induction false} CodeWhere(prog: seq<seq<Instr>>, sched: seq<nat>, m: nat) returns (q: nat, a: nat)
    requires m < |Code(prog, sched)|
    ensures q < |sched| && a < |CodeOf(prog, sched[q])| && m == Start(prog, sched, q) + a
    ensures Code(prog, sched)[m] == CodeOf(prog, sched[q])[a]
    decreases |sched|
  {
    var n := |sched| - 1;
    CodeSize(prog, sched[..n]);
    if m < |Code(prog, sched[..n])| {
      q, a := CodeWhere(prog, sched[..n], m);
      assert sched[..n][..q] == sched[..q];
    } else {
      q, a := n, m - |Code(prog, sched[..n])|;
    }
  }

  /** No chain has the same instruction twice. */
  ghost predicate DifferentInstrs(prog: seq<seq<Instr>>)
  {
    forall c, a, b :: 0 <= c < |prog| && 0 <= a < b < |prog[c]| ==> prog[c][a] != prog[c][b]
  }

  /** An instruction in the code of a lane is at its one place. */
  lemma PlaceOf(prog: seq<seq<Instr>>, sched: seq<nat>, m: nat, c: nat) returns (q: nat, a: nat)
    requires ProgramOk(prog) && m < |Code(prog, sched)| && Code(prog, sched)[m].cId == c
    ensures q < |sched| && sched[q] == c < |prog| && a < |prog[c]|
    ensures m == Start(prog, sched, q) + a && Code(prog, sched)[m] == prog[c][a]
  {
    q, a := CodeWhere(prog, sched, m);
    assert CodeOf(prog, sched[q])[a] in prog[sched[q]];
  }

  // ---------- One lane runs in order ----------

  ghost predicate HasRun(s: LaneState, ins: Instr)
  {
    ins in s.retired + s.executing
  }

  /** What comes before an instruction that has run, or runs, has retired. */
  lemma EarlierRetired(s: LaneState, m: nat, n: nat)
    requires |s.executing| <= 1 && n < m < |s.retired + s.executing|
    ensures n < |Stream(s)| && Stream(s)[n] in s.retired
  {
    assert Stream(s)[n] == s.retired[n];
  }

  lemma RunPlace(prog: seq<seq<Instr>>, cfg: Config, s: LaneState, ins: Instr) returns (m: nat)
    requires LaneStream(prog, cfg, s) && HasRun(s, ins)
    ensures m < |s.retired + s.executing| <= |Code(prog, s.scheduled)| && Code(prog, s.scheduled)[m] == ins
  {
    m :| 0 <= m < |s.retired + s.executing| && (s.retired + s.executing)[m] == ins;
    assert Stream(s)[m] == ins;
  }

  lemma PlaceRetired(prog: seq<seq<Instr>>, cfg: Config, s: LaneState, q: nat, a: nat, m: nat)
    requires LaneStream(prog, cfg, s) && q < |s.scheduled| && a < |CodeOf(prog, s.scheduled[q])|
    requires Start(prog, s.scheduled, q) + a < m < |s.retired + s.executing|
    ensures CodeOf(prog, s.scheduled[q])[a] in s.retired
  {
    CodeAt(prog, s.scheduled, q, a);
    EarlierRetired(s, m, Start(prog, s.scheduled, q) + a);
  }

  /** Within a chain: an earlier instruction has retired when a later one runs. */
  lemma SameChain(prog: seq<seq<Instr>>, cfg: Config, s: LaneState, c: nat, a: nat, b: nat)
    requires ProgramOk(prog) && DifferentInstrs(prog) && LaneStream(prog, cfg, s)
    requires c < |prog| && a < b < |prog[c]| && HasRun(s, prog[c][b])
    ensures prog[c][a] in s.retired
  {
    assert prog[c][b] in prog[c];
    var m := RunPlace(prog, cfg, s, prog[c][b]);
    var q, d := PlaceOf(prog, s.scheduled, m, c);
    assert d == b;
    PlaceRetired(prog, cfg, s, q, a, m);
  }

  /** The first instruction of a chain has retired when any of its instructions has. */
  lemma FirstOfStarted(prog: seq<seq<Instr>>, cfg: Config, s: LaneState, c: nat)
    requires ProgramOk(prog) && LaneStream(prog, cfg, s) && HasRetired(s, c)
    ensures c < |prog| && prog[c] != [] && prog[c][0] in s.retired
  {
    var ins :| ins in s.retired && ins.cId == c;
    var m :| 0 <= m < |s.retired| && s.retired[m] == ins;
    assert Stream(s)[m] == ins;
    var q, d := PlaceOf(prog, s.scheduled, m, c);
    if d > 0 {
      PlaceRetired(prog, cfg, s, q, 0, m);
    }
  }

  /** Between chains of one lane: all of the chain loaded before has retired when the other one runs. */
  lemma SameLane(prog: seq<seq<Instr>>, cfg: Config, s: LaneState, i: nat, a: nat, j: nat, b: nat)
    requires ProgramOk(prog) && LaneStream(prog, cfg, s) && NoRepeats(s.scheduled)
    requires i < |prog| && a < |prog[i]| && j < |prog| && b < |prog[j]| && HasRun(s, prog[j][b])
    requires forall q :: 0 <= q < |s.scheduled| && s.scheduled[q] == j ==> i in s.scheduled[..q]
    ensures prog[i][a] in s.retired
  {
    assert prog[j][b] in prog[j];
    var m := RunPlace(prog, cfg, s, prog[j][b]);
    var q, d := PlaceOf(prog, s.scheduled, m, j);
    var r :| 0 <= r < q && s.scheduled[r] == i;
    StartsRise(prog, s.scheduled, r, q);
    PlaceRetired(prog, cfg, s, r, a, m);
  }

  // ---------- Chains of one lane are loaded in order ----------

  /** A chain that was loaded into lane `l` comes after all chains of the lane that it depends on. */
  ghost predicate LaneOrder(deps0: map<nat, set<nat>>, home: seq<nat>, sched: seq<nat>, l: nat)
  {
    forall q, p: nat :: 0 <= q < |sched| && p < |home| && home[p] == l && Dep(deps0, p, sched[q]) ==> p in sched[..q]
  }

  ghost predicate LoadOrder(deps0: map<nat, set<nat>>, home: seq<nat>, lanes: seq<LaneState>)
  {
    forall l :: 0 <= l < |lanes| ==> LaneOrder(deps0, home, lanes[l].scheduled, l)
  }

  lemma StartedIsLoaded(prog: seq<seq<Instr>>, cfg: Config, lanes: seq<LaneState>, p: nat) returns (l: nat)
    requires ProgramOk(prog) && Streams(prog, cfg, lanes) && Started(lanes, p)
    ensures l < |lanes| && HasRetired(lanes[l], p) && p in lanes[l].scheduled
  {
    l :| 0 <= l < |lanes| && HasRetired(lanes[l], p);
    assert LaneStream(prog, cfg, lanes[l]);
    var ins :| ins in lanes[l].retired && ins.cId == p;
    assert ins in Stream(lanes[l]);
    CodeMembers(prog, lanes[l].scheduled, ins);
  }

  lemma AppendInOrder(deps0: map<nat, set<nat>>, home: seq<nat>, sched: seq<nat>, l: nat, c: nat)
    requires LaneOrder(deps0, home, sched, l)
    requires forall p: nat :: p < |home| && home[p] == l && Dep(deps0, p, c) ==> p in sched
    ensures LaneOrder(deps0, home, sched + [c], l)
  {
    var after := sched + [c];
    forall q, p: nat | 0 <= q < |after| && p < |home| && home[p] == l && Dep(deps0, p, after[q])
      ensures p in after[..q]
    {
      assert after[..q] == sched[..q];
      assert q == |sched| ==> sched[..q] == sched;
    }
  }

  lemma StartedInLane(prog: seq<seq<Instr>>, deps0: map<nat, set<nat>>, home: seq<nat>, cfg: Config, s: CoreState, p: nat)
    requires ProgramOk(prog) && CoreInv(prog, deps0, home, cfg, s) && Started(s.lanes, p)
    ensures p < |home| && home[p] < |s.lanes| && p in s.lanes[home[p]].scheduled
  {
    var l := StartedIsLoaded(prog, cfg, s.lanes, p);
    assert LanePlaced(prog, home, Scheduled(s.lanes)[l], s.buffers[l], s.sizes[l], l);
  }

  lemma OfferInOrder(prog: seq<seq<Instr>>, deps0: map<nat, set<nat>>, home: seq<nat>, p: Params, s: CoreState, i: nat)
    requires ProgramOk(prog) && p.numChains == |prog| && DepsWithin(deps0, |prog|)
    requires CoreInv(prog, deps0, home, p.cfg, s) && LoadOrder(deps0, home, s.lanes)
    ensures LoadOrder(deps0, home, ScheduleLane(p, s, i).lanes)
  {
    if Loads(p, s, i) {
      var c := s.buffers[i][FirstEligible(s.pending, p.numChains, s.buffers[i])];
      forall q: nat | q < |home| && home[q] == i && Dep(deps0, q, c)
        ensures q in s.lanes[i].scheduled
      {
        assert (c, q) !in s.pending;
        StartedInLane(prog, deps0, home, p.cfg, s, q);
      }
      AppendInOrder(deps0, home, s.lanes[i].scheduled, i, c);
    }
  }

  /** What the order of instructions rests on. */
  ghost predicate InOrder(prog: seq<seq<Instr>>, deps0: map<nat, set<nat>>, home: seq<nat>, cfg: Config, s: CoreState)
  {
    CoreInv(prog, deps0, home, cfg, s) && LoadOrder(deps0, home, s.lanes)
  }

  lemma ScheduleInOrder(prog: seq<seq<Instr>>, deps0: map<nat, set<nat>>, home: seq<nat>, p: Params, s: CoreState, n: nat)
    requires ProgramOk(prog) && p.numChains == |prog| && DepsWithin(deps0, |prog|)
    requires InOrder(prog, deps0, home, p.cfg, s)
    ensures InOrder(prog, deps0, home, p.cfg, ScheduleLanes(p, s, n))
  {
    var inv := s => InOrder(prog, deps0, home, p.cfg, s);
    forall t, i: nat | inv(t)
      ensures inv(ScheduleLane(p, t, i))
    {
      OfferInOrder(prog, deps0, home, p, t, i);
      ScheduleLaneKeeps(prog, deps0, home, p, t, i);
    }
    ScheduleInduction(p, s, inv, n);
  }

  /** Every cycle keeps the chains of a lane in order, in every memory mode. */
  lemma CycleInOrder(prog: seq<seq<Instr>>, deps0: map<nat, set<nat>>, home: seq<nat>, p: Params, s: CoreState, env: Env)
    requires ProgramOk(prog) && p.numChains == |prog| && DepsWithin(deps0, |prog|)
    requires InOrder(prog, deps0, home, p.cfg, s)
    ensures InOrder(prog, deps0, home, p.cfg, Cycle(p, s, env))
  {
    var mid := MidCycle(p, s, env);
    MidCycleKeeps(prog, deps0, home, p, s, env);
    ScheduledSame(s.lanes, mid.lanes);
    ScheduleInOrder(prog, deps0, home, p, mid, |s.lanes|);
  }

  lemma NextInOrder(prog: seq<seq<Instr>>, deps0: map<nat, set<nat>>, home: seq<nat>, p: Params,
                    s: CoreState, env: Env, t: CoreState)
    requires ProgramOk(prog) && p.numChains == |prog| && DepsWithin(deps0, |prog|)
    requires InOrder(prog, deps0, home, p.cfg, s) && Next(p, s, env, t)
    ensures InOrder(prog, deps0, home, p.cfg, t)
  {
    CycleInOrder(prog, deps0, home, p, s, env);
  }

  lemma RunInOrder(prog: seq<seq<Instr>>, deps0: map<nat, set<nat>>, home: seq<nat>, p: Params,
                   states: seq<CoreState>, envs: seq<Env>, k: nat)
    requires ProgramOk(prog) && p.numChains == |prog| && DepsWithin(deps0, |prog|)
    requires IsRun(p, states, envs) && k < |states| && InOrder(prog, deps0, home, p.cfg, states[0])
    ensures InOrder(prog, deps0, home, p.cfg, states[k])
  {
    var inv := (_: nat, s: CoreState) => InOrder(prog, deps0, home, p.cfg, s);
    forall m: nat, s, env, t | inv(m, s) && Next(p, s, env, t)
      ensures inv(m + 1, t)
    {
      NextInOrder(prog, deps0, home, p, s, env, t);
    }
    RunInduction(p, states, envs, inv, k);
  }

  // ---------- Instructions and the instructions they need ----------

  ghost predicate Runs(lanes: seq<LaneState>, ins: Instr)
  {
    exists l :: 0 <= l < |lanes| && HasRun(lanes[l], ins)
  }

  ghost predicate Retired(lanes: seq<LaneState>, ins: Instr)
  {
    exists l :: 0 <= l < |lanes| && ins in lanes[l].retired
  }

  /** The core keeps the order: within a chain, after the first instruction of a chain, and between chains of one lane. */
  ghost predicate KeepsOrder(home: seq<nat>, i: nat, a: nat, j: nat, b: nat)
  {
    if i == j then a < b else a == 0 || (i < |home| && j < |home| && home[i] == home[j])
  }

  lemma RunningChain(prog: seq<seq<Instr>>, deps0: map<nat, set<nat>>, home: seq<nat>, cfg: Config, s: CoreState,
                     l: nat, j: nat, b: nat)
    requires ProgramOk(prog) && CoreInv(prog, deps0, home, cfg, s)
    requires l < |s.lanes| && j < |prog| && b < |prog[j]| && HasRun(s.lanes[l], prog[j][b])
    ensures LaneStream(prog, cfg, s.lanes[l]) && NoRepeats(s.lanes[l].scheduled)
    ensures j in s.lanes[l].scheduled && j < |home| && home[j] == l
  {
    assert LanePlaced(prog, home, Scheduled(s.lanes)[l], s.buffers[l], s.sizes[l], l);
    assert LaneStream(prog, cfg, s.lanes[l]) && prog[j][b] in prog[j];
    var m := RunPlace(prog, cfg, s.lanes[l], prog[j][b]);
    var q, d := PlaceOf(prog, s.lanes[l].scheduled, m, j);
  }

  /** When an instruction runs, or has retired, the instruction that it needs has retired. */
  lemma NeededRetired(prog: seq<seq<Instr>>, deps0: map<nat, set<nat>>, home: seq<nat>, cfg: Config, s: CoreState,
                      i: nat, a: nat, j: nat, b: nat)
    requires ProgramOk(prog) && DifferentInstrs(prog) && InOrder(prog, deps0, home, cfg, s)
    requires i < |prog| && a < |prog[i]| && j < |prog| && b < |prog[j]|
    requires KeepsOrder(home, i, a, j, b) && (i != j ==> Dep(deps0, i, j))
    requires Runs(s.lanes, prog[j][b])
    ensures Retired(s.lanes, prog[i][a])
  {
    var l :| 0 <= l < |s.lanes| && HasRun(s.lanes[l], prog[j][b]);
    RunningChain(prog, deps0, home, cfg, s, l, j, b);
    if i == j {
      SameChain(prog, cfg, s.lanes[l], i, a, b);
    } else if a == 0 {
      assert Started(s.lanes, i);
      var m :| 0 <= m < |s.lanes| && HasRetired(s.lanes[m], i);
      assert LaneStream(prog, cfg, s.lanes[m]);
      FirstOfStarted(prog, cfg, s.lanes[m], i);
    } else {
      assert LaneOrder(deps0, home, s.lanes[l].scheduled, l);
      SameLane(prog, cfg, s.lanes[l], i, a, j, b);
    }
  }

  // ---------- The compiled graph ----------

  lemma CompiledDiffers(g: Graph, chains: seq<seq<nat>>, nodeMap: map<nat, nat>, opcode: seq<string>,
                        latency: map<string, nat>)
    requires Partition(g, chains) && Described(chains, opcode, latency) && InjectiveOn(g, nodeMap)
    ensures DifferentInstrs(ProgramOf(chains, nodeMap, opcode, latency))
  {
    var prog := ProgramOf(chains, nodeMap, opcode, latency);
    forall c, a, b | 0 <= c < |prog| && 0 <= a < b < |prog[c]|
      ensures prog[c][a] != prog[c][b]
    {
      assert chains[c][a] in chains[c] && chains[c][b] in chains[c];
    }
  }

  /**
   In every state of every run of a compiled graph: along an edge inside a chain, out of the
   first vertex of a chain, or between two chains of one lane, the second instruction neither
   runs nor has retired before the first one has retired.
   */
  lemma EdgesKeepOrder(g: Graph, chains: seq<seq<nat>>, unique: map<nat, set<nat>>, nodeMap: map<nat, nat>,
                       opcode: seq<string>, latency: map<string, nat>, home: seq<nat>, p: Params,
                       buffers: seq<seq<nat>>, sizes: seq<int>, states: seq<CoreState>, envs: seq<Env>, k: nat,
                       i: nat, a: nat, j: nat, b: nat)
    requires WellChained(g, chains) && MapEdges(unique) == ChainEdges(g, chains)
    requires Described(chains, opcode, latency) && InjectiveOn(g, nodeMap) && p.numChains == |chains|
    requires RunOf(ProgramOf(chains, nodeMap, opcode, latency), p, unique, home, buffers, sizes, states, envs)
    requires k < |states|
    requires i < |chains| && a < |chains[i]| && j < |chains| && b < |chains[j]|
    requires HasEdge(g, chains[i][a], chains[j][b])
    requires i != j ==> a == 0 || (i < |home| && j < |home| && home[i] == home[j])
    ensures var prog := ProgramOf(chains, nodeMap, opcode, latency);
            Runs(states[k].lanes, prog[j][b]) ==> Retired(states[k].lanes, prog[i][a])
  {
    var prog := ProgramOf(chains, nodeMap, opcode, latency);
    CompiledProgram(g, chains, unique, nodeMap, opcode, latency);
    CompiledDiffers(g, chains, nodeMap, opcode, latency);
    StartsInOrder(prog, unique, home, p, buffers, sizes);
    RunInOrder(prog, unique, home, p, states, envs, k);
    if i == j {
      assert Forward(g, chains[i]);
    } else {
      EdgeDepends(g, chains, i, j, chains[i][a], chains[j][b]);
      MapEdge(unique, i, j);
    }
    if Runs(states[k].lanes, prog[j][b]) {
      NeededRetired(prog, unique, home, p.cfg, states[k], i, a, j, b);
    }
  }

  lemma StartsInOrder(prog: seq<seq<Instr>>, deps0: map<nat, set<nat>>, home: seq<nat>, p: Params,
                      buffers: seq<seq<nat>>, sizes: seq<int>)
    requires Prescheduled(prog, home, buffers, sizes)
    ensures InOrder(prog, deps0, home, p.cfg, InitialState(prog, deps0, buffers, sizes))
  {
    InitialKeeps(prog, deps0, home, p.cfg, buffers, sizes);
    var lanes := InitialState(prog, deps0, buffers, sizes).lanes;
    assert forall l :: 0 <= l < |lanes| ==> lanes[l] == EMPTY_LANE;
  }
}
