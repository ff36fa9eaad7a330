/**
 What every cycle of the core keeps, in every memory mode and whatever Ruby does:
 chains are loaded once and in their own lane, no instruction is lost, and the
 dependency table says exactly who still waits for whom.
 */
module Dispatch {
  import opened Sequences
  import opened Lanes
  import opened MemorySystem
  import opened Machine

  /** Instruction lists of the chains; every instruction carries the id of its chain. */
  ghost predicate ProgramOk(prog: seq<seq<Instr>>)
  {
    forall c, ins :: 0 <= c < |prog| && ins in prog[c] ==> ins.cId == c
  }

  ghost predicate Dep(deps: map<nat, set<nat>>, p: nat, c: nat)
  {
    p in deps && c in deps[p]
  }

  ghost predicate DepsWithin(deps: map<nat, set<nat>>, n: nat)
  {
    forall p: nat, c: nat :: Dep(deps, p, c) ==> p < n && c < n
  }

  // ---------- Code and sizes of lists of chains ----------

  ghost function CodeOf(prog: seq<seq<Instr>>, c: nat): seq<Instr>
  {
    if c < |prog| then prog[c] else []
  }

  /** The instructions of the chains in a list, one chain after the other. */
  ghost function Code(prog: seq<seq<Instr>>, ids: seq<nat>): seq<Instr>
  {
    if ids == [] then [] else Code(prog, ids[..|ids| - 1]) + CodeOf(prog, ids[|ids| - 1])
  }

  lemma CodeAppend(prog: seq<seq<Instr>>, ids: seq<nat>, c: nat)
    ensures Code(prog, ids + [c]) == Code(prog, ids) + CodeOf(prog, c)
  {
    assert (ids + [c])[..|ids|] == ids;
  }

  ghost function TotalSize(prog: seq<seq<Instr>>, ids: seq<nat>): nat
  {
    if ids == [] then 0 else TotalSize(prog, ids[..|ids| - 1]) + |CodeOf(prog, ids[|ids| - 1])|
  }

  lemma {:induction false} TotalSizeRemove(prog: seq<seq<Instr>>, ids: seq<nat>, k: nat)
    requires k < |ids|
    ensures TotalSize(prog, RemoveAt(ids, k)) == TotalSize(prog, ids) - |CodeOf(prog, ids[k])|
  {
    var n := |ids| - 1;
    if k == n {
      assert RemoveAt(ids, k) == ids[..n];
    } else {
      TotalSizeRemove(prog, ids[..n], k);
      assert RemoveAt(ids, k)[..n - 1] == RemoveAt(ids[..n], k);
      assert RemoveAt(ids, k)[n - 1] == ids[n];
    }
  }

  // ---------- Placement ----------

  ghost function Scheduled(lanes: seq<LaneState>): seq<seq<nat>>
  {
    seq(|lanes|, l requires 0 <= l < |lanes| => lanes[l].scheduled)
  }

  ghost predicate Waits(inputs: seq<Chain>, c: nat)
  {
    exists k :: 0 <= k < |inputs| && inputs[k].id == c
  }

  /** The waiting chains are whole and different. */
  ghost predicate InputsOk(prog: seq<seq<Instr>>, inputs: seq<Chain>)
  {
    && (forall k :: 0 <= k < |inputs| ==> inputs[k].id < |prog| && inputs[k].instrs == prog[inputs[k].id])
    && (forall i, j :: 0 <= i < j < |inputs| ==> inputs[i].id != inputs[j].id)
  }

  /** Chain `c` belongs to lane `home[c]`: it is in that lane's buffer and waits, or it was loaded there. */
  ghost predicate ChainPlaced(home: seq<nat>, sched: seq<seq<nat>>, inputs: seq<Chain>, buffers: seq<seq<nat>>, c: nat)
    requires c < |home| && home[c] < |sched| == |buffers|
  {
    && (c in buffers[home[c]] <==> Waits(inputs, c))
    && (c in buffers[home[c]] <==> c !in sched[home[c]])
  }

  /** Lane `l` holds only its own chains, each once, and knows the total length of its buffer. */
  ghost predicate LanePlaced(prog: seq<seq<Instr>>, home: seq<nat>, sched: seq<nat>, buffer: seq<nat>, size: int, l: nat)
  {
    && NoRepeats(sched) && NoRepeats(buffer)
    && (forall x :: x in sched ==> x < |home| && home[x] == l)
    && (forall x :: x in buffer ==> x < |home| && home[x] == l)
    && size == TotalSize(prog, buffer)
  }

  ghost predicate HomesOk(prog: seq<seq<Instr>>, home: seq<nat>, n: nat)
  {
    |home| == |prog| && forall c :: 0 <= c < |home| ==> home[c] < n
  }

  ghost predicate Placement(prog: seq<seq<Instr>>, home: seq<nat>, sched: seq<seq<nat>>,
                            inputs: seq<Chain>, buffers: seq<seq<nat>>, sizes: seq<int>)
  {
    && |sched| == |buffers| == |sizes|
    && HomesOk(prog, home, |sched|)
    && InputsOk(prog, inputs)
    && (forall l :: 0 <= l < |sched| ==> LanePlaced(prog, home, sched[l], buffers[l], sizes[l], l))
    && (forall c :: 0 <= c < |home| ==> ChainPlaced(home, sched, inputs, buffers, c))
  }

  // ---------- Streams ----------

  ghost predicate LaneStream(prog: seq<seq<Instr>>, cfg: Config, s: LaneState)
  {
    LaneOk(cfg, s) && Stream(s) == Code(prog, s.scheduled)
  }

  ghost predicate Streams(prog: seq<seq<Instr>>, cfg: Config, lanes: seq<LaneState>)
  {
    forall l :: 0 <= l < |lanes| ==> LaneStream(prog, cfg, lanes[l])
  }

  // ---------- The dependency table ----------

  ghost predicate HasRetired(s: LaneState, p: nat)
  {
    exists ins :: ins in s.retired && ins.cId == p
  }

  /** Some instruction of chain `p` has retired. */
  ghost predicate Started(lanes: seq<LaneState>, p: nat)
  {
    exists l :: 0 <= l < |lanes| && HasRetired(lanes[l], p)
  }

  ghost predicate SameDeps(deps: map<nat, set<nat>>, deps0: map<nat, set<nat>>)
  {
    forall p: nat, c: nat :: Dep(deps, p, c) <==> Dep(deps0, p, c)
  }

  ghost predicate TableOk(deps0: map<nat, set<nat>>, lanes: seq<LaneState>, pending: set<(nat, nat)>)
  {
    forall c: nat, p: nat :: (c, p) in pending <==> Dep(deps0, p, c) && !Started(lanes, p)
  }

  /** Every chain that has been loaded depends only on started chains. */
  ghost predicate LoadedAfter(deps0: map<nat, set<nat>>, lanes: seq<LaneState>)
  {
    forall l, c: nat, p: nat :: 0 <= l < |lanes| && c in lanes[l].scheduled && Dep(deps0, p, c) ==> Started(lanes, p)
  }

  /** The invariant of the core at the end of every cycle. */
  ghost predicate CoreInv(prog: seq<seq<Instr>>, deps0: map<nat, set<nat>>, home: seq<nat>, cfg: Config, s: CoreState)
  {
    && Placement(prog, home, Scheduled(s.lanes), s.inputs, s.buffers, s.sizes)
    && Streams(prog, cfg, s.lanes)
    && SameDeps(s.deps, deps0)
    && TableOk(deps0, s.lanes, s.pending)
    && LoadedAfter(deps0, s.lanes)
    && s.finished == []
  }

  // ---------- Running the lanes ----------

  lemma {:induction false} FinishesOfAll(lanes: seq<LaneState>, p: nat)
    ensures p in AllFinishes(lanes) <==> exists l :: 0 <= l < |lanes| && p in Finishes(lanes[l])
  {
    if lanes != [] {
      FinishesOfAll(lanes[..|lanes| - 1], p);
    }
  }

  lemma RetiredByRun(cfg: Config, s: LaneState, p: nat)
    requires LaneOk(cfg, s)
    ensures HasRetired(RunLane(cfg, s), p) <==> HasRetired(s, p) || p in Finishes(s)
  {
    RunLaneKeeps(cfg, s);
    if Retires(Counted(s)) {
      assert RunLane(cfg, s).retired == s.retired + [s.executing[0]];
      assert s.executing[0] in RunLane(cfg, s).retired;
      forall ins | ins in s.retired
        ensures ins in RunLane(cfg, s).retired
      {
      }
    }
  }

  /** A cycle of the lanes starts exactly the chains that it reports. */
  lemma StartedByRun(cfg: Config, lanes: seq<LaneState>, p: nat)
    requires forall l :: 0 <= l < |lanes| ==> LaneOk(cfg, lanes[l])
    ensures Started(RunAll(cfg, lanes), p) <==> Started(lanes, p) || p in AllFinishes(lanes)
  {
    FinishesOfAll(lanes, p);
    forall l | 0 <= l < |lanes|
      ensures HasRetired(RunAll(cfg, lanes)[l], p) <==> HasRetired(lanes[l], p) || p in Finishes(lanes[l])
    {
      RetiredByRun(cfg, lanes[l], p);
    }
  }

  lemma RunKeepsStreams(prog: seq<seq<Instr>>, cfg: Config, lanes: seq<LaneState>)
    requires Streams(prog, cfg, lanes)
    ensures Streams(prog, cfg, RunAll(cfg, lanes))
    ensures Scheduled(RunAll(cfg, lanes)) == Scheduled(lanes)
  {
    forall l | 0 <= l < |lanes|
      ensures LaneStream(prog, cfg, RunAll(cfg, lanes)[l]) && RunAll(cfg, lanes)[l].scheduled == lanes[l].scheduled
    {
      assert LaneStream(prog, cfg, lanes[l]);
      RunLaneKeeps(cfg, lanes[l]);
    }
  }

  // ---------- Waking lanes ----------

  /** Lane by lane, nothing but the execution counter has changed, and that only to zero. */
  ghost predicate OnlyWoken(a: seq<LaneState>, b: seq<LaneState>)
  {
    && |a| == |b|
    && forall l :: 0 <= l < |a| ==> b[l] == a[l] || b[l] == a[l].(exeCnt := 0)
  }

  lemma {:induction false} WokenIsOnlyWoken(lanes: seq<LaneState>, reqMap: map<nat, nat>, nodes: seq<nat>)
    ensures OnlyWoken(lanes, Woken(lanes, reqMap, nodes))
    decreases |nodes|
  {
    if nodes != [] {
      WokenIsOnlyWoken(WokenOne(lanes, reqMap, nodes[0]), reqMap, nodes[1..]);
    }
  }

  lemma WakingKeeps(prog: seq<seq<Instr>>, cfg: Config, a: seq<LaneState>, b: seq<LaneState>)
    requires Streams(prog, cfg, a) && OnlyWoken(a, b)
    ensures Streams(prog, cfg, b) && Scheduled(b) == Scheduled(a)
    ensures forall p: nat :: Started(b, p) <==> Started(a, p)
  {
    forall l | 0 <= l < |b|
      ensures LaneStream(prog, cfg, b[l]) && b[l].scheduled == a[l].scheduled && b[l].retired == a[l].retired
    {
      assert LaneStream(prog, cfg, a[l]);
    }
    SameRetired(a, b);
  }

  lemma SameRetired(a: seq<LaneState>, b: seq<LaneState>)
    requires |a| == |b| && forall l :: 0 <= l < |a| ==> b[l].retired == a[l].retired
    ensures forall p: nat :: Started(b, p) <==> Started(a, p)
  {
    forall l, p: nat | 0 <= l < |a|
      ensures HasRetired(b[l], p) <==> HasRetired(a[l], p)
    {
    }
  }

  // ---------- Clearing the table ----------

  lemma TouchingKeepsDeps(deps: map<nat, set<nat>>, deps0: map<nat, set<nat>>, finished: seq<nat>)
    requires SameDeps(deps, deps0)
    ensures SameDeps(TouchedDeps(deps, finished), deps0)
  {
    forall p: nat, c: nat
      ensures Dep(TouchedDeps(deps, finished), p, c) <==> Dep(deps, p, c)
    {
    }
  }

  lemma ClearingKeepsTable(deps: map<nat, set<nat>>, deps0: map<nat, set<nat>>, before: seq<LaneState>,
                           after: seq<LaneState>, pending: set<(nat, nat)>, finished: seq<nat>)
    requires SameDeps(deps, deps0) && TableOk(deps0, before, pending)
    requires forall p: nat :: Started(after, p) <==> Started(before, p) || p in finished
    ensures TableOk(deps0, after, ClearedPending(pending, deps, finished))
  {
    forall c: nat, p: nat
      ensures (c, p) in ClearedPending(pending, deps, finished) <==> Dep(deps0, p, c) && !Started(after, p)
    {
      assert Dep(deps, p, c) <==> Dep(deps0, p, c);
    }
  }

  /** The lanes after all of a cycle but the loading of chains. */
  function MidLanes(p: Params, s: CoreState, env: Env): seq<LaneState>
  {
    var r := SendRequests(p, RunCore(p, s));
    Woken(RunAll(p.cfg, s.lanes), r.reqMap, Answered(Accessed(r.mem, env.ready), env.responses))
  }

  lemma MidLanesKeep(prog: seq<seq<Instr>>, p: Params, s: CoreState, env: Env)
    requires Streams(prog, p.cfg, s.lanes)
    ensures Streams(prog, p.cfg, MidLanes(p, s, env)) && Scheduled(MidLanes(p, s, env)) == Scheduled(s.lanes)
    ensures forall q: nat :: Started(MidLanes(p, s, env), q) <==> Started(s.lanes, q) || q in AllFinishes(s.lanes)
  {
    var ran := RunAll(p.cfg, s.lanes);
    var r := SendRequests(p, RunCore(p, s));
    RunKeepsStreams(prog, p.cfg, s.lanes);
    WokenIsOnlyWoken(ran, r.reqMap, Answered(Accessed(r.mem, env.ready), env.responses));
    WakingKeeps(prog, p.cfg, ran, MidLanes(p, s, env));
    assert forall l :: 0 <= l < |s.lanes| ==> LaneStream(prog, p.cfg, s.lanes[l]);
    forall q: nat
      ensures Started(ran, q) <==> Started(s.lanes, q) || q in AllFinishes(s.lanes)
    {
      StartedByRun(p.cfg, s.lanes, q);
    }
  }

  /** All of a cycle but the loading of chains keeps the invariant. */
  lemma MidCycleKeeps(prog: seq<seq<Instr>>, deps0: map<nat, set<nat>>, home: seq<nat>, p: Params, s: CoreState, env: Env)
    requires CoreInv(prog, deps0, home, p.cfg, s)
    ensures CoreInv(prog, deps0, home, p.cfg, MidCycle(p, s, env))
    ensures Scheduled(MidCycle(p, s, env).lanes) == Scheduled(s.lanes)
    ensures forall q: nat :: Started(s.lanes, q) ==> Started(MidCycle(p, s, env).lanes, q)
  {
    var mid := MidLanes(p, s, env);
    MidLanesKeep(prog, p, s, env);
    TouchingKeepsDeps(s.deps, deps0, AllFinishes(s.lanes));
    ClearingKeepsTable(s.deps, deps0, s.lanes, mid, s.pending, AllFinishes(s.lanes));
    ScheduledSame(s.lanes, mid);
    LoadedAfterKept(deps0, s.lanes, mid);
    assert s.finished + AllFinishes(s.lanes) == AllFinishes(s.lanes);
  }

  lemma LoadedAfterKept(deps0: map<nat, set<nat>>, a: seq<LaneState>, b: seq<LaneState>)
    requires LoadedAfter(deps0, a) && |a| == |b| && forall l :: 0 <= l < |a| ==> a[l].scheduled == b[l].scheduled
    requires forall q: nat :: Started(a, q) ==> Started(b, q)
    ensures LoadedAfter(deps0, b)
  {
  }

  lemma ScheduledSame(a: seq<LaneState>, b: seq<LaneState>)
    requires Scheduled(a) == Scheduled(b)
    ensures |a| == |b| && forall l :: 0 <= l < |a| ==> a[l].scheduled == b[l].scheduled
  {
    assert |Scheduled(a)| == |a| && |Scheduled(b)| == |b|;
    forall l | 0 <= l < |a|
      ensures a[l].scheduled == b[l].scheduled
    {
      assert Scheduled(a)[l] == a[l].scheduled && Scheduled(b)[l] == b[l].scheduled;
    }
  }

  // ---------- Loading a chain ----------

  lemma RemoveAtMembers(s: seq<nat>, k: nat)
    requires k < |s| && NoRepeats(s)
    ensures NoRepeats(RemoveAt(s, k))
    ensures forall x :: x in RemoveAt(s, k) <==> x in s && x != s[k]
  {
    var r := RemoveAt(s, k);
    assert forall i :: 0 <= i < |r| ==> r[i] == s[if i < k then i else i + 1];
    forall x | x in s && x != s[k]
      ensures x in r
    {
      var i :| 0 <= i < |s| && s[i] == x;
      assert r[if i < k then i else i - 1] == x;
    }
  }

  lemma RemoveInput(prog: seq<seq<Instr>>, inputs: seq<Chain>, j: nat)
    requires InputsOk(prog, inputs) && j < |inputs|
    ensures InputsOk(prog, RemoveAt(inputs, j))
    ensures forall c :: Waits(RemoveAt(inputs, j), c) <==> Waits(inputs, c) && c != inputs[j].id
  {
    var r := RemoveAt(inputs, j);
    assert forall i :: 0 <= i < |r| ==> r[i] == inputs[if i < j then i else i + 1];
    forall c | Waits(inputs, c) && c != inputs[j].id
      ensures Waits(r, c)
    {
      var i :| 0 <= i < |inputs| && inputs[i].id == c;
      assert r[if i < j then i else i - 1].id == c;
    }
  }

  lemma LoadKeepsPlacement(prog: seq<seq<Instr>>, home: seq<nat>, s: CoreState, i: nat, k: nat, j: nat)
    requires Placement(prog, home, Scheduled(s.lanes), s.inputs, s.buffers, s.sizes)
    requires i < |s.lanes| && k < |s.buffers[i]| && j < |s.inputs| && s.inputs[j].id == s.buffers[i][k]
    ensures var t := LoadChain(s, i, k, j);
            Placement(prog, home, Scheduled(t.lanes), t.inputs, t.buffers, t.sizes)
  {
    var t := LoadChain(s, i, k, j);
    var c := s.buffers[i][k];
    var before, after := Scheduled(s.lanes), Scheduled(t.lanes);
    assert after == before[i := before[i] + [c]];
    RemoveAtMembers(s.buffers[i], k);
    RemoveInput(prog, s.inputs, j);
    assert LanePlaced(prog, home, before[i], s.buffers[i], s.sizes[i], i);
    assert c in s.buffers[i] && home[c] == i;
    assert ChainPlaced(home, before, s.inputs, s.buffers, c);
    TotalSizeRemove(prog, s.buffers[i], k);
    forall l | 0 <= l < |after|
      ensures LanePlaced(prog, home, after[l], t.buffers[l], t.sizes[l], l)
    {
      assert LanePlaced(prog, home, before[l], s.buffers[l], s.sizes[l], l);
    }
    forall x | 0 <= x < |home|
      ensures ChainPlaced(home, after, t.inputs, t.buffers, x)
    {
      assert ChainPlaced(home, before, s.inputs, s.buffers, x);
    }
  }

  /** Taking a chain keeps what has retired. */
  lemma LoadKeepsStarted(s: CoreState, i: nat, k: nat, j: nat)
    requires i < |s.lanes| && i < |s.buffers| && i < |s.sizes| && k < |s.buffers[i]| && j < |s.inputs|
    ensures forall q: nat :: Started(LoadChain(s, i, k, j).lanes, q) <==> Started(s.lanes, q)
  {
    SameRetired(s.lanes, LoadChain(s, i, k, j).lanes);
  }

  lemma LoadLaneStream(prog: seq<seq<Instr>>, cfg: Config, s: LaneState, c: nat)
    requires LaneStream(prog, cfg, s)
    ensures LaneStream(prog, cfg, LoadLane(s, c, CodeOf(prog, c)))
  {
    CodeAppend(prog, s.scheduled, c);
    assert Stream(LoadLane(s, c, CodeOf(prog, c))) == Stream(s) + CodeOf(prog, c);
  }

  lemma StreamsUpdate(prog: seq<seq<Instr>>, cfg: Config, lanes: seq<LaneState>, i: nat, lane: LaneState)
    requires Streams(prog, cfg, lanes) && i < |lanes| && LaneStream(prog, cfg, lane)
    ensures Streams(prog, cfg, lanes[i := lane])
  {
  }

  lemma LoadKeepsStreams(prog: seq<seq<Instr>>, cfg: Config, s: CoreState, i: nat, k: nat, j: nat)
    requires i < |s.lanes| && i < |s.buffers| && i < |s.sizes| && k < |s.buffers[i]| && j < |s.inputs|
    requires s.inputs[j].instrs == CodeOf(prog, s.buffers[i][k])
    requires Streams(prog, cfg, s.lanes)
    ensures Streams(prog, cfg, LoadChain(s, i, k, j).lanes)
  {
    var c := s.buffers[i][k];
    LoadLaneStream(prog, cfg, s.lanes[i], c);
    StreamsUpdate(prog, cfg, s.lanes, i, LoadLane(s.lanes[i], c, CodeOf(prog, c)));
  }

  lemma LoadKeepsRest(prog: seq<seq<Instr>>, deps0: map<nat, set<nat>>, cfg: Config, s: CoreState, i: nat, k: nat, j: nat)
    requires i < |s.lanes| && i < |s.buffers| && i < |s.sizes| && k < |s.buffers[i]| && j < |s.inputs|
    requires s.inputs[j].instrs == CodeOf(prog, s.buffers[i][k])
    requires Streams(prog, cfg, s.lanes) && TableOk(deps0, s.lanes, s.pending) && LoadedAfter(deps0, s.lanes)
    requires forall q: nat :: Dep(deps0, q, s.buffers[i][k]) ==> Started(s.lanes, q)
    ensures var t := LoadChain(s, i, k, j);
            Streams(prog, cfg, t.lanes) && TableOk(deps0, t.lanes, t.pending) && LoadedAfter(deps0, t.lanes)
    ensures forall q: nat :: Started(LoadChain(s, i, k, j).lanes, q) <==> Started(s.lanes, q)
  {
    LoadKeepsStarted(s, i, k, j);
    LoadKeepsStreams(prog, cfg, s, i, k, j);
    var t := LoadChain(s, i, k, j);
    forall l, c: nat, p: nat | 0 <= l < |t.lanes| && c in t.lanes[l].scheduled && Dep(deps0, p, c)
      ensures Started(t.lanes, p)
    {
      assert c in s.lanes[l].scheduled || c == s.buffers[i][k];
    }
  }

  /** Offering lane `i` a chain keeps the invariant. */
  lemma ScheduleLaneKeeps(prog: seq<seq<Instr>>, deps0: map<nat, set<nat>>, home: seq<nat>, p: Params, s: CoreState, i: nat)
    requires CoreInv(prog, deps0, home, p.cfg, s) && p.numChains == |prog| && DepsWithin(deps0, |prog|)
    ensures CoreInv(prog, deps0, home, p.cfg, ScheduleLane(p, s, i))
    ensures forall q: nat :: Started(ScheduleLane(p, s, i).lanes, q) <==> Started(s.lanes, q)
  {
    if Loads(p, s, i) {
      var k := FirstEligible(s.pending, p.numChains, s.buffers[i]);
      var c := s.buffers[i][k];
      var j := FindChain(s.inputs, c);
      forall q: nat | Dep(deps0, q, c)
        ensures Started(s.lanes, q)
      {
        assert (c, q) !in s.pending;
      }
      LoadKeepsPlacement(prog, home, s, i, k, j);
      LoadKeepsRest(prog, deps0, p.cfg, s, i, k, j);
    }
  }

  /** The same chains have started. */
  ghost predicate SameStarted(a: seq<LaneState>, b: seq<LaneState>)
  {
    forall q: nat :: Started(b, q) <==> Started(a, q)
  }

  lemma ScheduleLanesInv(prog: seq<seq<Instr>>, deps0: map<nat, set<nat>>, home: seq<nat>, p: Params, s: CoreState, n: nat)
    requires CoreInv(prog, deps0, home, p.cfg, s) && p.numChains == |prog| && DepsWithin(deps0, |prog|)
    ensures CoreInv(prog, deps0, home, p.cfg, ScheduleLanes(p, s, n))
  {
    var inv := s => CoreInv(prog, deps0, home, p.cfg, s);
    forall t, i: nat | inv(t)
      ensures inv(ScheduleLane(p, t, i))
    {
      ScheduleLaneKeeps(prog, deps0, home, p, t, i);
    }
    ScheduleInduction(p, s, inv, n);
  }

  lemma {:induction false} ScheduleLanesStarted(p: Params, s: CoreState, n: nat)
    ensures SameStarted(s.lanes, ScheduleLanes(p, s, n).lanes)
  {
    if n > 0 {
      ScheduleLanesStarted(p, s, n - 1);
      var t := ScheduleLanes(p, s, n - 1);
      if Loads(p, t, n - 1) {
        var k := FirstEligible(t.pending, p.numChains, t.buffers[n - 1]);
        LoadKeepsStarted(t, n - 1, k, FindChain(t.inputs, t.buffers[n - 1][k]));
      }
    }
  }

  lemma ScheduleLanesKeeps(prog: seq<seq<Instr>>, deps0: map<nat, set<nat>>, home: seq<nat>, p: Params, s: CoreState, n: nat)
    requires CoreInv(prog, deps0, home, p.cfg, s) && p.numChains == |prog| && DepsWithin(deps0, |prog|)
    ensures CoreInv(prog, deps0, home, p.cfg, ScheduleLanes(p, s, n))
    ensures forall q: nat :: Started(ScheduleLanes(p, s, n).lanes, q) <==> Started(s.lanes, q)
  {
    ScheduleLanesInv(prog, deps0, home, p, s, n);
    ScheduleLanesStarted(p, s, n);
  }

  /** Every cycle keeps the invariant, whatever the memory mode and whatever Ruby does. */
  lemma CycleKeeps(prog: seq<seq<Instr>>, deps0: map<nat, set<nat>>, home: seq<nat>, p: Params, s: CoreState, env: Env)
    requires CoreInv(prog, deps0, home, p.cfg, s) && p.numChains == |prog| && DepsWithin(deps0, |prog|)
    ensures CoreInv(prog, deps0, home, p.cfg, Cycle(p, s, env))
  {
    MidCycleKeeps(prog, deps0, home, p, s, env);
    ScheduleLanesKeeps(prog, deps0, home, p, MidCycle(p, s, env), |s.lanes|);
  }

  // ---------- Whole runs ----------

  function Inputs(prog: seq<seq<Instr>>): seq<Chain>
  {
    seq(|prog|, c requires 0 <= c < |prog| => Chain(c, prog[c]))
  }

  function InitialPending(deps0: map<nat, set<nat>>): set<(nat, nat)>
  {
    set p, c | p in deps0 && c in deps0[p] :: (c, p)
  }

  /** A cleared core with the table filled and the chains prescheduled. */
  function InitialState(prog: seq<seq<Instr>>, deps0: map<nat, set<nat>>, buffers: seq<seq<nat>>, sizes: seq<int>): CoreState
  {
    CoreState(seq(|buffers|, _ => EMPTY_LANE), [], [], InitialPending(deps0), deps0, Inputs(prog), buffers, sizes,
              map[], EMPTY_MEMORY)
  }

  /** Every chain is in the buffer of its lane and nowhere else, once; the sizes add up. */
  ghost predicate Prescheduled(prog: seq<seq<Instr>>, home: seq<nat>, buffers: seq<seq<nat>>, sizes: seq<int>)
  {
    && |buffers| == |sizes|
    && HomesOk(prog, home, |buffers|)
    && (forall l :: 0 <= l < |buffers| ==> LanePlaced(prog, home, [], buffers[l], sizes[l], l))
    && (forall c :: 0 <= c < |home| ==> c in buffers[home[c]])
  }

  lemma InitialKeeps(prog: seq<seq<Instr>>, deps0: map<nat, set<nat>>, home: seq<nat>, cfg: Config,
                     buffers: seq<seq<nat>>, sizes: seq<int>)
    requires Prescheduled(prog, home, buffers, sizes)
    ensures CoreInv(prog, deps0, home, cfg, InitialState(prog, deps0, buffers, sizes))
  {
    var s := InitialState(prog, deps0, buffers, sizes);
    var sched := Scheduled(s.lanes);
    assert forall l :: 0 <= l < |sched| ==> sched[l] == [];
    forall c | 0 <= c < |home|
      ensures ChainPlaced(home, sched, s.inputs, buffers, c)
    {
      assert s.inputs[c].id == c;
    }
    assert forall l :: 0 <= l < |s.lanes| ==> s.lanes[l] == EMPTY_LANE;
    assert Placement(prog, home, sched, s.inputs, buffers, sizes);
  }

  lemma InvNext(prog: seq<seq<Instr>>, deps0: map<nat, set<nat>>, home: seq<nat>, p: Params,
                s: CoreState, env: Env, t: CoreState)
    requires CoreInv(prog, deps0, home, p.cfg, s) && p.numChains == |prog| && DepsWithin(deps0, |prog|)
    requires Next(p, s, env, t)
    ensures CoreInv(prog, deps0, home, p.cfg, t)
  {
    CycleKeeps(prog, deps0, home, p, s, env);
  }

  lemma InvAlongRun(prog: seq<seq<Instr>>, deps0: map<nat, set<nat>>, home: seq<nat>, p: Params,
                    states: seq<CoreState>, envs: seq<Env>, k: nat)
    requires IsRun(p, states, envs) && k < |states| && CoreInv(prog, deps0, home, p.cfg, states[0])
    requires p.numChains == |prog| && DepsWithin(deps0, |prog|)
    ensures CoreInv(prog, deps0, home, p.cfg, states[k])
  {
    var inv := (_: nat, s: CoreState) => CoreInv(prog, deps0, home, p.cfg, s);
    forall m: nat, s, env, t | inv(m, s) && Next(p, s, env, t)
      ensures inv(m + 1, t)
    {
      InvNext(prog, deps0, home, p, s, env, t);
    }
    RunInduction(p, states, envs, inv, k);
  }

  /** In every state of every run from the initial state, the invariant holds. */
  lemma RunKeepsInvariant(prog: seq<seq<Instr>>, deps0: map<nat, set<nat>>, home: seq<nat>, p: Params,
                          buffers: seq<seq<nat>>, sizes: seq<int>,
                          states: seq<CoreState>, envs: seq<Env>, k: nat)
    requires Prescheduled(prog, home, buffers, sizes) && DepsWithin(deps0, |prog|) && p.numChains == |prog|
    requires IsRun(p, states, envs) && states[0] == InitialState(prog, deps0, buffers, sizes)
    requires k < |states|
    ensures CoreInv(prog, deps0, home, p.cfg, states[k])
  {
    InitialKeeps(prog, deps0, home, p.cfg, buffers, sizes);
    InvAlongRun(prog, deps0, home, p, states, envs, k);
  }

  /** The code of one chain, counted inside the code of a list of chains. */
  lemma {:induction false} CodeMembers(prog: seq<seq<Instr>>, ids: seq<nat>, ins: Instr)
    ensures ins in Code(prog, ids) <==> exists k :: 0 <= k < |ids| && ins in CodeOf(prog, ids[k])
  {
    if ids != [] {
      CodeMembers(prog, ids[..|ids| - 1], ins);
    }
  }

  lemma FinishedChain(home: seq<nat>, sched: seq<seq<nat>>, inputs: seq<Chain>, buffers: seq<seq<nat>>, c: nat)
    requires c < |home| && home[c] < |sched| == |buffers| && inputs == []
    requires ChainPlaced(home, sched, inputs, buffers, c)
    ensures c in sched[home[c]] && c !in buffers[home[c]]
  {
    assert !Waits(inputs, c);
  }

  lemma EmptyOrMember(s: seq<nat>)
    ensures s == [] || s[0] in s
  {
  }

  lemma EmptyBuffer(prog: seq<seq<Instr>>, home: seq<nat>, sched: seq<nat>, buffer: seq<nat>, size: int, l: nat)
    requires LanePlaced(prog, home, sched, buffer, size, l)
    requires forall c :: 0 <= c < |home| && home[c] == l ==> c !in buffer
    ensures buffer == [] && size == 0
  {
    EmptyOrMember(buffer);
  }

  /**
   When the core reports that it is finished, every chain has been loaded in its lane,
   all buffers are empty and their sizes are back at zero, and what has not retired is
   exactly what sits in the fetch stacks.
   */
  lemma FinishMeansLoaded(prog: seq<seq<Instr>>, deps0: map<nat, set<nat>>, home: seq<nat>, cfg: Config, s: CoreState)
    requires CoreInv(prog, deps0, home, cfg, s) && IsFinish(s)
    ensures forall c :: 0 <= c < |prog| ==> home[c] < |s.lanes| && c in s.lanes[home[c]].scheduled
    ensures forall l :: 0 <= l < |s.lanes| ==> s.buffers[l] == [] && s.sizes[l] == 0
    ensures forall l :: 0 <= l < |s.lanes| ==>
                          s.lanes[l].retired + s.lanes[l].fetched == Code(prog, s.lanes[l].scheduled)
  {
    var sched := Scheduled(s.lanes);
    forall c | 0 <= c < |prog|
      ensures c in sched[home[c]] && c !in s.buffers[home[c]]
    {
      FinishedChain(home, sched, s.inputs, s.buffers, c);
    }
    forall l | 0 <= l < |s.lanes|
      ensures s.buffers[l] == [] && s.sizes[l] == 0
    {
      EmptyBuffer(prog, home, sched[l], s.buffers[l], s.sizes[l], l);
    }
    forall l | 0 <= l < |s.lanes|
      ensures s.lanes[l].retired + s.lanes[l].fetched == Code(prog, s.lanes[l].scheduled)
    {
      FreeLaneStream(prog, cfg, s.lanes[l]);
    }
  }

  lemma FreeLaneStream(prog: seq<seq<Instr>>, cfg: Config, s: LaneState)
    requires LaneStream(prog, cfg, s) && FreeLane(s)
    ensures s.retired + s.fetched == Code(prog, s.scheduled)
  {
  }
}
