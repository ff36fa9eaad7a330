/**
 The core as a state machine: one step is one cycle of `run_a_cycle` (src/Core.cpp).
 The lanes run, their memory requests are sent, responses wake lanes, the dependency
 table is cleared, and free lanes take new chains.
 */
module Machine {
  import opened Sequences
  import opened Lanes
  import opened MemorySystem

  /** A chain that waits in `input_chain`. */
  datatype Chain = Chain(id: nat, instrs: seq<Instr>)

  /** `access` gives the kind and address of the memory access of every node in this iteration. */
  datatype Params = Params(cfg: Config, access: map<nat, (bool, nat)>, numChains: nat)

  /**
   `pending` holds (c, p) for the ones in the dependency table: chain c waits for chain p.
   `deps` is the fan-out of every chain, `buffers` and `sizes` are the prescheduled chains
   of every lane and their total length.
   */
  datatype CoreState = CoreState(
    lanes: seq<LaneState>,
    finished: seq<nat>,
    requests: seq<(nat, nat)>,
    pending: set<(nat, nat)>,
    deps: map<nat, set<nat>>,
    inputs: seq<Chain>,
    buffers: seq<seq<nat>>,
    sizes: seq<int>,
    reqMap: map<nat, nat>,
    mem: MemState)

  /** What Ruby does in a cycle: the lines it is ready for, and the lines it returns. */
  datatype Env = Env(ready: set<nat>, responses: seq<nat>)

  // ---------- Running the lanes ----------

  function RunAll(cfg: Config, lanes: seq<LaneState>): (r: seq<LaneState>)
    ensures |r| == |lanes| && forall l :: 0 <= l < |lanes| ==> r[l] == RunLane(cfg, lanes[l])
  {
    seq(|lanes|, l requires 0 <= l < |lanes| => RunLane(cfg, lanes[l]))
  }

  function AllFinishes(lanes: seq<LaneState>): seq<nat>
  {
    if lanes == [] then [] else AllFinishes(lanes[..|lanes| - 1]) + Finishes(lanes[|lanes| - 1])
  }

  function AllRequests(cfg: Config, lanes: seq<LaneState>): seq<(nat, nat)>
  {
    if lanes == [] then []
    else AllRequests(cfg, lanes[..|lanes| - 1]) + Requests(cfg, |lanes| - 1, lanes[|lanes| - 1])
  }

  /** The requests of a cycle come lane by lane, at most one from each. */
  lemma {:induction false} RequestsAscend(cfg: Config, lanes: seq<LaneState>)
    ensures forall i :: 0 <= i < |AllRequests(cfg, lanes)| ==> AllRequests(cfg, lanes)[i].0 < |lanes|
    ensures forall i, j :: 0 <= i < j < |AllRequests(cfg, lanes)| ==>
                             AllRequests(cfg, lanes)[i].0 < AllRequests(cfg, lanes)[j].0
  {
    if lanes != [] {
      RequestsAscend(cfg, lanes[..|lanes| - 1]);
    }
  }

  function RunCore(p: Params, s: CoreState): CoreState
  {
    s.(lanes := RunAll(p.cfg, s.lanes),
       finished := s.finished + AllFinishes(s.lanes),
       requests := s.requests + AllRequests(p.cfg, s.lanes))
  }

  // ---------- Memory ----------

  /** A node without an entry in the memory map makes the program stop; that case is left unsent here. */
  function SentMem(access: map<nat, (bool, nat)>, mem: MemState, requests: seq<(nat, nat)>): MemState
    decreases |requests|
  {
    if requests == [] then mem
    else
      var n := requests[0].1;
      SentMem(access, if n in access then Buffered(mem, access[n].0, n, access[n].1) else mem, requests[1..])
  }

  /** The requests join the buffer in their order, unissued. */
  lemma {:induction false} SentInOrder(access: map<nat, (bool, nat)>, mem: MemState, requests: seq<(nat, nat)>)
    requires forall q :: q in requests ==> q.1 in access
    ensures var b := SentMem(access, mem, requests).buffer;
            && |b| == |mem.buffer| + |requests| && b[..|mem.buffer|] == mem.buffer
            && forall k :: 0 <= k < |requests| ==>
                             var n := requests[k].1;
                             b[|mem.buffer| + k] == Request(access[n].0, n, access[n].1, false)
    decreases |requests|
  {
    if requests != [] {
      var n := requests[0].1;
      var next := Buffered(mem, access[n].0, n, access[n].1);
      assert requests[0] in requests;
      SentInOrder(access, next, requests[1..]);
      var b := SentMem(access, mem, requests).buffer;
      assert b[..|mem.buffer| + 1] == next.buffer;
      forall k | 0 <= k < |requests|
        ensures var q := requests[k].1; b[|mem.buffer| + k] == Request(access[q].0, q, access[q].1, false)
      {
        if k == 0 {
          assert b[|mem.buffer|] == b[..|mem.buffer| + 1][|mem.buffer|];
        } else {
          assert requests[1..][k - 1] == requests[k];
        }
      }
      assert b[..|mem.buffer|] == b[..|mem.buffer| + 1][..|mem.buffer|];
    }
  }

  function SentMap(reqMap: map<nat, nat>, requests: seq<(nat, nat)>): map<nat, nat>
    decreases |requests|
  {
    if requests == [] then reqMap else SentMap(reqMap[requests[0].0 := requests[0].1], requests[1..])
  }

  function SendRequests(p: Params, s: CoreState): CoreState
  {
    s.(requests := [], reqMap := SentMap(s.reqMap, s.requests), mem := SentMem(p.access, s.mem, s.requests))
  }

  /** The first lane whose last request was for node `n`, or `count`. */
  function Requester(reqMap: map<nat, nat>, n: nat, from: nat, count: nat): (l: nat)
    requires from <= count
    ensures from <= l <= count
    ensures l < count ==> l in reqMap && reqMap[l] == n
    ensures forall k :: from <= k < l ==> !(k in reqMap && reqMap[k] == n)
    decreases count - from
  {
    if from == count || (from in reqMap && reqMap[from] == n) then from
    else Requester(reqMap, n, from + 1, count)
  }

  function WokenOne(lanes: seq<LaneState>, reqMap: map<nat, nat>, n: nat): seq<LaneState>
  {
    var l := Requester(reqMap, n, 0, |lanes|);
    if l < |lanes| then lanes[l := lanes[l].(exeCnt := 0)] else lanes
  }

  function Woken(lanes: seq<LaneState>, reqMap: map<nat, nat>, nodes: seq<nat>): seq<LaneState>
    decreases |nodes|
  {
    if nodes == [] then lanes else Woken(WokenOne(lanes, reqMap, nodes[0]), reqMap, nodes[1..])
  }

  function UpdateMemory(s: CoreState, env: Env): CoreState
  {
    var m := Accessed(s.mem, env.ready);
    s.(mem := Processed(m, env.responses), lanes := Woken(s.lanes, s.reqMap, Answered(m, env.responses)))
  }

  // ---------- Dependencies ----------

  function ClearedPending(pending: set<(nat, nat)>, deps: map<nat, set<nat>>, finished: seq<nat>): set<(nat, nat)>
  {
    set q | q in pending && !(q.1 in finished && q.1 in deps && q.0 in deps[q.1])
  }

  /** Looking up a chain without dependents creates an empty entry for it. */
  function TouchedDeps(deps: map<nat, set<nat>>, finished: seq<nat>): map<nat, set<nat>>
  {
    deps + map p | p in finished && p !in deps :: {}
  }

  function UpdateChains(s: CoreState): CoreState
  {
    s.(finished := [], pending := ClearedPending(s.pending, s.deps, s.finished), deps := TouchedDeps(s.deps, s.finished))
  }

  // ---------- Scheduling ----------

  predicate Eligible(pending: set<(nat, nat)>, numChains: nat, c: nat)
  {
    forall j :: 0 <= j < numChains ==> (c, j) !in pending
  }

  /** The first eligible chain of a buffer, or its length. */
  function FirstEligible(pending: set<(nat, nat)>, numChains: nat, buffer: seq<nat>): (k: nat)
    ensures k <= |buffer| && (k < |buffer| ==> Eligible(pending, numChains, buffer[k]))
    ensures forall i :: 0 <= i < k ==> !Eligible(pending, numChains, buffer[i])
  {
    if buffer == [] || Eligible(pending, numChains, buffer[0]) then 0
    else 1 + FirstEligible(pending, numChains, buffer[1..])
  }

  /** The first waiting chain with the given id, or the length of the list. */
  function FindChain(inputs: seq<Chain>, id: nat): (k: nat)
    ensures k <= |inputs| && (k < |inputs| ==> inputs[k].id == id)
    ensures forall i :: 0 <= i < k ==> inputs[i].id != id
  {
    if inputs == [] || inputs[0].id == id then 0 else 1 + FindChain(inputs[1..], id)
  }

  function RemoveAt<T>(s: seq<T>, k: nat): seq<T>
    requires k < |s|
  {
    s[..k] + s[k + 1..]
  }

  predicate Loads(p: Params, s: CoreState, i: nat)
  {
    && i < |s.lanes| && i < |s.buffers| && i < |s.sizes|
    && FreeLane(s.lanes[i])
    && FirstEligible(s.pending, p.numChains, s.buffers[i]) < |s.buffers[i]|
    && FindChain(s.inputs, s.buffers[i][FirstEligible(s.pending, p.numChains, s.buffers[i])]) < |s.inputs|
  }

  /** Lane `i` takes chain `k` of its buffer, which is entry `j` of the waiting chains. */
  function LoadChain(s: CoreState, i: nat, k: nat, j: nat): CoreState
    requires i < |s.lanes| && i < |s.buffers| && i < |s.sizes| && k < |s.buffers[i]| && j < |s.inputs|
  {
    var ch := s.inputs[j];
    s.(lanes := s.lanes[i := LoadLane(s.lanes[i], s.buffers[i][k], ch.instrs)],
       buffers := s.buffers[i := RemoveAt(s.buffers[i], k)],
       sizes := s.sizes[i := s.sizes[i] - |ch.instrs|],
       inputs := RemoveAt(s.inputs, j))
  }

  function ScheduleLane(p: Params, s: CoreState, i: nat): CoreState
  {
    if Loads(p, s, i) then
      var k := FirstEligible(s.pending, p.numChains, s.buffers[i]);
      LoadChain(s, i, k, FindChain(s.inputs, s.buffers[i][k]))
    else s
  }

  /** The first `n` lanes have been offered a chain. */
  function ScheduleLanes(p: Params, s: CoreState, n: nat): CoreState
  {
    if n == 0 then s else ScheduleLane(p, ScheduleLanes(p, s, n - 1), n - 1)
  }

  /** What holds before the lanes are offered chains and is kept by each offer holds after them. */
  lemma {:induction false} ScheduleInduction(p: Params, s: CoreState, inv: CoreState -> bool, n: nat)
    requires inv(s)
    requires forall t, i: nat :: inv(t) ==> inv(ScheduleLane(p, t, i))
    ensures inv(ScheduleLanes(p, s, n))
  {
    if n > 0 {
      ScheduleInduction(p, s, inv, n - 1);
    }
  }

  // ---------- A cycle ----------

  function MidCycle(p: Params, s: CoreState, env: Env): CoreState
  {
    UpdateChains(UpdateMemory(SendRequests(p, RunCore(p, s)), env))
  }

  function Cycle(p: Params, s: CoreState, env: Env): CoreState
  {
    ScheduleLanes(p, MidCycle(p, s, env), |s.lanes|)
  }

  /** Nothing waits and every lane is free; fetched instructions are not looked at. */
  predicate IsFinish(s: CoreState)
  {
    s.inputs == [] && forall l :: 0 <= l < |s.lanes| ==> FreeLane(s.lanes[l])
  }

  /** Ruby returns only lines that it holds. */
  ghost predicate EnvOk(p: Params, s: CoreState, env: Env)
  {
    multiset(env.responses) <= Accessed(SendRequests(p, RunCore(p, s)).mem, env.ready).outstanding
  }

  ghost predicate Next(p: Params, s: CoreState, env: Env, t: CoreState)
  {
    EnvOk(p, s, env) && t == Cycle(p, s, env)
  }

  /** Consecutive states of a run, one environment step per cycle. */
  ghost predicate IsRun(p: Params, states: seq<CoreState>, envs: seq<Env>)
  {
    |states| == |envs| + 1 && forall k :: 0 <= k < |envs| ==> Next(p, states[k], envs[k], states[k + 1])
  }

  lemma NextOfRun(p: Params, states: seq<CoreState>, envs: seq<Env>, k: nat)
    requires IsRun(p, states, envs) && k < |envs|
    ensures Next(p, states[k], envs[k], states[k + 1])
  {
  }

  /** What holds at the start and is kept by every cycle holds in every state of a run. */
  lemma {:induction false} RunInduction(p: Params, states: seq<CoreState>, envs: seq<Env>,
                                        inv: (nat, CoreState) -> bool, k: nat)
    requires IsRun(p, states, envs) && k < |states| && inv(0, states[0])
    requires forall m: nat, s, env, t {:trigger inv(m, s), Next(p, s, env, t)} ::
               m < k && inv(m, s) && Next(p, s, env, t) ==> inv(m + 1, t)
    ensures inv(k, states[k])
  {
    if k > 0 {
      RunInduction(p, states, envs, inv, k - 1);
      NextOfRun(p, states, envs, k - 1);
    }
  }

  // ---------- Runs without Ruby ----------

  /** Ruby neither takes requests nor answers. */
  const SILENT := Env({}, [])

  lemma SilentRuby(p: Params, s: CoreState)
    ensures EnvOk(p, s, SILENT)
  {
    assert multiset(SILENT.responses) == multiset{};
  }

  /** The state after `k` cycles in which Ruby does nothing. */
  ghost function After(p: Params, s: CoreState, k: nat): CoreState
  {
    Iterate((t: CoreState) => Cycle(p, t, SILENT), s, k)
  }

  ghost function Afters(p: Params, s: CoreState, n: nat): (r: seq<CoreState>)
    ensures |r| == n + 1 && forall k :: 0 <= k <= n ==> r[k] == After(p, s, k)
  {
    seq(n + 1, k requires 0 <= k <= n => After(p, s, k))
  }

  lemma AfterNext(p: Params, s: CoreState, k: nat)
    ensures Next(p, After(p, s, k), SILENT, After(p, s, k + 1))
  {
    SilentRuby(p, After(p, s, k));
  }

  lemma AftersNext(p: Params, s: CoreState, n: nat, envs: seq<Env>, k: nat)
    requires k < n == |envs| && envs[k] == SILENT
    ensures Next(p, Afters(p, s, n)[k], envs[k], Afters(p, s, n)[k + 1])
  {
    AfterNext(p, s, k);
  }

  lemma AftersRun(p: Params, s: CoreState, n: nat) returns (envs: seq<Env>)
    ensures |envs| == n && IsRun(p, Afters(p, s, n), envs)
  {
    envs := seq(n, _ => SILENT);
    forall k | 0 <= k < n
      ensures Next(p, Afters(p, s, n)[k], envs[k], Afters(p, s, n)[k + 1])
    {
      AftersNext(p, s, n, envs, k);
    }
  }

  /** The `n`th cycle without Ruby, and none before it, leaves a finished state. */
  ghost predicate FinishesAfter(p: Params, s: CoreState, n: nat)
  {
    n >= 1 && IsFinish(After(p, s, n)) && forall k: nat :: 1 <= k < n ==> !IsFinish(After(p, s, k))
  }

  lemma FinishedOnlyAt(p: Params, s: CoreState, n: nat, k: nat)
    requires FinishesAfter(p, s, n) && 1 <= k <= n
    ensures IsFinish(After(p, s, k)) <==> k == n
  {
  }

  /** The least number from 1 up to `m` for which `done` holds. */
  lemma {:induction false} FirstTime(done: nat -> bool, m: nat) returns (n: nat)
    requires m >= 1 && done(m)
    ensures 1 <= n <= m && done(n) && forall k: nat :: 1 <= k < n ==> !done(k)
    decreases m
  {
    n := m;
    if k: nat :| 1 <= k < m && done(k) {
      n := FirstTime(done, k);
    }
  }

  lemma FirstFinish(p: Params, s: CoreState, m: nat) returns (n: nat)
    requires m >= 1 && IsFinish(After(p, s, m))
    ensures n <= m && FinishesAfter(p, s, n)
  {
    var done := (k: nat) => IsFinish(After(p, s, k));
    n := FirstTime(done, m);
    forall k: nat | 1 <= k < n
      ensures !IsFinish(After(p, s, k))
    {
      assert !done(k);
    }
  }
}
