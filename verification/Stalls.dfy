/**
 Lanes that wait for memory (memory mode 3): in every reachable state they match the
 buffered requests one to one, and every line that Ruby returns wakes exactly the lane
 whose request it removes.
 */
module Stalls {
  import opened Sequences
  import opened Lanes
  import opened MemorySystem
  import opened Machine
  import opened Dispatch
  import opened Progress

  /** Different instructions are different nodes of the original graph. */
  ghost predicate DistinctNodes(prog: seq<seq<Instr>>)
  {
    forall c, d, a, b :: 0 <= c < |prog| && 0 <= d < |prog| && a in prog[c] && b in prog[d] && a.oldId == b.oldId ==> c == d
  }

  /** Every memory instruction has an entry in the memory map. */
  ghost predicate Mapped(prog: seq<seq<Instr>>, access: map<nat, (bool, nat)>)
  {
    forall c, ins :: 0 <= c < |prog| && ins in prog[c] && IsMemory(ins) ==> ins.oldId in access
  }

  // ---------- Owners ----------

  /** The node was issued by the lane. */
  ghost predicate HasIssued(s: LaneState, n: nat)
  {
    exists ins :: ins in s.retired + s.executing && ins.oldId == n
  }

  ghost predicate Owns(s: LaneState, n: nat)
  {
    exists ins :: ins in Stream(s) && ins.oldId == n
  }

  ghost predicate UniqueOwners(lanes: seq<LaneState>)
  {
    forall l, m, n: nat :: 0 <= l < |lanes| && 0 <= m < |lanes| && Owns(lanes[l], n) && Owns(lanes[m], n) ==> l == m
  }

  lemma OwnerHome(prog: seq<seq<Instr>>, home: seq<nat>, cfg: Config, s: LaneState,
                  buffer: seq<nat>, size: int, l: nat, n: nat) returns (c: nat, ins: Instr)
    requires |home| == |prog| && LaneStream(prog, cfg, s) && LanePlaced(prog, home, s.scheduled, buffer, size, l)
    requires Owns(s, n)
    ensures c < |prog| && home[c] == l && ins in prog[c] && ins.oldId == n
  {
    ins :| ins in Stream(s) && ins.oldId == n;
    CodeMembers(prog, s.scheduled, ins);
    var k :| 0 <= k < |s.scheduled| && ins in CodeOf(prog, s.scheduled[k]);
    c := s.scheduled[k];
    assert c in s.scheduled;
  }

  /** In a reachable state, every node belongs to one lane. */
  lemma OwnersAreUnique(prog: seq<seq<Instr>>, deps0: map<nat, set<nat>>, home: seq<nat>, cfg: Config, s: CoreState)
    requires CoreInv(prog, deps0, home, cfg, s) && DistinctNodes(prog)
    ensures UniqueOwners(s.lanes)
  {
    forall l, m, n: nat | 0 <= l < |s.lanes| && 0 <= m < |s.lanes| && Owns(s.lanes[l], n) && Owns(s.lanes[m], n)
      ensures l == m
    {
      assert LaneStream(prog, cfg, s.lanes[l]) && LaneStream(prog, cfg, s.lanes[m]);
      assert LanePlaced(prog, home, Scheduled(s.lanes)[l], s.buffers[l], s.sizes[l], l);
      assert LanePlaced(prog, home, Scheduled(s.lanes)[m], s.buffers[m], s.sizes[m], m);
      var c, a := OwnerHome(prog, home, cfg, s.lanes[l], s.buffers[l], s.sizes[l], l, n);
      var d, b := OwnerHome(prog, home, cfg, s.lanes[m], s.buffers[m], s.sizes[m], m, n);
    }
  }

  // ---------- Stalled lanes ----------

  predicate Stalled(s: LaneState)
  {
    s.exeCnt == -1 && s.executing != []
  }

  /** The nodes that stalled lanes wait for. */
  ghost function StalledIds(lanes: seq<LaneState>): set<nat>
  {
    set l | 0 <= l < |lanes| && Stalled(lanes[l]) :: lanes[l].executing[0].oldId
  }

  /** Lane `l` waits for node `n`. */
  ghost predicate WaitsFor(lanes: seq<LaneState>, l: nat, n: nat)
  {
    l < |lanes| && Stalled(lanes[l]) && lanes[l].executing[0].oldId == n
  }

  lemma StalledId(lanes: seq<LaneState>, n: nat)
    ensures n in StalledIds(lanes) <==> exists l: nat :: WaitsFor(lanes, l, n)
  {
    if n in StalledIds(lanes) {
      var l: nat :| l < |lanes| && Stalled(lanes[l]) && lanes[l].executing[0].oldId == n;
      assert WaitsFor(lanes, l, n);
    }
  }

  lemma WaiterOwns(s: LaneState)
    requires Stalled(s)
    ensures HasIssued(s, s.executing[0].oldId)
  {
    assert s.executing[0] in s.retired + s.executing;
  }

  lemma IssuerOwns(s: LaneState, n: nat)
    requires HasIssued(s, n)
    ensures Owns(s, n)
  {
    var ins :| ins in s.retired + s.executing && ins.oldId == n;
    assert ins in Stream(s);
  }

  /** The request map knows the last request of every lane that has made one. */
  ghost predicate ReqMapOk(lanes: seq<LaneState>, reqMap: map<nat, nat>)
  {
    && (forall l :: l in reqMap ==> l < |lanes| && HasIssued(lanes[l], reqMap[l]))
    && (forall l :: 0 <= l < |lanes| && Stalled(lanes[l]) ==>
                      l in reqMap && reqMap[l] == lanes[l].executing[0].oldId)
  }

  /** Stalled lanes and buffered requests are for the same nodes. */
  ghost predicate StallInv(s: CoreState)
  {
    && MemOk(s.mem)
    && s.requests == []
    && StalledIds(s.lanes) == Ids(s.mem.buffer)
    && ReqMapOk(s.lanes, s.reqMap)
  }

  // ---------- Running the lanes ----------

  /** A cycle of a lane leaves it stalled when it was, or when it made a request. */
  lemma RunStalls(cfg: Config, id: nat, s: LaneState)
    requires LaneOk(cfg, s)
    ensures Stalled(s) ==> Requests(cfg, id, s) == [] && RunLane(cfg, s).executing == s.executing
                           && Stalled(RunLane(cfg, s))
    ensures Requests(cfg, id, s) != [] ==>
              Stalled(RunLane(cfg, s)) && Requests(cfg, id, s) == [(id, RunLane(cfg, s).executing[0].oldId)]
              && IsMemory(RunLane(cfg, s).executing[0])
    ensures Stalled(RunLane(cfg, s)) ==> Stalled(s) || Requests(cfg, id, s) != []
    ensures forall n :: HasIssued(s, n) ==> HasIssued(RunLane(cfg, s), n)
  {
    var t := RunLane(cfg, s);
    forall ins | ins in s.retired + s.executing
      ensures ins in t.retired + t.executing
    {
      if ins in s.executing && Retires(Counted(s)) {
        assert t.retired == s.retired + [s.executing[0]];
      }
    }
  }

  lemma {:induction false} RequestMembers(cfg: Config, lanes: seq<LaneState>, q: (nat, nat))
    ensures q in AllRequests(cfg, lanes) <==> exists l: nat :: l < |lanes| && q in Requests(cfg, l, lanes[l])
  {
    if lanes != [] {
      var n := |lanes| - 1;
      RequestMembers(cfg, lanes[..n], q);
      if l: nat :| l < |lanes| && q in Requests(cfg, l, lanes[l]) {
        if l < n {
          assert q in Requests(cfg, l, lanes[..n][l]);
        }
      }
    }
  }

  /** A lane makes at most one request in a cycle. */
  lemma {:induction false} RequestsDistinct(cfg: Config, lanes: seq<LaneState>)
    ensures forall i, j :: 0 <= i < j < |AllRequests(cfg, lanes)| ==>
                             AllRequests(cfg, lanes)[i].0 < AllRequests(cfg, lanes)[j].0
    ensures forall i :: 0 <= i < |AllRequests(cfg, lanes)| ==> AllRequests(cfg, lanes)[i].0 < |lanes|
  {
    if lanes != [] {
      RequestsDistinct(cfg, lanes[..|lanes| - 1]);
    }
  }

  /** The requests of a cycle come from lanes that wait for them now and did not wait before. */
  ghost predicate Fresh(before: seq<LaneState>, after: seq<LaneState>, requests: seq<(nat, nat)>)
  {
    && |before| == |after|
    && (forall q :: q in requests ==> WaitsFor(after, q.0, q.1) && !Stalled(before[q.0]))
    && (forall i, j :: 0 <= i < j < |requests| ==> requests[i].0 < requests[j].0)
    && (forall l: nat, n: nat :: WaitsFor(after, l, n) ==> WaitsFor(before, l, n) || (l, n) in requests)
    && (forall l: nat, n: nat :: WaitsFor(before, l, n) ==> WaitsFor(after, l, n))
  }

  lemma RunIsFresh(prog: seq<seq<Instr>>, cfg: Config, lanes: seq<LaneState>)
    requires Streams(prog, cfg, lanes)
    ensures Fresh(lanes, RunAll(cfg, lanes), AllRequests(cfg, lanes))
  {
    var after := RunAll(cfg, lanes);
    RequestsDistinct(cfg, lanes);
    forall q | q in AllRequests(cfg, lanes)
      ensures WaitsFor(after, q.0, q.1) && !Stalled(lanes[q.0])
    {
      RequestMembers(cfg, lanes, q);
      var l: nat :| l < |lanes| && q in Requests(cfg, l, lanes[l]);
      assert LaneStream(prog, cfg, lanes[l]);
      RunStalls(cfg, l, lanes[l]);
    }
    forall l: nat, n: nat | WaitsFor(after, l, n)
      ensures WaitsFor(lanes, l, n) || (l, n) in AllRequests(cfg, lanes)
    {
      assert LaneStream(prog, cfg, lanes[l]);
      RunStalls(cfg, l, lanes[l]);
      RequestMembers(cfg, lanes, (l, n));
    }
    forall l: nat, n: nat | WaitsFor(lanes, l, n)
      ensures WaitsFor(after, l, n)
    {
      assert LaneStream(prog, cfg, lanes[l]);
      RunStalls(cfg, l, lanes[l]);
    }
  }

  // ---------- Sending requests ----------

  ghost function Nodes(requests: seq<(nat, nat)>): set<nat>
  {
    set q | q in requests :: q.1
  }

  lemma {:induction false} SendingKeeps(access: map<nat, (bool, nat)>, mem: MemState, requests: seq<(nat, nat)>)
    requires MemOk(mem) && forall q :: q in requests ==> q.1 in access && q.1 !in Ids(mem.buffer)
    requires forall i, j :: 0 <= i < j < |requests| ==> requests[i].1 != requests[j].1
    ensures MemOk(SentMem(access, mem, requests))
    ensures Ids(SentMem(access, mem, requests).buffer) == Ids(mem.buffer) + Nodes(requests)
    decreases |requests|
  {
    if requests != [] {
      var n := requests[0].1;
      var next := Buffered(mem, access[n].0, n, access[n].1);
      BufferedKeeps(mem, access[n].0, n, access[n].1);
      assert requests[0] in requests;
      SendingKeeps(access, next, requests[1..]);
      assert requests == [requests[0]] + requests[1..];
      NodesFirst(requests[0], requests[1..]);
    }
  }

  lemma NodesFirst(q: (nat, nat), rest: seq<(nat, nat)>)
    ensures Nodes([q] + rest) == {q.1} + Nodes(rest)
  {
    assert q in [q] + rest;
    forall r | r in rest
      ensures r in [q] + rest
    {
    }
  }

  predicate FromLane(requests: seq<(nat, nat)>, l: nat)
  {
    exists q :: q in requests && q.0 == l
  }

  lemma {:induction false} MapSent(reqMap: map<nat, nat>, requests: seq<(nat, nat)>)
    requires forall i, j :: 0 <= i < j < |requests| ==> requests[i].0 < requests[j].0
    ensures forall q :: q in requests ==> q.0 in SentMap(reqMap, requests) && SentMap(reqMap, requests)[q.0] == q.1
    ensures forall l: nat :: !FromLane(requests, l) ==>
                               (l in SentMap(reqMap, requests) <==> l in reqMap)
                               && (l in reqMap ==> SentMap(reqMap, requests)[l] == reqMap[l])
    decreases |requests|
  {
    if requests != [] {
      var first, rest := requests[0], requests[1..];
      var next := reqMap[first.0 := first.1];
      MapSent(next, rest);
      assert requests == [first] + rest;
      assert forall q :: q in rest ==> q.0 != first.0;
      forall l: nat | !FromLane(requests, l)
        ensures l != first.0 && !FromLane(rest, l)
      {
        assert first in requests;
      }
    }
  }

  lemma SentReqMapOk(before: seq<LaneState>, after: seq<LaneState>, reqMap: map<nat, nat>, requests: seq<(nat, nat)>)
    requires ReqMapOk(before, reqMap) && Fresh(before, after, requests)
    requires forall l, n :: 0 <= l < |before| && HasIssued(before[l], n) ==> HasIssued(after[l], n)
    ensures ReqMapOk(after, SentMap(reqMap, requests))
  {
    var m := SentMap(reqMap, requests);
    MapSent(reqMap, requests);
    forall l | l in m
      ensures l < |after| && HasIssued(after[l], m[l])
    {
      if FromLane(requests, l) {
        var q :| q in requests && q.0 == l;
        assert WaitsFor(after, q.0, q.1);
        WaiterOwns(after[l]);
      } else {
        assert l in reqMap;
      }
    }
    forall l | 0 <= l < |after| && Stalled(after[l])
      ensures l in m && m[l] == after[l].executing[0].oldId
    {
      var n := after[l].executing[0].oldId;
      assert WaitsFor(after, l, n);
      if (l, n) !in requests {
        assert WaitsFor(before, l, n);
      }
    }
  }

  lemma FreshNodes(before: seq<LaneState>, after: seq<LaneState>, requests: seq<(nat, nat)>)
    requires UniqueOwners(after) && Fresh(before, after, requests)
    ensures forall q :: q in requests ==> q.1 !in StalledIds(before)
    ensures forall i, j :: 0 <= i < j < |requests| ==> requests[i].1 != requests[j].1
    ensures StalledIds(after) == StalledIds(before) + Nodes(requests)
  {
    forall q | q in requests
      ensures q.1 !in StalledIds(before)
    {
      StalledId(before, q.1);
      if l: nat :| WaitsFor(before, l, q.1) {
        SameWaiter(after, l, q.0, q.1);
      }
    }
    forall i, j | 0 <= i < j < |requests|
      ensures requests[i].1 != requests[j].1
    {
      assert requests[i] in requests && requests[j] in requests;
      if requests[i].1 == requests[j].1 {
        SameWaiter(after, requests[i].0, requests[j].0, requests[i].1);
      }
    }
    forall n: nat
      ensures n in StalledIds(after) <==> n in StalledIds(before) || n in Nodes(requests)
    {
      StalledId(after, n);
      StalledId(before, n);
      if l: nat :| WaitsFor(after, l, n) {
        assert WaitsFor(before, l, n) || (l, n) in requests;
      }
      if q :| q in requests && q.1 == n {
        assert WaitsFor(after, q.0, n);
      }
    }
  }

  /** Two lanes that wait for the same node are the same lane. */
  lemma SameWaiter(lanes: seq<LaneState>, l: nat, m: nat, n: nat)
    requires UniqueOwners(lanes) && WaitsFor(lanes, l, n) && WaitsFor(lanes, m, n)
    ensures l == m
  {
    WaiterOwns(lanes[l]);
    WaiterOwns(lanes[m]);
    IssuerOwns(lanes[l], n);
    IssuerOwns(lanes[m], n);
  }

  // ---------- Waking lanes ----------

  /** The lane found through the request map is the one that waits for the node. */
  lemma RequesterWaits(lanes: seq<LaneState>, reqMap: map<nat, nat>, n: nat)
    requires UniqueOwners(lanes) && ReqMapOk(lanes, reqMap) && n in StalledIds(lanes)
    ensures WaitsFor(lanes, Requester(reqMap, n, 0, |lanes|), n)
  {
    StalledId(lanes, n);
    var m: nat :| WaitsFor(lanes, m, n);
    var l := Requester(reqMap, n, 0, |lanes|);
    WaiterOwns(lanes[m]);
    IssuerOwns(lanes[m], n);
    IssuerOwns(lanes[l], n);
  }

  lemma WakeOne(lanes: seq<LaneState>, reqMap: map<nat, nat>, n: nat)
    requires UniqueOwners(lanes) && ReqMapOk(lanes, reqMap) && n in StalledIds(lanes)
    ensures var t := WokenOne(lanes, reqMap, n);
            && UniqueOwners(t) && ReqMapOk(t, reqMap) && StalledIds(t) == StalledIds(lanes) - {n}
            && |t| == |lanes| && forall l :: 0 <= l < |lanes| ==>
                                               t[l] == if WaitsFor(lanes, l, n) then lanes[l].(exeCnt := 0) else lanes[l]
  {
    var t := WokenOne(lanes, reqMap, n);
    var w := Requester(reqMap, n, 0, |lanes|);
    RequesterWaits(lanes, reqMap, n);
    forall l: nat | l < |lanes|
      ensures t[l] == if WaitsFor(lanes, l, n) then lanes[l].(exeCnt := 0) else lanes[l]
    {
      if WaitsFor(lanes, l, n) {
        SameWaiter(lanes, l, w, n);
      }
    }
    forall l, x: nat | 0 <= l < |lanes|
      ensures (Owns(t[l], x) <==> Owns(lanes[l], x)) && (HasIssued(t[l], x) <==> HasIssued(lanes[l], x))
    {
      assert Stream(t[l]) == Stream(lanes[l]) && t[l].retired + t[l].executing == lanes[l].retired + lanes[l].executing;
    }
    WokenStalledIds(lanes, t, n);
  }

  lemma WokenStalledIds(lanes: seq<LaneState>, t: seq<LaneState>, n: nat)
    requires |t| == |lanes| && forall l :: 0 <= l < |lanes| ==>
                                             t[l] == if WaitsFor(lanes, l, n) then lanes[l].(exeCnt := 0) else lanes[l]
    ensures StalledIds(t) == StalledIds(lanes) - {n}
  {
    forall x: nat
      ensures x in StalledIds(t) <==> x in StalledIds(lanes) && x != n
    {
      StalledId(t, x);
      StalledId(lanes, x);
      if l: nat :| WaitsFor(t, l, x) {
        assert WaitsFor(lanes, l, x);
      }
      if l: nat :| WaitsFor(lanes, l, x) {
        if x != n {
          assert WaitsFor(t, l, x);
        }
      }
    }
  }

  /** A lane's state after the answers for `nodes` have been delivered. */
  ghost function AfterAnswers(lanes: seq<LaneState>, l: nat, nodes: seq<nat>): LaneState
    requires l < |lanes|
  {
    if Stalled(lanes[l]) && lanes[l].executing[0].oldId in nodes then lanes[l].(exeCnt := 0) else lanes[l]
  }

  lemma {:induction false} WakeAll(lanes: seq<LaneState>, reqMap: map<nat, nat>, nodes: seq<nat>)
    requires UniqueOwners(lanes) && ReqMapOk(lanes, reqMap)
    requires NoRepeats(nodes) && forall n :: n in nodes ==> n in StalledIds(lanes)
    ensures |Woken(lanes, reqMap, nodes)| == |lanes|
    ensures forall l :: 0 <= l < |lanes| ==> Woken(lanes, reqMap, nodes)[l] == AfterAnswers(lanes, l, nodes)
    decreases |nodes|
  {
    if nodes != [] {
      var n, rest := nodes[0], nodes[1..];
      assert nodes == [n] + rest;
      WakeOne(lanes, reqMap, n);
      var t := WokenOne(lanes, reqMap, n);
      WakeAll(t, reqMap, rest);
      forall l: nat | l < |lanes|
        ensures AfterAnswers(t, l, rest) == AfterAnswers(lanes, l, nodes)
      {
        AnswersCompose(lanes, t, l, n, rest);
      }
    }
  }

  lemma AnsweredStalls(lanes: seq<LaneState>, t: seq<LaneState>, reqMap: map<nat, nat>, nodes: seq<nat>)
    requires ReqMapOk(lanes, reqMap)
    requires |t| == |lanes| && forall l :: 0 <= l < |lanes| ==> t[l] == AfterAnswers(lanes, l, nodes)
    ensures ReqMapOk(t, reqMap)
    ensures StalledIds(t) == StalledIds(lanes) - (set n | n in nodes)
  {
    forall l, x: nat | 0 <= l < |lanes|
      ensures HasIssued(t[l], x) <==> HasIssued(lanes[l], x)
    {
      assert t[l].retired + t[l].executing == lanes[l].retired + lanes[l].executing;
    }
    forall x: nat
      ensures x in StalledIds(t) <==> x in StalledIds(lanes) && x !in nodes
    {
      StalledId(t, x);
      StalledId(lanes, x);
      if l: nat :| WaitsFor(t, l, x) {
        assert WaitsFor(lanes, l, x);
      }
      if l: nat :| WaitsFor(lanes, l, x) {
        if x !in nodes {
          assert WaitsFor(t, l, x);
        }
      }
    }
  }

  lemma AnswersCompose(lanes: seq<LaneState>, t: seq<LaneState>, l: nat, n: nat, rest: seq<nat>)
    requires l < |lanes| == |t| && n !in rest
    requires t[l] == if WaitsFor(lanes, l, n) then lanes[l].(exeCnt := 0) else lanes[l]
    ensures AfterAnswers(t, l, rest) == AfterAnswers(lanes, l, [n] + rest)
  {
  }

  // ---------- A cycle ----------

  ghost predicate ProgramFits(prog: seq<seq<Instr>>, p: Params)
  {
    DistinctNodes(prog) && Mapped(prog, p.access) && p.numChains == |prog|
  }

  lemma RequestsMapped(prog: seq<seq<Instr>>, p: Params, lanes: seq<LaneState>)
    requires Streams(prog, p.cfg, lanes) && Mapped(prog, p.access)
    ensures forall q :: q in AllRequests(p.cfg, lanes) ==> q.1 in p.access
  {
    forall q | q in AllRequests(p.cfg, lanes)
      ensures q.1 in p.access
    {
      RequestMembers(p.cfg, lanes, q);
      var l: nat :| l < |lanes| && q in Requests(p.cfg, l, lanes[l]);
      var ins := lanes[l].fetched[0];
      assert LaneStream(prog, p.cfg, lanes[l]) && ins in Stream(lanes[l]);
      CodeMembers(prog, lanes[l].scheduled, ins);
      var k :| 0 <= k < |lanes[l].scheduled| && ins in CodeOf(prog, lanes[l].scheduled[k]);
    }
  }

  lemma RunOwners(prog: seq<seq<Instr>>, cfg: Config, lanes: seq<LaneState>)
    requires Streams(prog, cfg, lanes) && UniqueOwners(lanes)
    ensures UniqueOwners(RunAll(cfg, lanes))
    ensures forall l, n :: 0 <= l < |lanes| && HasIssued(lanes[l], n) ==> HasIssued(RunAll(cfg, lanes)[l], n)
  {
    forall l | 0 <= l < |lanes|
      ensures Stream(RunAll(cfg, lanes)[l]) == Stream(lanes[l])
      ensures forall n :: HasIssued(lanes[l], n) ==> HasIssued(RunAll(cfg, lanes)[l], n)
    {
      assert LaneStream(prog, cfg, lanes[l]);
      RunLaneKeeps(cfg, lanes[l]);
      RunStalls(cfg, l, lanes[l]);
    }
    forall l, n: nat | 0 <= l < |lanes|
      ensures Owns(RunAll(cfg, lanes)[l], n) <==> Owns(lanes[l], n)
    {
    }
  }

  lemma SentState(p: Params, s: CoreState)
    requires s.requests == []
    ensures var r, requests := SendRequests(p, RunCore(p, s)), AllRequests(p.cfg, s.lanes);
            && r.requests == [] && r.lanes == RunAll(p.cfg, s.lanes)
            && r.mem == SentMem(p.access, s.mem, requests) && r.reqMap == SentMap(s.reqMap, requests)
  {
    assert s.requests + AllRequests(p.cfg, s.lanes) == AllRequests(p.cfg, s.lanes);
  }

  /** After the requests of a cycle are sent, stalled lanes and buffered requests match again. */
  lemma SentMatches(prog: seq<seq<Instr>>, deps0: map<nat, set<nat>>, home: seq<nat>, p: Params, s: CoreState)
    requires CoreInv(prog, deps0, home, p.cfg, s) && StallInv(s) && ProgramFits(prog, p)
    ensures var r := SendRequests(p, RunCore(p, s));
            StallInv(r) && UniqueOwners(r.lanes)
  {
    var ran, requests := RunAll(p.cfg, s.lanes), AllRequests(p.cfg, s.lanes);
    SentState(p, s);
    OwnersAreUnique(prog, deps0, home, p.cfg, s);
    RunOwners(prog, p.cfg, s.lanes);
    RunIsFresh(prog, p.cfg, s.lanes);
    FreshNodes(s.lanes, ran, requests);
    RequestsMapped(prog, p, s.lanes);
    SendingKeeps(p.access, s.mem, requests);
    SentReqMapOk(s.lanes, ran, s.reqMap, requests);
  }

  /**
   The returned lines of a cycle remove as many issued requests, hand back as many
   credits, and wake exactly the lanes that wait for the removed requests.
   */
  lemma ResponsesWake(prog: seq<seq<Instr>>, deps0: map<nat, set<nat>>, home: seq<nat>, p: Params, s: CoreState, env: Env)
    requires CoreInv(prog, deps0, home, p.cfg, s) && StallInv(s) && ProgramFits(prog, p) && EnvOk(p, s, env)
    ensures var r := SendRequests(p, RunCore(p, s));
            var nodes := Answered(Accessed(r.mem, env.ready), env.responses);
            var t := MidCycle(p, s, env);
            && |nodes| == |env.responses| && NoRepeats(nodes)
            && (forall n :: n in nodes ==> n in StalledIds(r.lanes))
            && |t.lanes| == |r.lanes|
            && (forall l :: 0 <= l < |r.lanes| ==> t.lanes[l] == AfterAnswers(r.lanes, l, nodes))
            && t.mem.credits == Accessed(r.mem, env.ready).credits + |env.responses|
    ensures StallInv(MidCycle(p, s, env))
  {
    var r := SendRequests(p, RunCore(p, s));
    SentMatches(prog, deps0, home, p, s);
    var m := Accessed(r.mem, env.ready);
    AccessedKeeps(r.mem, env.ready);
    ProcessedKeeps(m, env.responses);
    WakeAll(r.lanes, r.reqMap, Answered(m, env.responses));
    AnsweredStalls(r.lanes, MidCycle(p, s, env).lanes, r.reqMap, Answered(m, env.responses));
  }

  lemma LoadingKeepsStalls(p: Params, s: CoreState, n: nat)
    requires StallInv(s)
    ensures StallInv(ScheduleLanes(p, s, n))
  {
    ScheduleLanesFrame(p, s, n);
    var t := ScheduleLanes(p, s, n);
    forall l | 0 <= l < |s.lanes|
      ensures t.lanes[l].executing == s.lanes[l].executing && t.lanes[l].exeCnt == s.lanes[l].exeCnt
      ensures t.lanes[l].retired == s.lanes[l].retired
    {
      assert t.lanes[l] == s.lanes[l].(queue := t.lanes[l].queue, scheduled := t.lanes[l].scheduled);
    }
    SameStalls(s.lanes, t.lanes, s.reqMap);
  }

  lemma SameStalls(a: seq<LaneState>, b: seq<LaneState>, reqMap: map<nat, nat>)
    requires |a| == |b| && ReqMapOk(a, reqMap)
    requires forall l :: 0 <= l < |a| ==> b[l].executing == a[l].executing && b[l].exeCnt == a[l].exeCnt
    requires forall l :: 0 <= l < |a| ==> b[l].retired == a[l].retired
    ensures StalledIds(b) == StalledIds(a) && ReqMapOk(b, reqMap)
  {
    forall l, n | 0 <= l < |a|
      ensures HasIssued(b[l], n) <==> HasIssued(a[l], n)
    {
      assert b[l].retired + b[l].executing == a[l].retired + a[l].executing;
    }
  }

  /** Every cycle keeps the match between stalled lanes and requests. */
  lemma CycleKeepsStalls(prog: seq<seq<Instr>>, deps0: map<nat, set<nat>>, home: seq<nat>, p: Params, s: CoreState, env: Env)
    requires CoreInv(prog, deps0, home, p.cfg, s) && StallInv(s) && ProgramFits(prog, p) && EnvOk(p, s, env)
    ensures StallInv(Cycle(p, s, env))
  {
    ResponsesWake(prog, deps0, home, p, s, env);
    LoadingKeepsStalls(p, MidCycle(p, s, env), |s.lanes|);
  }

  lemma InitialStalls(prog: seq<seq<Instr>>, deps0: map<nat, set<nat>>, buffers: seq<seq<nat>>, sizes: seq<int>)
    ensures StallInv(InitialState(prog, deps0, buffers, sizes))
  {
    var s := InitialState(prog, deps0, buffers, sizes);
    assert forall l :: 0 <= l < |s.lanes| ==> s.lanes[l] == EMPTY_LANE;
    assert StalledIds(s.lanes) == {};
    assert Ids(s.mem.buffer) == {};
  }

  /** Both invariants, with what the program must offer for them. */
  ghost predicate RunInv(prog: seq<seq<Instr>>, deps0: map<nat, set<nat>>, home: seq<nat>, p: Params, s: CoreState)
  {
    && CoreInv(prog, deps0, home, p.cfg, s) && StallInv(s)
    && DepsWithin(deps0, |prog|) && ProgramFits(prog, p)
  }

  lemma RunInvStays(prog: seq<seq<Instr>>, deps0: map<nat, set<nat>>, home: seq<nat>, p: Params,
                      s: CoreState, env: Env, t: CoreState)
    requires RunInv(prog, deps0, home, p, s) && Next(p, s, env, t)
    ensures RunInv(prog, deps0, home, p, t)
  {
    CycleKeeps(prog, deps0, home, p, s, env);
    CycleKeepsStalls(prog, deps0, home, p, s, env);
  }

  lemma RunInvAlong(prog: seq<seq<Instr>>, deps0: map<nat, set<nat>>, home: seq<nat>, p: Params,
                    states: seq<CoreState>, envs: seq<Env>, k: nat)
    requires IsRun(p, states, envs) && k < |states| && RunInv(prog, deps0, home, p, states[0])
    ensures RunInv(prog, deps0, home, p, states[k])
  {
    var inv := (_: nat, s: CoreState) => RunInv(prog, deps0, home, p, s);
    forall m: nat, s, env, t | inv(m, s) && Next(p, s, env, t)
      ensures inv(m + 1, t)
    {
      RunInvStays(prog, deps0, home, p, s, env, t);
    }
    RunInduction(p, states, envs, inv, k);
  }

  /** In every state of every run in which Ruby returns only what it was sent, the invariants hold. */
  lemma RunKeepsStalls(prog: seq<seq<Instr>>, deps0: map<nat, set<nat>>, home: seq<nat>, p: Params,
                       buffers: seq<seq<nat>>, sizes: seq<int>,
                       states: seq<CoreState>, envs: seq<Env>, k: nat)
    requires Prescheduled(prog, home, buffers, sizes) && DepsWithin(deps0, |prog|) && ProgramFits(prog, p)
    requires IsRun(p, states, envs) && states[0] == InitialState(prog, deps0, buffers, sizes)
    requires k < |states|
    ensures CoreInv(prog, deps0, home, p.cfg, states[k]) && StallInv(states[k])
  {
    InitialKeeps(prog, deps0, home, p.cfg, buffers, sizes);
    InitialStalls(prog, deps0, buffers, sizes);
    RunInvAlong(prog, deps0, home, p, states, envs, k);
  }

  /** Every stalled lane has one buffered request and every buffered request one stalled lane. */
  lemma StallsMatchRequests(prog: seq<seq<Instr>>, deps0: map<nat, set<nat>>, home: seq<nat>, cfg: Config, s: CoreState)
    requires CoreInv(prog, deps0, home, cfg, s) && StallInv(s) && DistinctNodes(prog)
    ensures forall l: nat, n: nat :: WaitsFor(s.lanes, l, n) ==> n in Ids(s.mem.buffer)
    ensures forall r :: r in s.mem.buffer ==> exists l: nat :: WaitsFor(s.lanes, l, r.nodeId)
    ensures forall l: nat, m: nat, n: nat :: WaitsFor(s.lanes, l, n) && WaitsFor(s.lanes, m, n) ==> l == m
    ensures forall i, j :: 0 <= i < j < |s.mem.buffer| ==> s.mem.buffer[i].nodeId != s.mem.buffer[j].nodeId
  {
    OwnersAreUnique(prog, deps0, home, cfg, s);
    forall l: nat, n: nat | WaitsFor(s.lanes, l, n)
      ensures n in Ids(s.mem.buffer)
    {
      StalledId(s.lanes, n);
    }
    forall r | r in s.mem.buffer
      ensures exists l: nat :: WaitsFor(s.lanes, l, r.nodeId)
    {
      StalledId(s.lanes, r.nodeId);
    }
    forall l: nat, m: nat, n: nat | WaitsFor(s.lanes, l, n) && WaitsFor(s.lanes, m, n)
      ensures l == m
    {
      SameWaiter(s.lanes, l, m, n);
    }
  }
}
