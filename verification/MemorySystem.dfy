/**
 The request buffer in front of the memory simulator Ruby (src/Memory.cpp).  Ruby is
 an environment: it holds a bag of line addresses that were requested and not yet
 returned, is ready for some lines in a cycle, and returns lines from its bag.
 */
module MemorySystem {
  import opened Sequences

  const MSHR_SIZE := 10
  const LINE_SIZE := 64

  datatype Request = Request(isWrite: bool, nodeId: nat, vaddr: nat, isIssue: bool)

  /** Buffered requests, remaining credits, and the lines that Ruby holds. */
  datatype MemState = MemState(buffer: seq<Request>, credits: int, outstanding: multiset<nat>)

  const EMPTY_MEMORY := MemState([], MSHR_SIZE, multiset{})

  function BaseAddr(addr: nat): nat
  {
    addr - addr % LINE_SIZE
  }

  // ---------- Issuing ----------

  predicate CanIssue(r: Request, ready: set<nat>)
  {
    BaseAddr(r.vaddr) in ready && !r.isIssue
  }

  /** The first request that can be issued, or the length of the buffer. */
  function FirstReady(b: seq<Request>, ready: set<nat>): (k: nat)
    ensures k <= |b| && (k < |b| ==> CanIssue(b[k], ready))
    ensures forall i :: 0 <= i < k ==> !CanIssue(b[i], ready)
  {
    if b == [] || CanIssue(b[0], ready) then 0 else 1 + FirstReady(b[1..], ready)
  }

  function Issued(m: MemState, k: nat): MemState
    requires k < |m.buffer|
  {
    MemState(m.buffer[k := m.buffer[k].(isIssue := true)], m.credits - 1,
             m.outstanding + multiset{BaseAddr(m.buffer[k].vaddr)})
  }

  /** At most one request is issued in a cycle, and none without a credit. */
  function Accessed(m: MemState, ready: set<nat>): MemState
  {
    var k := FirstReady(m.buffer, ready);
    if m.credits != 0 && k < |m.buffer| then Issued(m, k) else m
  }

  // ---------- Responses ----------

  predicate InLine(r: Request, addr: nat)
  {
    addr <= r.vaddr < addr + LINE_SIZE
  }

  /** The first buffered request in the line at `addr`, or the length of the buffer. */
  function SearchReq(b: seq<Request>, addr: nat): (k: nat)
    ensures k <= |b| && (k < |b| ==> InLine(b[k], addr))
    ensures forall i :: 0 <= i < k ==> !InLine(b[i], addr)
  {
    if b == [] || InLine(b[0], addr) then 0 else 1 + SearchReq(b[1..], addr)
  }

  /** Requests are compared without their issue flag. */
  predicate SameRequest(a: Request, b: Request)
  {
    a.isWrite == b.isWrite && a.nodeId == b.nodeId && a.vaddr == b.vaddr
  }

  function Without(b: seq<Request>, r: Request): seq<Request>
  {
    if b == [] then [] else (if SameRequest(b[0], r) then [] else [b[0]]) + Without(b[1..], r)
  }

  /** A returned line hands its credit back and removes the request that it matches. */
  function Responded(m: MemState, addr: nat): MemState
  {
    var k := SearchReq(m.buffer, addr);
    MemState(if k < |m.buffer| then Without(m.buffer, m.buffer[k]) else m.buffer,
             m.credits + 1, m.outstanding - multiset{addr})
  }

  /** The node id of the request that a returned line matches. */
  function AnsweredOne(m: MemState, addr: nat): seq<nat>
  {
    var k := SearchReq(m.buffer, addr);
    if k < |m.buffer| then [m.buffer[k].nodeId] else []
  }

  /** The node ids of the requests that the returned lines match, in order. */
  function Answered(m: MemState, responses: seq<nat>): seq<nat>
    decreases |responses|
  {
    if responses == [] then [] else AnsweredOne(m, responses[0]) + Answered(Responded(m, responses[0]), responses[1..])
  }

  function Processed(m: MemState, responses: seq<nat>): MemState
    decreases |responses|
  {
    if responses == [] then m else Processed(Responded(m, responses[0]), responses[1..])
  }

  function Buffered(m: MemState, isWrite: bool, nodeId: nat, vaddr: nat): MemState
  {
    m.(buffer := m.buffer + [Request(isWrite, nodeId, vaddr, false)])
  }

  // ---------- The invariant ----------

  ghost function IssuedLines(b: seq<Request>): multiset<nat>
  {
    if b == [] then multiset{}
    else (if b[0].isIssue then multiset{BaseAddr(b[0].vaddr)} else multiset{}) + IssuedLines(b[1..])
  }

  ghost predicate DistinctIds(b: seq<Request>)
  {
    forall i, j :: 0 <= i < j < |b| ==> b[i].nodeId != b[j].nodeId
  }

  /** Among the requests to one line, the issued ones come first. */
  ghost predicate IssuedFirst(b: seq<Request>)
  {
    forall i, j :: 0 <= i < j < |b| && BaseAddr(b[i].vaddr) == BaseAddr(b[j].vaddr) && b[j].isIssue ==> b[i].isIssue
  }

  ghost function Ids(b: seq<Request>): set<nat>
  {
    set r | r in b :: r.nodeId
  }

  /** Credits and issued requests add up, and Ruby holds exactly the lines of the issued requests. */
  ghost predicate MemOk(m: MemState)
  {
    && m.credits >= 0
    && m.credits + |m.outstanding| == MSHR_SIZE
    && m.outstanding == IssuedLines(m.buffer)
    && DistinctIds(m.buffer)
    && IssuedFirst(m.buffer)
  }

  /** Lines are 64 bytes: a returned line finds the requests whose addresses agree with it above the lowest six bits. */
  lemma LinesAre64Bytes(r: Request, addr: nat)
    ensures BaseAddr(addr) % 64 == 0 && BaseAddr(addr) / 64 == addr / 64
    ensures InLine(r, BaseAddr(addr)) <==> r.vaddr / 64 == addr / 64
  {
    assert addr == 64 * (addr / 64) + addr % 64 && r.vaddr == 64 * (r.vaddr / 64) + r.vaddr % 64;
  }

  /** At most ten requests are with Ruby at a time, and all ten credits are there when none is. */
  lemma TenAtATime(m: MemState)
    requires MemOk(m)
    ensures |m.outstanding| <= 10 && (m.outstanding == multiset{} <==> m.credits == 10)
  {
  }

  lemma {:induction false} IssuedLinesConcat(a: seq<Request>, b: seq<Request>)
    ensures IssuedLines(a + b) == IssuedLines(a) + IssuedLines(b)
  {
    if a == [] {
      assert a + b == b;
    } else {
      var c := a + b;
      IssuedLinesConcat(a[1..], b);
      assert c[0] == a[0] && c[1..] == a[1..] + b;
    }
  }

  /** A held line belongs to an issued request. */
  lemma {:induction false} HeldLine(b: seq<Request>, addr: nat) returns (k: nat)
    requires addr in IssuedLines(b)
    ensures k < |b| && b[k].isIssue && BaseAddr(b[k].vaddr) == addr
  {
    if b[0].isIssue && BaseAddr(b[0].vaddr) == addr {
      k := 0;
    } else {
      k := HeldLine(b[1..], addr);
      k := k + 1;
    }
  }

  lemma IssuedLinesUpdate(b: seq<Request>, k: nat)
    requires k < |b| && !b[k].isIssue
    ensures IssuedLines(b[k := b[k].(isIssue := true)]) == IssuedLines(b) + multiset{BaseAddr(b[k].vaddr)}
  {
    var r := b[k].(isIssue := true);
    assert b == b[..k] + ([b[k]] + b[k + 1..]);
    assert b[k := r] == b[..k] + ([r] + b[k + 1..]);
    IssuedLinesConcat(b[..k], [b[k]] + b[k + 1..]);
    IssuedLinesConcat(b[..k], [r] + b[k + 1..]);
  }

  lemma IssuedLinesRemove(b: seq<Request>, k: nat)
    requires k < |b| && b[k].isIssue
    ensures IssuedLines(b) == IssuedLines(b[..k] + b[k + 1..]) + multiset{BaseAddr(b[k].vaddr)}
  {
    assert b == b[..k] + ([b[k]] + b[k + 1..]);
    IssuedLinesConcat(b[..k], [b[k]] + b[k + 1..]);
    IssuedLinesConcat(b[..k], b[k + 1..]);
  }

  lemma BufferedIds(m: MemState, isWrite: bool, nodeId: nat, vaddr: nat)
    ensures Ids(Buffered(m, isWrite, nodeId, vaddr).buffer) == Ids(m.buffer) + {nodeId}
  {
    var r := Request(isWrite, nodeId, vaddr, false);
    IdsConcat(m.buffer, [r]);
    assert Ids([r]) == {nodeId} by {
      assert r in [r];
    }
  }

  lemma BufferedOrder(b: seq<Request>, r: Request)
    requires DistinctIds(b) && IssuedFirst(b) && !r.isIssue && r.nodeId !in Ids(b)
    ensures DistinctIds(b + [r]) && IssuedFirst(b + [r])
  {
    assert forall i :: 0 <= i < |b| ==> b[i].nodeId in Ids(b);
  }

  lemma BufferedKeeps(m: MemState, isWrite: bool, nodeId: nat, vaddr: nat)
    requires MemOk(m) && nodeId !in Ids(m.buffer)
    ensures MemOk(Buffered(m, isWrite, nodeId, vaddr))
    ensures Ids(Buffered(m, isWrite, nodeId, vaddr).buffer) == Ids(m.buffer) + {nodeId}
  {
    var r := Request(isWrite, nodeId, vaddr, false);
    BufferedOrder(m.buffer, r);
    IssuedLinesConcat(m.buffer, [r]);
    BufferedIds(m, isWrite, nodeId, vaddr);
  }

  lemma IdsConcat(a: seq<Request>, b: seq<Request>)
    ensures Ids(a + b) == Ids(a) + Ids(b)
  {
    forall r | r in a || r in b
      ensures r.nodeId in Ids(a + b)
    {
      assert r in a + b;
    }
  }

  lemma AccessedKeeps(m: MemState, ready: set<nat>)
    requires MemOk(m)
    ensures MemOk(Accessed(m, ready))
    ensures Ids(Accessed(m, ready).buffer) == Ids(m.buffer)
  {
    var k := FirstReady(m.buffer, ready);
    if m.credits != 0 && k < |m.buffer| {
      var b, c := m.buffer, Accessed(m, ready).buffer;
      IssuedLinesUpdate(b, k);
      SameIds(b, c);
      IssueKeepsOrder(b, k, ready);
    }
  }

  lemma IssueKeepsOrder(b: seq<Request>, k: nat, ready: set<nat>)
    requires DistinctIds(b) && IssuedFirst(b) && k == FirstReady(b, ready) < |b|
    ensures DistinctIds(b[k := b[k].(isIssue := true)]) && IssuedFirst(b[k := b[k].(isIssue := true)])
  {
  }

  lemma SameIds(a: seq<Request>, b: seq<Request>)
    requires |a| == |b| && forall i :: 0 <= i < |a| ==> a[i].nodeId == b[i].nodeId
    ensures Ids(a) == Ids(b)
  {
    forall x | x in Ids(a)
      ensures x in Ids(b)
    {
      var i :| 0 <= i < |a| && a[i].nodeId == x;
      assert b[i] in b;
    }
    forall x | x in Ids(b)
      ensures x in Ids(a)
    {
      var i :| 0 <= i < |b| && b[i].nodeId == x;
      assert a[i] in a;
    }
  }

  lemma {:induction false} WithoutOne(b: seq<Request>, k: nat)
    requires k < |b| && DistinctIds(b)
    ensures Without(b, b[k]) == b[..k] + b[k + 1..]
  {
    if k == 0 {
      WithoutNone(b[1..], b[0]);
      assert Without(b, b[0]) == Without(b[1..], b[0]);
    } else {
      WithoutOne(b[1..], k - 1);
      assert b[1..][..k - 1] == b[..k][1..] && b[1..][k..] == b[k + 1..];
      assert [b[0]] + b[..k][1..] == b[..k];
    }
  }

  lemma {:induction false} WithoutNone(b: seq<Request>, r: Request)
    requires forall i :: 0 <= i < |b| ==> b[i].nodeId != r.nodeId
    ensures Without(b, r) == b
  {
    if b != [] {
      WithoutNone(b[1..], r);
    }
  }

  lemma SameLine(r: Request, addr: nat)
    requires addr % LINE_SIZE == 0
    ensures InLine(r, addr) <==> BaseAddr(r.vaddr) == addr
  {
  }

  lemma OfOneLine(b: seq<Request>, k: nat, h: nat, addr: nat)
    requires IssuedFirst(b) && k <= h < |b| && b[h].isIssue
    requires BaseAddr(b[k].vaddr) == addr && BaseAddr(b[h].vaddr) == addr
    ensures b[k].isIssue
  {
  }

  /** A returned line always finds a request, the request it finds was issued, and exactly that request goes. */
  lemma ResponseMatchesIssued(m: MemState, addr: nat)
    requires MemOk(m) && addr in m.outstanding
    ensures var k := SearchReq(m.buffer, addr);
            && k < |m.buffer| && m.buffer[k].isIssue && BaseAddr(m.buffer[k].vaddr) == addr
            && Responded(m, addr).buffer == m.buffer[..k] + m.buffer[k + 1..]
  {
    var b := m.buffer;
    var h := HeldLine(b, addr);
    SameLine(b[h], addr);
    var k := SearchReq(b, addr);
    SameLine(b[k], addr);
    OfOneLine(b, k, h, addr);
    WithoutOne(b, k);
  }

  lemma RemoveKeepsOrder(b: seq<Request>, k: nat)
    requires DistinctIds(b) && IssuedFirst(b) && k < |b|
    ensures DistinctIds(b[..k] + b[k + 1..]) && IssuedFirst(b[..k] + b[k + 1..])
  {
    var c := b[..k] + b[k + 1..];
    assert forall i :: 0 <= i < |c| ==> c[i] == b[if i < k then i else i + 1];
  }

  lemma RemoveId(b: seq<Request>, k: nat)
    requires DistinctIds(b) && k < |b|
    ensures Ids(b[..k] + b[k + 1..]) == Ids(b) - {b[k].nodeId}
  {
    var c := b[..k] + b[k + 1..];
    assert b == b[..k] + ([b[k]] + b[k + 1..]);
    IdsConcat(b[..k], [b[k]] + b[k + 1..]);
    IdsConcat([b[k]], b[k + 1..]);
    IdsConcat(b[..k], b[k + 1..]);
    assert b[k] in [b[k]];
    forall r | r in c
      ensures r.nodeId != b[k].nodeId
    {
      var i :| 0 <= i < |c| && c[i] == r;
      assert c[i] == b[if i < k then i else i + 1];
    }
  }

  lemma RespondedOk(m: MemState, addr: nat)
    requires MemOk(m) && addr in m.outstanding
    ensures MemOk(Responded(m, addr))
  {
    ResponseMatchesIssued(m, addr);
    var k := SearchReq(m.buffer, addr);
    IssuedLinesRemove(m.buffer, k);
    RemoveKeepsOrder(m.buffer, k);
  }

  lemma RespondedKeeps(m: MemState, addr: nat)
    requires MemOk(m) && addr in m.outstanding
    ensures MemOk(Responded(m, addr))
    ensures var k := SearchReq(m.buffer, addr);
            && k < |m.buffer| && m.buffer[k].nodeId in Ids(m.buffer)
            && Ids(Responded(m, addr).buffer) == Ids(m.buffer) - {m.buffer[k].nodeId}
  {
    RespondedOk(m, addr);
    ResponseMatchesIssued(m, addr);
    var k := SearchReq(m.buffer, addr);
    RemoveId(m.buffer, k);
    assert m.buffer[k] in m.buffer;
  }

  ghost predicate OnlyAnswered(before: MemState, after: MemState, answered: seq<nat>)
  {
    && NoRepeats(answered)
    && (forall x :: x in answered ==> x !in Ids(after.buffer))
    && Ids(before.buffer) == Ids(after.buffer) + (set x | x in answered)
    && after.credits == before.credits + |answered|
  }

  lemma AnsweredMore(before: MemState, mid: MemState, after: MemState, id: nat, answered: seq<nat>)
    requires OnlyAnswered(mid, after, answered)
    requires id in Ids(before.buffer) && Ids(mid.buffer) == Ids(before.buffer) - {id} && mid.credits == before.credits + 1
    ensures OnlyAnswered(before, after, [id] + answered)
  {
    assert forall x :: x in answered ==> x in Ids(mid.buffer);
    assert (set x | x in [id] + answered) == {id} + (set x | x in answered);
  }

  /** Each of the returned lines removes one issued request; the answered nodes are exactly the removed ones. */
  lemma {:induction false} ProcessedKeeps(m: MemState, responses: seq<nat>)
    requires MemOk(m) && multiset(responses) <= m.outstanding
    ensures MemOk(Processed(m, responses)) && |Answered(m, responses)| == |responses|
    ensures OnlyAnswered(m, Processed(m, responses), Answered(m, responses))
    decreases |responses|
  {
    if responses != [] {
      var addr, rest := responses[0], responses[1..];
      FirstResponse(m, responses);
      RespondedKeeps(m, addr);
      var mid := Responded(m, addr);
      ProcessedKeeps(mid, rest);
      AnsweredMore(m, mid, Processed(mid, rest), m.buffer[SearchReq(m.buffer, addr)].nodeId, Answered(mid, rest));
    }
  }

  lemma FirstResponse(m: MemState, responses: seq<nat>)
    requires responses != [] && multiset(responses) <= m.outstanding
    ensures responses[0] in m.outstanding
    ensures multiset(responses[1..]) <= Responded(m, responses[0]).outstanding
  {
    assert responses == [responses[0]] + responses[1..];
    assert responses[0] in multiset(responses);
    assert multiset(responses) == multiset{responses[0]} + multiset(responses[1..]);
  }

  lemma AnsweredFirst(m: MemState, nodes: seq<nat>, id: nat, queue: seq<nat>)
    requires queue != [] && [id] == AnsweredOne(m, queue[0])
    ensures nodes + Answered(m, queue) == (nodes + [id]) + Answered(Responded(m, queue[0]), queue[1..])
  {
    assert Answered(m, queue) == [id] + Answered(Responded(m, queue[0]), queue[1..]);
  }

  // ---------- The memory object ----------

  class Memory {
    const addrMap: map<(nat, nat), (bool, nat)>
    var ldstAddrBuffer: seq<Request>
    var memReqStack: int
    ghost var outstanding: multiset<nat>

    ghost function View(): MemState
      reads this
    {
      MemState(ldstAddrBuffer, memReqStack, outstanding)
    }

    constructor (addrMap: map<(nat, nat), (bool, nat)>)
      ensures this.addrMap == addrMap && View() == EMPTY_MEMORY
    {
      this.addrMap := addrMap;
      ldstAddrBuffer, memReqStack, outstanding := [], MSHR_SIZE, multiset{};
    }

    /** Buffers the access of a node; the node must be in the memory map of the iteration. */
    method SendReq(iter: nat, nodeId: nat)
      requires (iter, nodeId) in addrMap
      modifies this
      ensures View() == Buffered(old(View()), addrMap[(iter, nodeId)].0, nodeId, addrMap[(iter, nodeId)].1)
    {
      var (isWrite, vaddr) := addrMap[(iter, nodeId)];
      ldstAddrBuffer := ldstAddrBuffer + [Request(isWrite, nodeId, vaddr, false)];
    }

    method Access(ready: set<nat>) returns (sent: bool)
      modifies this
      ensures View() == Accessed(old(View()), ready)
      ensures sent <==> old(memReqStack) != 0 && exists r :: r in old(ldstAddrBuffer) && CanIssue(r, ready)
    {
      if ldstAddrBuffer != [] && memReqStack != 0 {
        for k := 0 to |ldstAddrBuffer|
          invariant View() == old(View())
          invariant k <= FirstReady(ldstAddrBuffer, ready)
        {
          var r := ldstAddrBuffer[k];
          if BaseAddr(r.vaddr) in ready && !r.isIssue {
            assert r in ldstAddrBuffer;
            ldstAddrBuffer := ldstAddrBuffer[k := r.(isIssue := true)];
            memReqStack := memReqStack - 1;
            outstanding := outstanding + multiset{BaseAddr(r.vaddr)};
            return true;
          }
        }
      }
      return false;
    }

    method FindRequest(addr: nat) returns (k: nat)
      ensures k == SearchReq(ldstAddrBuffer, addr)
    {
      k := 0;
      while k < |ldstAddrBuffer|
        invariant k <= SearchReq(ldstAddrBuffer, addr)
      {
        var vaddr := ldstAddrBuffer[k].vaddr;
        if vaddr >= addr && vaddr < addr + LINE_SIZE {
          return;
        }
        k := k + 1;
      }
    }

    method Remove(r: Request)
      modifies this
      ensures View() == old(View()).(buffer := Without(old(ldstAddrBuffer), r))
    {
      var kept: seq<Request> := [];
      for k := 0 to |ldstAddrBuffer|
        invariant Without(ldstAddrBuffer, r) == kept + Without(ldstAddrBuffer[k..], r)
      {
        assert ldstAddrBuffer[k..] == [ldstAddrBuffer[k]] + ldstAddrBuffer[k + 1..];
        if !SameRequest(ldstAddrBuffer[k], r) {
          kept := kept + [ldstAddrBuffer[k]];
        }
      }
      ldstAddrBuffer := kept;
    }

    /** One line from Ruby; it must match a buffered request. */
    method TakeResponse(addr: nat) returns (nodeId: nat)
      requires MemOk(View()) && addr in outstanding
      modifies this
      ensures View() == Responded(old(View()), addr) && MemOk(View())
      ensures [nodeId] == AnsweredOne(old(View()), addr)
    {
      RespondedKeeps(View(), addr);
      memReqStack := memReqStack + 1;
      var k := FindRequest(addr);
      var matching := ldstAddrBuffer[k];
      nodeId := matching.nodeId;
      Remove(matching);
      outstanding := outstanding - multiset{addr};
    }

    /** All lines that Ruby returns in a cycle. */
    method ProcessMshr(responses: seq<nat>) returns (nodes: seq<nat>)
      requires MemOk(View()) && multiset(responses) <= outstanding
      modifies this
      ensures View() == Processed(old(View()), responses)
      ensures nodes == Answered(old(View()), responses)
      ensures MemOk(View())
    {
      nodes := [];
      var queue := responses;
      ghost var start, now := View(), View();
      while queue != []
        invariant View() == now && MemOk(now) && multiset(queue) <= now.outstanding
        invariant Processed(now, queue) == Processed(start, responses)
        invariant nodes + Answered(now, queue) == Answered(start, responses)
        decreases |queue|
      {
        FirstResponse(now, queue);
        var nodeId := TakeResponse(queue[0]);
        AnsweredFirst(now, nodes, nodeId, queue);
        now, nodes, queue := Responded(now, queue[0]), nodes + [nodeId], queue[1..];
      }
    }

    method RecvResp(ready: set<nat>, responses: seq<nat>) returns (nodes: seq<nat>)
      requires MemOk(View()) && multiset(responses) <= Accessed(View(), ready).outstanding
      modifies this
      ensures View() == Processed(Accessed(old(View()), ready), responses)
      ensures nodes == Answered(Accessed(old(View()), ready), responses)
      ensures MemOk(View())
    {
      AccessedKeeps(View(), ready);
      var _ := Access(ready);
      nodes := ProcessMshr(responses);
    }
  }
}
