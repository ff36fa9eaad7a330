/**
 The chain compiler from a first decomposition to checked chain dependencies
 (src/newGraph.cpp, initialize), and what its result is good for: whole chains can
 be run one after the other.
 */
module Compiler {
  import opened Sequences
  import opened Digraph
  import opened Chains
  import opened ChainSteps
  import opened Breaking
  import opened Merging
  import opened LoopCheck

  // ---------- Breaking the first chain after the root ----------

  ghost predicate NoEmptyChain(chains: seq<seq<nat>>)
  {
    forall i :: 0 <= i < |chains| ==> chains[i] != []
  }

  /**
   The vertices of chain 0 after the root become a chain of their own.  That chain
   is empty exactly when the root is the last of several vertices in chain 0.
   */
  method BreakingStartNode(chains: seq<seq<nat>>, root: nat) returns (result: seq<seq<nat>>)
    requires |chains| > 0
    ensures root in chains[0] && |chains[0]| > 1 ==>
              exists k: nat :: k < |chains[0]| && chains[0][k] == root && root !in chains[0][..k] &&
                               result == chains[0 := chains[0][..k + 1]] + [chains[0][k + 1..]]
    ensures root !in chains[0] || |chains[0]| <= 1 ==> result == chains
    ensures NoEmptyChain(chains) && NoRepeats(chains[0]) ==>
              (NoEmptyChain(result) <==> !(|chains[0]| > 1 && chains[0][|chains[0]| - 1] == root))
  {
    var first := chains[0];
    result := chains;
    if root in first && |first| > 1 {
      var k := IndexOf(first, root);
      result := chains[0 := first[..k + 1]] + [first[k + 1..]];
      assert result[|chains|] == first[k + 1..];
      assert forall i :: 0 <= i < |chains| && chains[i] != [] ==> result[i] != [];
    }
  }

  /** With the root in front, breaking after it is an ordinary split. */
  lemma StartNodeSplits(g: Graph, chains: seq<seq<nat>>, root: nat, result: seq<seq<nat>>)
    requires Chainable(g, chains, root)
    requires root in chains[0] && |chains[0]| > 1 ==>
               exists k: nat :: k < |chains[0]| && chains[0][k] == root &&
                                result == chains[0 := chains[0][..k + 1]] + [chains[0][k + 1..]]
    requires root !in chains[0] || |chains[0]| <= 1 ==> result == chains
    ensures Chainable(g, result, root) && result[0] == [root]
    ensures WellChained(g, chains) ==> WellChained(g, result)
    ensures result == if |chains[0]| > 1 then chains[0 := [root]] + [chains[0][1..]] else chains
  {
    if |chains[0]| > 1 {
      assert NoRepeats(chains[0]);
      assert result == Split(chains, 0, 1);
      SplitPartition(g, chains, 0, 1);
      if WellChained(g, chains) {
        SplitKeeps(g, chains, 0, 1);
      }
    }
  }

  // ---------- The whole pass ----------

  /** What a pass keeps. */
  ghost predicate Kept(g: Graph, root: nat, before: seq<seq<nat>>, after: seq<seq<nat>>)
  {
    Chainable(g, after, root) && (WellChained(g, before) ==> WellChained(g, after))
  }

  ghost predicate AfterLiveOuts(g: Graph, on: bool, before: seq<seq<nat>>, after: seq<seq<nat>>)
  {
    if on then
      CutAtLiveOuts(g, before, after) && exists trace, n: nat :: OutTrace(g, trace) && FromTo(trace, before, after, n)
    else after == before
  }

  ghost predicate AfterLiveIns(g: Graph, on: bool, before: seq<seq<nat>>, after: seq<seq<nat>>)
  {
    if on then
      CutAtLiveIns(g, before, after) && exists trace, n: nat :: InTrace(g, trace) && FromTo(trace, before, after, n)
    else after == before
  }

  ghost predicate AfterMerging(g: Graph, on: bool, before: seq<seq<nat>>, after: seq<seq<nat>>)
  {
    if on then
      && JoinedUp(g, before, after) && (forall i: nat, t: nat :: Candidate(g, after, i, t) ==> Loops(g, after, i, t))
      && exists trace, n: nat :: MergeTrace(g, trace) && FromTo(trace, before, after, n)
    else after == before
  }

  method StartPass(g: Graph, input: seq<seq<nat>>, root: nat) returns (result: seq<seq<nat>>)
    requires Chainable(g, input, root)
    ensures Kept(g, root, input, result)
    ensures result == if |input[0]| > 1 then input[0 := [root]] + [input[0][1..]] else input
  {
    result := BreakingStartNode(input, root);
    StartNodeSplits(g, input, root, result);
  }

  method LiveOutPass(g: Graph, chains: seq<seq<nat>>, ghost root: nat, on: bool) returns (result: seq<seq<nat>>)
    requires Chainable(g, chains, root)
    ensures Kept(g, root, chains, result) && AfterLiveOuts(g, on, chains, result)
  {
    result := chains;
    if on {
      var count;
      ghost var trace;
      result, count, trace := BreakEveryLiveOut(g, chains);
    }
  }

  method LiveInPass(g: Graph, chains: seq<seq<nat>>, ghost root: nat, on: bool) returns (result: seq<seq<nat>>)
    requires Chainable(g, chains, root)
    ensures Kept(g, root, chains, result) && AfterLiveIns(g, on, chains, result)
  {
    result := chains;
    if on {
      var count;
      ghost var trace;
      result, count, trace := BreakEveryLiveIn(g, chains);
    }
  }

  method MergePass(g: Graph, chains: seq<seq<nat>>, ghost root: nat, on: bool) returns (result: seq<seq<nat>>)
    requires Chainable(g, chains, root)
    ensures Kept(g, root, chains, result) && AfterMerging(g, on, chains, result)
  {
    result := chains;
    if on {
      var count;
      ghost var trace;
      result, count, trace := MergeAll(g, chains, root);
    }
  }

  /** The dependencies of the final chains, in both directions, and the loop check. */
  method FinalDependencies(g: Graph, chains: seq<seq<nat>>, ghost root: nat)
    returns (unique: map<nat, set<nat>>, reverse: map<nat, set<nat>>, hasLoop: bool)
    requires Chainable(g, chains, root)
    ensures MapEdges(unique) == ChainEdges(g, chains)
    ensures forall p, c :: c in reverse && p in reverse[c] <==> p in unique && c in unique[p]
    ensures hasLoop <==> !Acyclic(ChainEdges(g, chains))
  {
    unique := UniqueDependencies(g, chains);
    reverse := ReverseMapping(unique);
    var path: seq<nat> := [0];
    assert Walk(MapEdges(unique), 0, 0, 0);
    hasLoop, path := CheckLoopComplete(0, unique, path);
    assert chains[0][0] in chains[0];
    LoopCheckDecides(g, chains, root);
  }

  /**
   The passes in the order in which the compiler applies them, each but the first
   under a switch, followed by the construction of the dependencies and the loop check.
   The decomposition after each pass is handed out as well.
   */
  method Initialize(g: Graph, input: seq<seq<nat>>, root: nat, breakOut: bool, breakIn: bool, merge: bool)
    returns (chains: seq<seq<nat>>, unique: map<nat, set<nat>>, reverse: map<nat, set<nat>>, hasLoop: bool,
             ghost started: seq<seq<nat>>, ghost outs: seq<seq<nat>>, ghost ins: seq<seq<nat>>)
    requires Chainable(g, input, root)
    ensures started == if |input[0]| > 1 then input[0 := [root]] + [input[0][1..]] else input
    ensures AfterLiveOuts(g, breakOut, started, outs)
    ensures AfterLiveIns(g, breakIn, outs, ins)
    ensures AfterMerging(g, merge, ins, chains)
    ensures Kept(g, root, input, chains)
    ensures MapEdges(unique) == ChainEdges(g, chains)
    ensures forall p, c :: c in reverse && p in reverse[c] <==> p in unique && c in unique[p]
    ensures hasLoop <==> !Acyclic(ChainEdges(g, chains))
  {
    chains := StartPass(g, input, root);
    started := chains;
    chains := LiveOutPass(g, chains, root, breakOut);
    outs := chains;
    chains := LiveInPass(g, chains, root, breakIn);
    ins := chains;
    chains := MergePass(g, chains, root, merge);
    unique, reverse, hasLoop := FinalDependencies(g, chains, root);
  }

  // ---------- Running whole chains ----------

  /** The vertices in the order in which they run when chains run whole, one after the other. */
  function RunWhole(chains: seq<seq<nat>>, order: seq<nat>): seq<nat>
    requires forall k :: 0 <= k < |order| ==> order[k] < |chains|
  {
    if order == [] then [] else chains[order[0]] + RunWhole(chains, order[1..])
  }

  lemma {:induction false} RunWholeMembers(chains: seq<seq<nat>>, order: seq<nat>, v: nat)
    requires forall k :: 0 <= k < |order| ==> order[k] < |chains|
    ensures v in RunWhole(chains, order) <==> exists k :: 0 <= k < |order| && v in chains[order[k]]
  {
    if order != [] {
      RunWholeMembers(chains, order[1..], v);
      if k :| 0 <= k < |order[1..]| && v in chains[order[1..][k]] {
        assert v in chains[order[k + 1]];
      }
      if k :| 0 <= k < |order| && v in chains[order[k]] {
        if k > 0 {
          assert v in chains[order[1..][k - 1]];
        }
      }
    }
  }

  /** No chain comes before one that it depends on. */
  ghost predicate Respects(g: Graph, chains: seq<seq<nat>>, order: seq<nat>)
    requires forall k :: 0 <= k < |order| ==> order[k] < |chains|
  {
    forall a, b :: 0 <= a < b < |order| ==> !Depends(g, chains, order[b], order[a])
  }

  lemma {:induction false} RunWholeSuffix(g: Graph, chains: seq<seq<nat>>, order: seq<nat>)
    requires Partition(g, chains) && AllForward(g, chains) && NoRepeats(order)
    requires forall k :: 0 <= k < |order| ==> order[k] < |chains|
    requires Respects(g, chains, order)
    ensures NoRepeats(RunWhole(chains, order)) && Forward(g, RunWhole(chains, order))
  {
    if order != [] {
      var c, rest := chains[order[0]], RunWhole(chains, order[1..]);
      RunWholeSuffix(g, chains, order[1..]);
      forall v | v in rest
        ensures v !in c
      {
        RunWholeMembers(chains, order[1..], v);
      }
      JoinNoRepeats(c, rest);
      forall u, v | u in rest && v in c
        ensures !HasEdge(g, u, v)
      {
        RunWholeMembers(chains, order[1..], u);
        var k :| 0 <= k < |order[1..]| && u in chains[order[1..][k]];
        assert !Crosses(g, chains[order[k + 1]], c);
      }
      assert Forward(g, c);
      JoinForward(g, c, rest);
    }
  }

  /**
   Chains of a well-chained decomposition can be run whole: in any order of all
   chains that respects the dependencies, every vertex runs exactly once, and after
   all vertices that have an edge to it.
   */
  lemma WholeChainsRunInOrder(g: Graph, chains: seq<seq<nat>>, order: seq<nat>)
    requires Partition(g, chains) && AllForward(g, chains)
    requires NoRepeats(order) && forall c :: c in order <==> 0 <= c < |chains|
    requires forall k :: 0 <= k < |order| ==> order[k] < |chains|
    requires Respects(g, chains, order)
    ensures NoRepeats(RunWhole(chains, order))
    ensures forall v: nat :: v in RunWhole(chains, order) <==> v < |g.out|
    ensures Forward(g, RunWhole(chains, order))
  {
    RunWholeSuffix(g, chains, order);
    forall v: nat
      ensures v in RunWhole(chains, order) <==> v < |g.out|
    {
      RunWholeMembers(chains, order, v);
      if v < |g.out| {
        assert Chained(chains, v);
        var c: nat :| c < |chains| && v in chains[c];
        assert c in order;
      }
    }
  }
}
