/**
 Merging chains tail to front under the loop check (src/newGraph.cpp, mergeChain
 and the loop that repeats it).
 */
module Merging {
  import opened Sequences
  import opened Digraph
  import opened Chains
  import opened ChainSteps
  import opened LoopCheck

  /** Every vertex can be reached from `root`, which has no in-edges. */
  ghost predicate Rooted(g: Graph, root: nat)
  {
    && (forall v: nat :: v < |g.out| ==> Reaches(GraphEdges(g), root, v))
    && (forall u: nat :: !HasEdge(g, u, root))
  }

  /** Chain 0 starts with the root. */
  ghost predicate RootFirst(chains: seq<seq<nat>>, root: nat)
  {
    |chains| > 0 && chains[0] != [] && chains[0][0] == root
  }

  ghost predicate Pair(chains: seq<seq<nat>>, i: nat, t: nat)
  {
    i < |chains| && t < |chains| && i != t
  }

  /** Chain `t` is appended to chain `i` and its own slot erased. */
  function Merge(chains: seq<seq<nat>>, i: nat, t: nat): seq<seq<nat>>
    requires Pair(chains, i, t)
  {
    var m := chains[i := chains[i] + chains[t]];
    m[..t] + m[t + 1..]
  }

  /** The last vertex of chain `i` has an edge to the first vertex of chain `t`. */
  ghost predicate Candidate(g: Graph, chains: seq<seq<nat>>, i: nat, t: nat)
  {
    && Pair(chains, i, t) && 1 <= i && chains[i] != [] && chains[t] != []
    && HasEdge(g, chains[i][|chains[i]| - 1], chains[t][0])
  }

  /** Besides the direct dependency, chain `i` leads to chain `t` through other chains. */
  ghost predicate SecondPath(g: Graph, chains: seq<seq<nat>>, i: nat, t: nat)
  {
    exists k: nat :: k >= 2 && Walk(ChainEdges(g, chains), i, t, k)
  }

  /** Where old chain `x` is found after the merge. */
  function Place(i: nat, t: nat, x: nat): nat
    requires i != t
  {
    var y := if x == t then i else x;
    if y < t then y else y - 1
  }

  function Unplace(t: nat, a: nat): nat
  {
    if a < t then a else a + 1
  }

  lemma MergeMembers(chains: seq<seq<nat>>, i: nat, t: nat, a: nat, v: nat)
    requires Pair(chains, i, t) && a < |chains| - 1
    ensures |Merge(chains, i, t)| == |chains| - 1
    ensures Place(i, t, Unplace(t, a)) == a && Unplace(t, a) < |chains| && Unplace(t, a) != t
    ensures Merge(chains, i, t)[a] == if Unplace(t, a) == i then chains[i] + chains[t] else chains[Unplace(t, a)]
    ensures v in Merge(chains, i, t)[a] <==>
            v in chains[Unplace(t, a)] || (Unplace(t, a) == i && v in chains[t])
  {
  }

  lemma MergePartition(g: Graph, chains: seq<seq<nat>>, i: nat, t: nat)
    requires Partition(g, chains) && Pair(chains, i, t)
    ensures Partition(g, Merge(chains, i, t))
  {
    var m := Merge(chains, i, t);
    forall a | 0 <= a < |m|
      ensures m[a] != [] && NoRepeats(m[a])
    {
      MergeMembers(chains, i, t, a, 0);
      if Unplace(t, a) == i {
        JoinNoRepeats(chains[i], chains[t]);
      }
    }
    forall a, b, v | 0 <= a < |m| && 0 <= b < |m| && v in m[a] && v in m[b]
      ensures a == b
    {
      MergeMembers(chains, i, t, a, v);
      MergeMembers(chains, i, t, b, v);
    }
    forall a, v | 0 <= a < |m| && v in m[a]
      ensures v < |g.out|
    {
      MergeMembers(chains, i, t, a, v);
    }
    forall v: nat | v < |g.out|
      ensures Chained(m, v)
    {
      assert Chained(chains, v);
      var x: nat :| x < |chains| && v in chains[x];
      MergeMembers(chains, i, t, Place(i, t, x), v);
      assert v in m[Place(i, t, x)];
    }
  }

  lemma JoinNoRepeats(a: seq<nat>, b: seq<nat>)
    requires NoRepeats(a) && NoRepeats(b)
    requires forall v :: v in a && v in b ==> false
    ensures NoRepeats(a + b)
  {
    forall x, y | 0 <= x < y < |a + b|
      ensures (a + b)[x] != (a + b)[y]
    {
      if x < |a| <= y {
        assert (a + b)[x] in a && (a + b)[y] in b;
      }
    }
  }

  lemma MergeForward(g: Graph, chains: seq<seq<nat>>, i: nat, t: nat)
    requires AllForward(g, chains) && Acyclic(ChainEdges(g, chains)) && Candidate(g, chains, i, t)
    ensures AllForward(g, Merge(chains, i, t))
  {
    var m := Merge(chains, i, t);
    forall a | 0 <= a < |m|
      ensures Forward(g, m[a])
    {
      MergeMembers(chains, i, t, a, 0);
      assert Forward(g, chains[Unplace(t, a)]) && Forward(g, chains[t]);
      if Unplace(t, a) == i {
        NoBackEdge(g, chains, i, t);
        JoinForward(g, chains[i], chains[t]);
      }
    }
  }

  lemma NoBackEdge(g: Graph, chains: seq<seq<nat>>, i: nat, t: nat)
    requires Acyclic(ChainEdges(g, chains)) && Candidate(g, chains, i, t)
    ensures (i, t) in ChainEdges(g, chains)
    ensures !Crosses(g, chains[t], chains[i])
  {
    var e := ChainEdges(g, chains);
    EdgeDepends(g, chains, i, t, chains[i][|chains[i]| - 1], chains[t][0]);
    if Crosses(g, chains[t], chains[i]) {
      assert Depends(g, chains, t, i);
      EdgeIsWalk(e, i, t);
      EdgeIsWalk(e, t, i);
      WalkAppend(e, i, t, i, 1, 1);
      assert Precedes(e, i, i);
    }
  }

  lemma JoinForward(g: Graph, a: seq<nat>, b: seq<nat>)
    requires Forward(g, a) && Forward(g, b) && !Crosses(g, b, a)
    ensures Forward(g, a + b)
  {
    var c := a + b;
    assert forall x, y :: 0 <= x < |b| && 0 <= y < |a| ==> !HasEdge(g, b[x], a[y]);
    forall x, y | 0 <= x < |c| && 0 <= y < |c| && HasEdge(g, c[x], c[y])
      ensures x < y
    {
      if x >= |a| && y >= |a| {
        assert HasEdge(g, b[x - |a|], b[y - |a|]);
      } else if x < |a| && y < |a| {
        assert HasEdge(g, a[x], a[y]);
      }
    }
  }

  // ---------- Acyclicity of the merged chain graph ----------

  /** The edges of the merged chain graph are the old ones between the new places. */
  lemma MergedEdge(g: Graph, chains: seq<seq<nat>>, i: nat, t: nat, x: nat, y: nat)
    requires Pair(chains, i, t) && (x, y) in ChainEdges(g, chains) && Place(i, t, x) != Place(i, t, y)
    ensures (Place(i, t, x), Place(i, t, y)) in ChainEdges(g, Merge(chains, i, t))
  {
    var u, v :| u in chains[x] && v in chains[y] && HasEdge(g, u, v);
    MergeMembers(chains, i, t, Place(i, t, x), u);
    MergeMembers(chains, i, t, Place(i, t, y), v);
    EdgeDepends(g, Merge(chains, i, t), Place(i, t, x), Place(i, t, y), u, v);
  }

  lemma UnmergedEdge(g: Graph, chains: seq<seq<nat>>, i: nat, t: nat, a: nat, b: nat) returns (x: nat, y: nat)
    requires Pair(chains, i, t) && (a, b) in ChainEdges(g, Merge(chains, i, t))
    ensures (x, y) in ChainEdges(g, chains) && Place(i, t, x) == a && Place(i, t, y) == b
    ensures x == Unplace(t, a) || (x == t && Unplace(t, a) == i)
    ensures y == Unplace(t, b) || (y == t && Unplace(t, b) == i)
  {
    var m := Merge(chains, i, t);
    ChainEdge(g, m, a, b);
    var u, v :| u in m[a] && v in m[b] && HasEdge(g, u, v);
    MergeMembers(chains, i, t, a, u);
    MergeMembers(chains, i, t, b, v);
    x := if u in chains[Unplace(t, a)] then Unplace(t, a) else t;
    y := if v in chains[Unplace(t, b)] then Unplace(t, b) else t;
    EdgeDepends(g, chains, x, y, u, v);
  }

  /** A walk from chain `i` to another chain survives the merge when it avoids `i` and `t` on its way. */
  lemma {:induction false} MergedWalk(g: Graph, chains: seq<seq<nat>>, i: nat, t: nat, y: nat, k: nat)
    requires Candidate(g, chains, i, t) && Acyclic(ChainEdges(g, chains))
    requires Walk(ChainEdges(g, chains), i, y, k) && y != t && !Precedes(ChainEdges(g, chains), t, y)
    ensures Walk(ChainEdges(g, Merge(chains, i, t)), Place(i, t, i), Place(i, t, y), k)
    decreases k
  {
    var e := ChainEdges(g, chains);
    if k > 0 {
      var z: nat :| Walk(e, i, z, k - 1) && (z, y) in e;
      if z == t {
        EdgeIsWalk(e, t, y);
      }
      if j: nat :| j > 0 && Walk(e, t, z, j) {
        assert Walk(e, t, y, j + 1);
      }
      MergedWalk(g, chains, i, t, z, k - 1);
      if y == i {
        assert Precedes(e, i, i);
      }
      ChainEdge(g, chains, z, y);
      if Place(i, t, z) == Place(i, t, y) {
        assert false;
      }
      MergedEdge(g, chains, i, t, z, y);
    }
  }

  lemma SecondPathCloses(g: Graph, chains: seq<seq<nat>>, i: nat, t: nat)
    requires Candidate(g, chains, i, t) && Acyclic(ChainEdges(g, chains)) && SecondPath(g, chains, i, t)
    ensures !Acyclic(ChainEdges(g, Merge(chains, i, t)))
  {
    var e, f := ChainEdges(g, chains), ChainEdges(g, Merge(chains, i, t));
    var k: nat :| k >= 2 && Walk(e, i, t, k);
    var z: nat :| Walk(e, i, z, k - 1) && (z, t) in e;
    if j: nat :| j > 0 && Walk(e, t, z, j) {
      assert Walk(e, t, t, j + 1);
      assert Precedes(e, t, t);
    }
    ChainEdge(g, chains, z, t);
    MergedWalk(g, chains, i, t, z, k - 1);
    if z == i {
      assert Precedes(e, i, i);
    }
    MergedEdge(g, chains, i, t, z, t);
    assert Walk(f, Place(i, t, i), Place(i, t, t), k);
    assert Precedes(f, Place(i, t, i), Place(i, t, i));
  }

  /** Chains that `i` leads to come after the merged chain, all others before it. */
  ghost function MergedValue(e: Edges, r: map<nat, nat>, i: nat, top: nat, x: nat): nat
  {
    var rx := if x in r then r[x] else 0;
    if x == i then top
    else if Precedes(e, i, x) then top + 1 + rx
    else rx
  }

  ghost function MergedRank(e: Edges, r: map<nat, nat>, i: nat, t: nat, top: nat, n: nat): map<nat, nat>
  {
    map a: nat | a < n :: MergedValue(e, r, i, top, Unplace(t, a))
  }

  lemma PrecedesEdge(e: Edges, i: nat, x: nat, y: nat)
    requires (x, y) in e && (x == i || Precedes(e, i, x))
    ensures Precedes(e, i, y)
  {
    if x == i {
      EdgeIsWalk(e, i, y);
    } else {
      var k: nat :| k > 0 && Walk(e, i, x, k);
      assert Walk(e, i, y, k + 1);
    }
  }

  lemma NoSecondPathRanks(g: Graph, chains: seq<seq<nat>>, i: nat, t: nat)
    requires Candidate(g, chains, i, t) && Acyclic(ChainEdges(g, chains)) && !SecondPath(g, chains, i, t)
    ensures Acyclic(ChainEdges(g, Merge(chains, i, t)))
  {
    var e, f := ChainEdges(g, chains), ChainEdges(g, Merge(chains, i, t));
    NoBackEdge(g, chains, i, t);
    AcyclicIffRanked(e);
    var r :| Ranked(e, r);
    var top := BoundedValues(r);
    var q := MergedRank(e, r, i, t, top, |chains| - 1);
    forall a, b | (a, b) in f
      ensures a in q && b in q && q[a] < q[b]
    {
      ChainEdge(g, Merge(chains, i, t), a, b);
      MergeMembers(chains, i, t, a, 0);
      MergeMembers(chains, i, t, b, 0);
      var x, y := UnmergedEdge(g, chains, i, t, a, b);
      RankStep(e, i, t, r, top, x, y);
    }
    assert Ranked(f, q);
    AcyclicIffRanked(f);
  }

  /** An old edge between different places goes up in the merged rank. */
  lemma RankStep(e: Edges, i: nat, t: nat, r: map<nat, nat>, top: nat, x: nat, y: nat)
    requires Acyclic(e) && Ranked(e, r) && (i, t) in e
    requires forall k: nat :: k >= 2 ==> !Walk(e, i, t, k)
    requires forall z :: z in r ==> r[z] < top
    requires (x, y) in e && (if x == t then i else x) != (if y == t then i else y)
    ensures MergedValue(e, r, i, top, if x == t then i else x) < MergedValue(e, r, i, top, if y == t then i else y)
  {
    EdgeIsWalk(e, i, t);
    if x == i || x == t || Precedes(e, i, x) {
      PrecedesEdge(e, i, x, y);
      if y == t {
        var k: nat :| k > 0 && Walk(e, i, x, k);
        assert Walk(e, i, t, k + 1);
      }
    }
  }

  /** The merged chain graph is acyclic exactly when there is no second path from `i` to `t`. */
  lemma MergeAcyclicIff(g: Graph, chains: seq<seq<nat>>, i: nat, t: nat)
    requires Candidate(g, chains, i, t) && Acyclic(ChainEdges(g, chains))
    ensures Acyclic(ChainEdges(g, Merge(chains, i, t))) <==> !SecondPath(g, chains, i, t)
  {
    if SecondPath(g, chains, i, t) {
      SecondPathCloses(g, chains, i, t);
    } else {
      NoSecondPathRanks(g, chains, i, t);
    }
  }

  // ---------- The loop check sees every cycle ----------

  lemma {:induction false} ChainOfReached(g: Graph, chains: seq<seq<nat>>, root: nat, v: nat, k: nat, x: nat)
    requires ValidGraph(g) && Partition(g, chains) && |chains| > 0 && root in chains[0]
    requires Walk(GraphEdges(g), root, v, k) && x < |chains| && v in chains[x]
    ensures Reaches(ChainEdges(g, chains), 0, x)
    decreases k
  {
    var e := ChainEdges(g, chains);
    if k == 0 {
      assert Walk(e, 0, 0, 0);
    } else {
      var u: nat :| Walk(GraphEdges(g), root, u, k - 1) && (u, v) in GraphEdges(g);
      assert HasEdge(g, u, v) && Chained(chains, u);
      var y: nat :| y < |chains| && u in chains[y];
      ChainOfReached(g, chains, root, u, k - 1, y);
      if y != x {
        EdgeDepends(g, chains, y, x, u, v);
        var j: nat :| Walk(e, 0, y, j);
        assert Walk(e, 0, x, j + 1);
      }
    }
  }

  lemma AllChainsReached(g: Graph, chains: seq<seq<nat>>, root: nat, x: nat)
    requires ValidGraph(g) && Partition(g, chains) && Rooted(g, root) && |chains| > 0 && root in chains[0]
    requires x < |chains|
    ensures Reaches(ChainEdges(g, chains), 0, x)
  {
    var v := chains[x][0];
    assert v in chains[x] && Reaches(GraphEdges(g), root, v);
    var k: nat :| Walk(GraphEdges(g), root, v, k);
    ChainOfReached(g, chains, root, v, k, x);
  }

  /** Started at chain 0, the loop check decides acyclicity of the whole chain graph. */
  lemma LoopCheckDecides(g: Graph, chains: seq<seq<nat>>, root: nat)
    requires ValidGraph(g) && Partition(g, chains) && Rooted(g, root) && |chains| > 0 && root in chains[0]
    ensures CycleReachable(ChainEdges(g, chains), 0) <==> !Acyclic(ChainEdges(g, chains))
  {
    var e := ChainEdges(g, chains);
    if !Acyclic(e) {
      var x: nat :| Precedes(e, x, x);
      var k: nat :| k > 0 && Walk(e, x, x, k);
      var y := WalkFirst(e, x, x, k);
      ChainEdge(g, chains, x, y);
      AllChainsReached(g, chains, root, x);
      assert CycleReachable(e, 0);
    }
  }

  // ---------- mergeChain ----------

  /** What a merge needs and keeps. */
  ghost predicate Chainable(g: Graph, chains: seq<seq<nat>>, root: nat)
  {
    ValidGraph(g) && Partition(g, chains) && Rooted(g, root) && RootFirst(chains, root)
  }

  /** The same with forward chains and an acyclic chain graph. */
  ghost predicate Mergeable(g: Graph, chains: seq<seq<nat>>, root: nat)
  {
    Chainable(g, chains, root) && WellChained(g, chains)
  }

  lemma MergeKeeps(g: Graph, chains: seq<seq<nat>>, root: nat, i: nat, t: nat)
    requires Chainable(g, chains, root) && Candidate(g, chains, i, t)
    ensures |Merge(chains, i, t)| == |chains| - 1 && t != 0
    ensures Chainable(g, Merge(chains, i, t), root) && root in Merge(chains, i, t)[0]
  {
    MergePartition(g, chains, i, t);
    MergeMembers(chains, i, t, 0, root);
  }

  /** With chain `t` appended to chain `i`, the chain graph has a cycle. */
  ghost predicate Loops(g: Graph, chains: seq<seq<nat>>, i: nat, t: nat)
    requires Pair(chains, i, t)
  {
    !Acyclic(ChainEdges(g, Merge(chains, i, t)))
  }

  lemma MergeKeepsOrder(g: Graph, chains: seq<seq<nat>>, i: nat, t: nat)
    requires WellChained(g, chains) && Candidate(g, chains, i, t) && !Loops(g, chains, i, t)
    ensures WellChained(g, Merge(chains, i, t))
  {
    MergePartition(g, chains, i, t);
    MergeForward(g, chains, i, t);
  }

  /** The loop check on the chains as they would be after a merge. */
  method ClosesLoop(g: Graph, chains: seq<seq<nat>>, i: nat, t: nat, ghost root: nat) returns (hasLoop: bool)
    requires Chainable(g, chains, root) && Candidate(g, chains, i, t)
    ensures hasLoop <==> Loops(g, chains, i, t)
  {
    MergeKeeps(g, chains, root, i, t);
    var trial := Merge(chains, i, t);
    var dependencies := UniqueDependencies(g, trial);
    var path: seq<nat> := [0];
    assert Walk(MapEdges(dependencies), 0, 0, 0);
    var found, _ := CheckLoopComplete(0, dependencies, path);
    hasLoop := found;
    LoopCheckDecides(g, trial, root);
  }

  /** Every candidate merge of a chain before `i` loops. */
  ghost predicate TriedBefore(g: Graph, chains: seq<seq<nat>>, i: nat)
  {
    forall j: nat, t: nat :: j < i && Candidate(g, chains, j, t) ==> Loops(g, chains, j, t)
  }

  /** Every candidate merge of chain `i` with a chain that one of `targets` begins loops. */
  ghost predicate TriedTargets(g: Graph, chains: seq<seq<nat>>, i: nat, targets: seq<nat>)
  {
    forall t: nat :: Candidate(g, chains, i, t) && chains[t][0] in targets ==> Loops(g, chains, i, t)
  }

  lemma TriedNext(g: Graph, chains: seq<seq<nat>>, i: nat, out: seq<nat>, n: nat, t: nat)
    requires Partition(g, chains) && n < |out| && TriedTargets(g, chains, i, out[..n])
    requires t < |chains| && out[n] in chains[t] && (Candidate(g, chains, i, t) && chains[t][0] == out[n] ==>
                                                       Loops(g, chains, i, t))
    ensures TriedTargets(g, chains, i, out[..n + 1])
  {
    assert out[..n + 1] == out[..n] + [out[n]];
    forall s: nat | Candidate(g, chains, i, s) && chains[s][0] in out[..n + 1]
      ensures Loops(g, chains, i, s)
    {
      if chains[s][0] == out[n] {
        assert chains[s][0] in chains[s];
      }
    }
  }

  lemma TriedAll(g: Graph, chains: seq<seq<nat>>, i: nat)
    requires i < |chains| && chains[i] != [] && chains[i][|chains[i]| - 1] < |g.out|
    requires TriedBefore(g, chains, i) && TriedTargets(g, chains, i, g.out[chains[i][|chains[i]| - 1]])
    ensures TriedBefore(g, chains, i + 1)
  {
  }

  /**
   The first candidate merge that does not loop: all candidate merges of earlier chains, and
   those of chain `i` along earlier edges of its last vertex, loop.
   */
  ghost predicate FirstMerge(g: Graph, chains: seq<seq<nat>>, i: nat, t: nat)
  {
    && Candidate(g, chains, i, t) && !Loops(g, chains, i, t) && TriedBefore(g, chains, i)
    && var out := g.out[chains[i][|chains[i]| - 1]];
       exists n: nat :: n < |out| && out[n] == chains[t][0] && TriedTargets(g, chains, i, out[..n])
  }

  /** The first candidate merge that does not loop is made. */
  method MergeChain(g: Graph, chains: seq<seq<nat>>, ghost root: nat) returns (merged: bool, result: seq<seq<nat>>)
    requires Chainable(g, chains, root)
    ensures merged ==> exists i: nat, t: nat :: FirstMerge(g, chains, i, t) && result == Merge(chains, i, t)
    ensures !merged ==> result == chains && forall i: nat, t: nat ::
                          Candidate(g, chains, i, t) ==> Loops(g, chains, i, t)
  {
    var chainOf := VertexToChainMap(chains);
    for i := 1 to |chains|
      invariant TriedBefore(g, chains, i)
    {
      var node := chains[i][|chains[i]| - 1];
      assert node in chains[i];
      var out: seq<nat> := g.out[node];
      for n := 0 to |out|
        invariant TriedTargets(g, chains, i, out[..n])
      {
        assert HasEdge(g, node, out[n]) && Chained(chains, out[n]);
        var t := chainOf[out[n]];
        if t != i && chains[t][0] == out[n] {
          var hasLoop := ClosesLoop(g, chains, i, t, root);
          if !hasLoop {
            assert FirstMerge(g, chains, i, t);
            return true, Merge(chains, i, t);
          }
        }
        TriedNext(g, chains, i, out, n, t);
      }
      assert out[..|out|] == out;
      TriedAll(g, chains, i);
    }
    return false, chains;
  }

  lemma StepsStay(chains: seq<seq<nat>>, i: nat, t: nat, x: nat, u: nat, v: nat)
    requires Pair(chains, i, t) && chains[i] != [] && chains[t] != []
    requires x < |chains| && (u, v) in Steps(chains[x]) + {(chains[i][|chains[i]| - 1], chains[t][0])}
    ensures (u, v) in AllSteps(Merge(chains, i, t))
  {
    var all := Merge(chains, i, t);
    AllStepsOf(all, u, v);
    JoinedSteps(chains[i], chains[t], u, v);
    var y := if (u, v) in Steps(chains[x]) then x else i;
    MergeMembers(chains, i, t, Place(i, t, y), 0);
    assert (u, v) in Steps(all[Place(i, t, y)]);
  }

  lemma NoOtherSteps(chains: seq<seq<nat>>, i: nat, t: nat, u: nat, v: nat)
    requires Pair(chains, i, t) && chains[i] != [] && chains[t] != []
    requires (u, v) in AllSteps(Merge(chains, i, t))
    ensures (u, v) in AllSteps(chains) || (u == chains[i][|chains[i]| - 1] && v == chains[t][0])
  {
    var all := Merge(chains, i, t);
    AllStepsOf(all, u, v);
    AllStepsOf(chains, u, v);
    JoinedSteps(chains[i], chains[t], u, v);
    var a: nat :| a < |all| && (u, v) in Steps(all[a]);
    MergeMembers(chains, i, t, a, 0);
    assert Unplace(t, a) != i ==> (u, v) in Steps(chains[Unplace(t, a)]);
  }

  /** Joining two chains adds exactly the step between them. */
  lemma MergeSteps(chains: seq<seq<nat>>, i: nat, t: nat, u: nat, v: nat)
    requires Pair(chains, i, t) && chains[i] != [] && chains[t] != []
    ensures (u, v) in AllSteps(Merge(chains, i, t)) <==>
            (u, v) in AllSteps(chains) || (u == chains[i][|chains[i]| - 1] && v == chains[t][0])
  {
    AllStepsOf(chains, u, v);
    if x: nat :| x < |chains| && (u, v) in Steps(chains[x]) {
      StepsStay(chains, i, t, x, u, v);
    }
    if u == chains[i][|chains[i]| - 1] && v == chains[t][0] {
      StepsStay(chains, i, t, i, u, v);
    }
    if (u, v) in AllSteps(Merge(chains, i, t)) {
      NoOtherSteps(chains, i, t, u, v);
    }
  }

  /** The chains of `result` are those of `chains`, joined along edges. */
  ghost predicate JoinedUp(g: Graph, chains: seq<seq<nat>>, result: seq<seq<nat>>)
  {
    && (forall u: nat, v: nat :: (u, v) in AllSteps(chains) ==> (u, v) in AllSteps(result))
    && (forall u: nat, v: nat :: (u, v) in AllSteps(result) ==> (u, v) in AllSteps(chains) || HasEdge(g, u, v))
  }

  lemma JoinMore(g: Graph, chains: seq<seq<nat>>, before: seq<seq<nat>>, i: nat, t: nat)
    requires JoinedUp(g, chains, before) && Candidate(g, before, i, t)
    ensures JoinedUp(g, chains, Merge(before, i, t))
  {
    forall u: nat, v: nat
      ensures (u, v) in AllSteps(Merge(before, i, t)) <==>
              (u, v) in AllSteps(before) || (u == before[i][|before[i]| - 1] && v == before[t][0])
    {
      MergeSteps(before, i, t, u, v);
    }
  }

  /** One merge, the first that does not loop. */
  ghost predicate MergeRound(g: Graph, chains: seq<seq<nat>>, next: seq<seq<nat>>)
  {
    exists i: nat, t: nat :: FirstMerge(g, chains, i, t) && next == Merge(chains, i, t)
  }

  ghost predicate MergeTrace(g: Graph, trace: seq<seq<seq<nat>>>)
  {
    forall m: nat {:trigger Follows(trace, m)} :: Follows(trace, m) ==> MergeRound(g, trace[m], trace[m + 1])
  }

  lemma MergeTraceMore(g: Graph, trace: seq<seq<seq<nat>>>, result: seq<seq<nat>>)
    requires MergeTrace(g, trace) && trace != [] && MergeRound(g, trace[|trace| - 1], result)
    ensures MergeTrace(g, trace + [result])
  {
    var all := trace + [result];
    forall m: nat | Follows(all, m)
      ensures MergeRound(g, all[m], all[m + 1])
    {
      if m + 1 < |trace| {
        assert Follows(trace, m);
      }
    }
  }

  lemma MergeRoundKeeps(g: Graph, chains: seq<seq<nat>>, before: seq<seq<nat>>, after: seq<seq<nat>>, root: nat)
    requires Chainable(g, before, root) && JoinedUp(g, chains, before) && MergeRound(g, before, after)
    ensures Chainable(g, after, root) && JoinedUp(g, chains, after) && |after| + 1 == |before|
    ensures Acyclic(ChainEdges(g, after)) && (WellChained(g, before) ==> WellChained(g, after))
  {
    var i: nat, t: nat :| FirstMerge(g, before, i, t) && after == Merge(before, i, t);
    JoinMore(g, chains, before, i, t);
    MergeKeeps(g, before, root, i, t);
    if WellChained(g, before) {
      MergeKeepsOrder(g, before, i, t);
    }
  }

  /** Merging until nothing can be merged. */
  method MergeAll(g: Graph, chains: seq<seq<nat>>, ghost root: nat)
    returns (result: seq<seq<nat>>, merges: nat, ghost trace: seq<seq<seq<nat>>>)
    requires Chainable(g, chains, root)
    ensures Chainable(g, result, root)
    ensures WellChained(g, chains) ==> WellChained(g, result)
    ensures merges > 0 ==> Acyclic(ChainEdges(g, result))
    ensures |result| + merges == |chains| && JoinedUp(g, chains, result)
    ensures MergeTrace(g, trace) && FromTo(trace, chains, result, merges)
    ensures forall i: nat, t: nat :: Candidate(g, result, i, t) ==> Loops(g, result, i, t)
  {
    result, merges, trace := chains, 0, [chains];
    var merged := true;
    while merged
      invariant Chainable(g, result, root) && (WellChained(g, chains) ==> WellChained(g, result))
      invariant merges > 0 ==> Acyclic(ChainEdges(g, result))
      invariant |result| + merges == |chains| && JoinedUp(g, chains, result)
      invariant MergeTrace(g, trace) && FromTo(trace, chains, result, merges)
      invariant !merged ==> forall i: nat, t: nat :: Candidate(g, result, i, t) ==> Loops(g, result, i, t)
      decreases |result|, merged
    {
      ghost var before := result;
      merged, result := MergeChain(g, result, root);
      if merged {
        assert MergeRound(g, before, result);
        MergeRoundKeeps(g, chains, before, result, root);
        MergeTraceMore(g, trace, result);
        merges, trace := merges + 1, trace + [result];
      }
    }
  }
}
