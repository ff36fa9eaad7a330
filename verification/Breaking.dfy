/**
 Breaking chains at their live-outs and at their live-ins
 (src/newGraph.cpp, breakOutHelper, breakInHelper and the loops around them).
 */
module Breaking {
  import opened Sequences
  import opened Digraph
  import opened Chains
  import opened ChainSteps

  ghost predicate SplitPoint(chains: seq<seq<nat>>, i: nat, k: nat)
  {
    i < |chains| && 0 < k < |chains[i]|
  }

  /** Chain `i` keeps its first `k` vertices; the others become a new last chain. */
  ghost function Split(chains: seq<seq<nat>>, i: nat, k: nat): seq<seq<nat>>
    requires SplitPoint(chains, i, k)
  {
    chains[i := chains[i][..k]] + [chains[i][k..]]
  }

  /** The chain of the unsplit decomposition that chain `c` came from. */
  ghost function Origin(chains: seq<seq<nat>>, i: nat, c: nat): nat
  {
    if c == |chains| then i else c
  }

  lemma SplitMembers(chains: seq<seq<nat>>, i: nat, k: nat, c: nat, v: nat)
    requires SplitPoint(chains, i, k) && c < |Split(chains, i, k)|
    ensures v in Split(chains, i, k)[c] ==> v in chains[Origin(chains, i, c)]
    ensures v in chains[i] <==> v in chains[i][..k] || v in chains[i][k..]
  {
    assert chains[i] == chains[i][..k] + chains[i][k..];
  }

  lemma SplitPartition(g: Graph, chains: seq<seq<nat>>, i: nat, k: nat)
    requires Partition(g, chains) && SplitPoint(chains, i, k)
    ensures Partition(g, Split(chains, i, k))
  {
    var s := Split(chains, i, k);
    forall c, v | 0 <= c < |s| && v in s[c]
      ensures v < |g.out|
    {
      SplitMembers(chains, i, k, c, v);
    }
    forall c, d, v | 0 <= c < |s| && 0 <= d < |s| && v in s[c] && v in s[d]
      ensures c == d
    {
      SplitMembers(chains, i, k, c, v);
      SplitMembers(chains, i, k, d, v);
      HalvesDisjoint(chains[i], k, v);
    }
    forall v: nat | v < |g.out|
      ensures Chained(s, v)
    {
      assert Chained(chains, v);
      var c :| 0 <= c < |chains| && v in chains[c];
      if c == i {
        SplitMembers(chains, i, k, i, v);
        assert s[i] == chains[i][..k] && s[|chains|] == chains[i][k..];
      } else {
        assert v in s[c];
      }
    }
  }

  lemma HalvesDisjoint(c: seq<nat>, k: nat, v: nat)
    requires k <= |c| && NoRepeats(c)
    ensures !(v in c[..k] && v in c[k..])
  {
  }

  lemma SplitForward(g: Graph, chains: seq<seq<nat>>, i: nat, k: nat)
    requires AllForward(g, chains) && SplitPoint(chains, i, k)
    ensures AllForward(g, Split(chains, i, k))
  {
    var s := Split(chains, i, k);
    forall c | 0 <= c < |s|
      ensures Forward(g, s[c])
    {
      assert Forward(g, chains[Origin(chains, i, c)]);
      if c == |chains| {
        forall a, b | 0 <= a < |s[c]| && 0 <= b < |s[c]| && HasEdge(g, s[c][a], s[c][b])
          ensures a < b
        {
          assert s[c][a] == chains[i][a + k] && s[c][b] == chains[i][b + k];
        }
      }
    }
  }

  /** Twice the old rank, plus one for the new chain. */
  ghost function SplitRank(chains: seq<seq<nat>>, i: nat, r: map<nat, nat>): map<nat, nat>
  {
    map c | 0 <= c < |chains| + 1 ::
      2 * (if Origin(chains, i, c) in r then r[Origin(chains, i, c)] else 0) + (if c == |chains| then 1 else 0)
  }

  lemma SplitAcyclic(g: Graph, chains: seq<seq<nat>>, i: nat, k: nat)
    requires AllForward(g, chains) && SplitPoint(chains, i, k)
    requires Acyclic(ChainEdges(g, chains))
    ensures Acyclic(ChainEdges(g, Split(chains, i, k)))
  {
    var s := Split(chains, i, k);
    AcyclicIffRanked(ChainEdges(g, chains));
    var r :| Ranked(ChainEdges(g, chains), r);
    var q := SplitRank(chains, i, r);
    forall c, d | (c, d) in ChainEdges(g, s)
      ensures c in q && d in q && q[c] < q[d]
    {
      ChainEdge(g, s, c, d);
      var u, v :| u in s[c] && v in s[d] && HasEdge(g, u, v);
      SplitMembers(chains, i, k, c, u);
      SplitMembers(chains, i, k, d, v);
      var c0, d0 := Origin(chains, i, c), Origin(chains, i, d);
      if c0 == d0 {
        assert Forward(g, chains[i]);
        SplitEdgeUp(g, chains, i, k, c, d, u, v);
      } else {
        EdgeDepends(g, chains, c0, d0, u, v);
      }
    }
    assert Ranked(ChainEdges(g, s), q);
    AcyclicIffRanked(ChainEdges(g, s));
  }

  /** An edge between the two halves of a forward chain leaves the first half. */
  lemma SplitEdgeUp(g: Graph, chains: seq<seq<nat>>, i: nat, k: nat, c: nat, d: nat, u: nat, v: nat)
    requires SplitPoint(chains, i, k) && Forward(g, chains[i])
    requires c < |chains| + 1 && d < |chains| + 1 && c != d
    requires Origin(chains, i, c) == i == Origin(chains, i, d)
    requires u in Split(chains, i, k)[c] && v in Split(chains, i, k)[d] && HasEdge(g, u, v)
    ensures c == i && d == |chains|
  {
  }

  /** Splitting a chain keeps the exact partition, the order inside chains and acyclicity. */
  lemma SplitKeeps(g: Graph, chains: seq<seq<nat>>, i: nat, k: nat)
    requires WellChained(g, chains) && SplitPoint(chains, i, k)
    ensures WellChained(g, Split(chains, i, k))
    ensures |Split(chains, i, k)| == |chains| + 1
    ensures forall c :: 0 <= c < |chains| ==> Split(chains, i, k)[c] != [] && Split(chains, i, k)[c][0] == chains[c][0]
  {
    SplitPartition(g, chains, i, k);
    SplitForward(g, chains, i, k);
    SplitAcyclic(g, chains, i, k);
  }

  // ---------- Live-outs ----------

  ghost predicate LeavesLast(g: Graph, a: seq<nat>, b: seq<nat>)
  {
    forall u, v :: u in a && v in b && HasEdge(g, u, v) ==> u == a[|a| - 1]
  }

  /** Every edge between two chains leaves the last vertex of its chain. */
  ghost predicate LiveOutsLast(g: Graph, chains: seq<seq<nat>>)
  {
    forall i, j :: 0 <= i < |chains| && 0 <= j < |chains| && i != j ==> LeavesLast(g, chains[i], chains[j])
  }

  /** The vertex before the split point has an edge to another chain. */
  ghost predicate LiveOutAt(g: Graph, chains: seq<seq<nat>>, i: nat, k: nat)
    requires SplitPoint(chains, i, k)
  {
    exists j, v :: 0 <= j < |chains| && j != i && v in chains[j] && HasEdge(g, chains[i][k - 1], v)
  }

  ghost predicate Hits(g: Graph, u: nat, c: seq<nat>)
  {
    exists v :: v in c && HasEdge(g, u, v)
  }

  /**
   Entry `n` of the dependencies is the first between whose chains an edge leaves a vertex that is not
   the last of its chain, and `x` is the place of the first such vertex.
   */
  ghost predicate FirstOutAt(g: Graph, chains: seq<seq<nat>>, deps: seq<Dependency>, n: nat, x: nat)
  {
    && n < |deps| && deps[n].source < |chains| && deps[n].target < |chains| && deps[n].source != deps[n].target
    && (forall m :: 0 <= m < n ==> deps[m].source < |chains| && deps[m].target < |chains|
                                   && LeavesLast(g, chains[deps[m].source], chains[deps[m].target]))
    && var a, b := chains[deps[n].source], chains[deps[n].target];
       x + 1 < |a| && Hits(g, a[x], b) && forall y :: 0 <= y < x ==> !Hits(g, a[y], b)
  }

  lemma FirstOutIsLiveOut(g: Graph, chains: seq<seq<nat>>, deps: seq<Dependency>, n: nat, x: nat)
    requires FirstOutAt(g, chains, deps, n, x)
    ensures SplitPoint(chains, deps[n].source, x + 1) && LiveOutAt(g, chains, deps[n].source, x + 1)
  {
  }

  method BreakOutHelper(g: Graph, chains: seq<seq<nat>>, deps: seq<Dependency>)
    returns (broken: bool, result: seq<seq<nat>>, ghost n: nat, ghost x: nat)
    requires ValidGraph(g) && Partition(g, chains) && Lists(g, chains, deps)
    ensures broken ==> FirstOutAt(g, chains, deps, n, x) && SplitPoint(chains, deps[n].source, x + 1)
                       && result == Split(chains, deps[n].source, x + 1)
    ensures !broken ==> result == chains && LiveOutsLast(g, chains)
  {
    for k := 0 to |deps|
      invariant forall m :: 0 <= m < k ==> deps[m].source < |chains| && deps[m].target < |chains|
                                           && LeavesLast(g, chains[deps[m].source], chains[deps[m].target])
    {
      var dep := deps[k];
      assert Dependency(dep.source, dep.target) in deps;
      var a: seq<nat>, b: seq<nat> := chains[dep.source], chains[dep.target];
      for y := 0 to |a|
        invariant forall z :: 0 <= z < y && z < |a| - 1 ==> !Hits(g, a[z], b)
      {
        if a[y] == a[|a| - 1] {
          continue;
        }
        assert a[y] in chains[dep.source];
        var out: seq<nat> := g.out[a[y]];
        for t := 0 to |out|
          invariant forall q :: 0 <= q < t ==> out[q] !in b
        {
          if out[t] in b {
            assert HasEdge(g, a[y], out[t]);
            assert a == a[..y + 1] + a[y + 1..];
            return true, chains[dep.source := a[..y + 1]] + [a[y + 1..]], k, y;
          }
        }
      }
      NoneHits(g, a, b);
    }
    NoneLeaves(g, chains, deps);
    return false, chains, 0, 0;
  }

  lemma NoneHits(g: Graph, a: seq<nat>, b: seq<nat>)
    requires forall z :: 0 <= z < |a| - 1 ==> !Hits(g, a[z], b)
    ensures LeavesLast(g, a, b)
  {
    forall u, v | u in a && v in b && HasEdge(g, u, v)
      ensures u == a[|a| - 1]
    {
      var z :| 0 <= z < |a| && a[z] == u;
      assert Hits(g, a[z], b);
    }
  }

  lemma NoneLeaves(g: Graph, chains: seq<seq<nat>>, deps: seq<Dependency>)
    requires Lists(g, chains, deps)
    requires forall m :: 0 <= m < |deps| ==> deps[m].source < |chains| && deps[m].target < |chains|
                                             && LeavesLast(g, chains[deps[m].source], chains[deps[m].target])
    ensures LiveOutsLast(g, chains)
  {
    forall i: nat, j: nat | i < |chains| && j < |chains| && i != j
      ensures LeavesLast(g, chains[i], chains[j])
    {
      if Crosses(g, chains[i], chains[j]) {
        assert Depends(g, chains, i, j);
        assert Dependency(i, j) in deps;
      }
    }
  }

  /** One call of the helper that breaks a chain. */
  ghost predicate FirstOut(g: Graph, chains: seq<seq<nat>>, next: seq<seq<nat>>)
  {
    && (forall i :: 0 <= i < |chains| ==> InGraph(g, chains[i]))
    && var deps := ChainDeps(g, chains, Owners(chains), |chains|);
       exists n: nat, x: nat :: FirstOutAt(g, chains, deps, n, x) && SplitPoint(chains, deps[n].source, x + 1)
                                && next == Split(chains, deps[n].source, x + 1)
  }

  /** The decompositions of a trace follow each other by such calls. */
  ghost predicate OutTrace(g: Graph, trace: seq<seq<seq<nat>>>)
  {
    forall m: nat {:trigger Follows(trace, m)} :: Follows(trace, m) ==> FirstOut(g, trace[m], trace[m + 1])
  }

  /** Vertex `u` has an edge out of its chain. */
  ghost predicate LeavesChain(g: Graph, chains: seq<seq<nat>>, u: nat)
  {
    exists i: nat, w: nat :: i < |chains| && u in chains[i] && w !in chains[i] && HasEdge(g, u, w)
  }

  lemma SplitLeaves(g: Graph, chains: seq<seq<nat>>, i: nat, k: nat, u: nat)
    requires SplitPoint(chains, i, k) && LeavesChain(g, chains, u)
    ensures LeavesChain(g, Split(chains, i, k), u)
  {
    var s := Split(chains, i, k);
    var c: nat, w: nat :| c < |chains| && u in chains[c] && w !in chains[c] && HasEdge(g, u, w);
    SplitMembers(chains, i, k, i, u);
    var d := if c == i && u !in chains[i][..k] then |chains| else c;
    assert u in s[d];
    SplitMembers(chains, i, k, d, w);
  }

  /** A split takes away exactly the step at the split point. */
  lemma SplitSteps(chains: seq<seq<nat>>, i: nat, k: nat, u: nat, v: nat)
    requires SplitPoint(chains, i, k)
    ensures (u, v) in AllSteps(chains) <==>
            (u, v) in AllSteps(Split(chains, i, k)) || (u == chains[i][k - 1] && v == chains[i][k])
  {
    var s, a, b := Split(chains, i, k), chains[i][..k], chains[i][k..];
    AllStepsOf(s, u, v);
    AllStepsOf(chains, u, v);
    assert chains[i] == a + b && s[i] == a && s[|chains|] == b;
    JoinedSteps(a, b, u, v);
    if c :| 0 <= c < |chains| && (u, v) in Steps(chains[c]) {
      assert c != i ==> (u, v) in Steps(s[c]);
    }
    if c :| 0 <= c < |s| && (u, v) in Steps(s[c]) {
      assert c < |chains| && c != i ==> (u, v) in Steps(chains[c]);
    }
  }

  /** The steps of `now` are steps of `chains`; those that were cut leave their chain. */
  ghost predicate CutOutSoFar(g: Graph, chains: seq<seq<nat>>, now: seq<seq<nat>>)
  {
    && (forall u: nat, v: nat :: (u, v) in AllSteps(now) ==> (u, v) in AllSteps(chains))
    && (forall u: nat, v: nat :: (u, v) in AllSteps(chains) ==> (u, v) in AllSteps(now) || LeavesChain(g, now, u))
  }

  lemma CutOutMore(g: Graph, chains: seq<seq<nat>>, now: seq<seq<nat>>, i: nat, k: nat)
    requires Partition(g, now) && CutOutSoFar(g, chains, now) && SplitPoint(now, i, k) && LiveOutAt(g, now, i, k)
    ensures CutOutSoFar(g, chains, Split(now, i, k))
  {
    var j, w :| 0 <= j < |now| && j != i && w in now[j] && HasEdge(g, now[i][k - 1], w);
    assert now[i][k - 1] in now[i] && w !in now[i];
    assert LeavesChain(g, now, now[i][k - 1]);
    forall u: nat, v: nat
      ensures (u, v) in AllSteps(Split(now, i, k)) ==> (u, v) in AllSteps(chains)
      ensures (u, v) in AllSteps(chains) ==> (u, v) in AllSteps(Split(now, i, k)) || LeavesChain(g, Split(now, i, k), u)
    {
      SplitSteps(now, i, k, u, v);
      if LeavesChain(g, now, u) {
        SplitLeaves(g, now, i, k, u);
      }
    }
  }

  // ---------- No cut is unnecessary ----------

  /** If the steps of `fine` are steps of `now`, a chain of `fine` lies in one chain of `now`. */
  lemma {:induction false} WithFirst(g: Graph, now: seq<seq<nat>>, fine: seq<seq<nat>>, d: nat, k: nat, c: nat)
    requires Partition(g, now) && AllSteps(fine) <= AllSteps(now)
    requires d < |fine| && k < |fine[d]| && c < |now|
    ensures fine[d][k] in now[c] <==> fine[d][0] in now[c]
  {
    if k > 0 {
      WithFirst(g, now, fine, d, k - 1, c);
      var u, v := fine[d][k - 1], fine[d][k];
      StepsOf(fine[d], u, v);
      AllStepsOf(fine, u, v);
      var i, m := StepAt(now, u, v);
      assert u in now[i] && v in now[i];
    }
  }

  lemma StepsTogether(g: Graph, now: seq<seq<nat>>, fine: seq<seq<nat>>, d: nat, u: nat, v: nat, c: nat)
    requires Partition(g, now) && AllSteps(fine) <= AllSteps(now)
    requires d < |fine| && u in fine[d] && v in fine[d] && c < |now| && u in now[c]
    ensures v in now[c]
  {
    var a :| 0 <= a < |fine[d]| && fine[d][a] == u;
    var b :| 0 <= b < |fine[d]| && fine[d][b] == v;
    WithFirst(g, now, fine, d, a, c);
    WithFirst(g, now, fine, d, b, c);
  }

  /** Where the steps of a decomposition lead on, the vertex is not the last of its chain. */
  lemma StepNotLast(g: Graph, chains: seq<seq<nat>>, u: nat, v: nat) returns (i: nat)
    requires Partition(g, chains) && (u, v) in AllSteps(chains)
    ensures i < |chains| && u in chains[i] && v in chains[i] && u != chains[i][|chains[i]| - 1] && v != chains[i][0]
  {
    var k;
    i, k := StepAt(chains, u, v);
  }

  lemma LeavesOnlyLast(g: Graph, chains: seq<seq<nat>>, d: nat, e: nat, u: nat, w: nat)
    requires LiveOutsLast(g, chains) && d < |chains| && e < |chains| && d != e
    requires u in chains[d] && w in chains[e] && HasEdge(g, u, w)
    ensures u == chains[d][|chains[d]| - 1]
  {
    assert LeavesLast(g, chains[d], chains[e]);
  }

  /** A decomposition with live-outs at the ends only that is at least as fine has the cut as well. */
  lemma OutCutForced(g: Graph, now: seq<seq<nat>>, i: nat, k: nat, fine: seq<seq<nat>>)
    requires ValidGraph(g) && Partition(g, now) && SplitPoint(now, i, k) && LiveOutAt(g, now, i, k)
    requires Partition(g, fine) && LiveOutsLast(g, fine) && AllSteps(fine) <= AllSteps(now)
    ensures (now[i][k - 1], now[i][k]) !in AllSteps(fine)
  {
    var u, v := now[i][k - 1], now[i][k];
    if (u, v) in AllSteps(fine) {
      var d := StepNotLast(g, fine, u, v);
      var j, w :| 0 <= j < |now| && j != i && w in now[j] && HasEdge(g, u, w);
      assert Chained(fine, w) && u in now[i];
      var e :| 0 <= e < |fine| && w in fine[e];
      if e == d {
        StepsTogether(g, now, fine, d, u, w, i);
      } else {
        LeavesOnlyLast(g, fine, d, e, u, w);
      }
    }
  }

  lemma StepsAfterSplit(now: seq<seq<nat>>, i: nat, k: nat, fine: seq<seq<nat>>)
    requires SplitPoint(now, i, k) && AllSteps(fine) <= AllSteps(now)
    requires (now[i][k - 1], now[i][k]) !in AllSteps(fine)
    ensures AllSteps(fine) <= AllSteps(Split(now, i, k))
  {
    forall s | s in AllSteps(fine)
      ensures s in AllSteps(Split(now, i, k))
    {
      assert s == (s.0, s.1);
      SplitSteps(now, i, k, s.0, s.1);
    }
  }

  /** Of all decompositions along steps of `chains` with live-outs at the ends only, none keeps a step that `now` has not. */
  ghost predicate CoarsestOut(g: Graph, chains: seq<seq<nat>>, now: seq<seq<nat>>)
  {
    forall fine {:trigger LiveOutsLast(g, fine)} ::
      Partition(g, fine) && LiveOutsLast(g, fine) && AllSteps(fine) <= AllSteps(chains) ==> AllSteps(fine) <= AllSteps(now)
  }

  lemma CoarsestOutStays(g: Graph, chains: seq<seq<nat>>, now: seq<seq<nat>>, i: nat, k: nat)
    requires ValidGraph(g) && Partition(g, now) && SplitPoint(now, i, k) && LiveOutAt(g, now, i, k)
    requires CoarsestOut(g, chains, now)
    ensures CoarsestOut(g, chains, Split(now, i, k))
  {
    forall fine | Partition(g, fine) && LiveOutsLast(g, fine) && AllSteps(fine) <= AllSteps(chains)
      ensures AllSteps(fine) <= AllSteps(Split(now, i, k))
    {
      OutCutForced(g, now, i, k, fine);
      StepsAfterSplit(now, i, k, fine);
    }
  }

  /**
   `result` is `chains`, cut behind a vertex exactly when the vertex has an edge out of its chain of
   `result`, and it is the coarsest such decomposition.
   */
  ghost predicate CutAtLiveOuts(g: Graph, chains: seq<seq<nat>>, result: seq<seq<nat>>)
  {
    && Partition(g, result) && LiveOutsLast(g, result) && CoarsestOut(g, chains, result)
    && (forall u: nat, v: nat :: (u, v) in AllSteps(result) ==> (u, v) in AllSteps(chains))
    && (forall u: nat, v: nat :: (u, v) in AllSteps(chains) ==>
                                   ((u, v) in AllSteps(result) <==> !LeavesChain(g, result, u)))
  }

  lemma CutOutDone(g: Graph, chains: seq<seq<nat>>, result: seq<seq<nat>>)
    requires ValidGraph(g) && Partition(g, result) && LiveOutsLast(g, result)
    requires CutOutSoFar(g, chains, result) && CoarsestOut(g, chains, result)
    ensures CutAtLiveOuts(g, chains, result)
  {
    forall u: nat, v: nat | (u, v) in AllSteps(result)
      ensures !LeavesChain(g, result, u)
    {
      var i, k := StepAt(result, u, v);
      assert u in result[i] && u != result[i][|result[i]| - 1];
      if LeavesChain(g, result, u) {
        LeavesAtEnd(g, result, u, i);
      }
    }
  }

  lemma LeavesAtEnd(g: Graph, chains: seq<seq<nat>>, u: nat, i: nat)
    requires ValidGraph(g) && Partition(g, chains) && LiveOutsLast(g, chains) && LeavesChain(g, chains, u)
    requires i < |chains| && u in chains[i]
    ensures u == chains[i][|chains[i]| - 1]
  {
    var c: nat, w: nat :| c < |chains| && u in chains[c] && w !in chains[c] && HasEdge(g, u, w);
    assert Chained(chains, w);
    var d :| 0 <= d < |chains| && w in chains[d];
    assert LeavesLast(g, chains[c], chains[d]);
  }

  /** The chains keep their first vertices; new chains come after them. */
  ghost predicate SameFronts(chains: seq<seq<nat>>, now: seq<seq<nat>>)
  {
    |chains| <= |now| && forall c :: 0 <= c < |chains| ==>
                                       chains[c] != [] && now[c] != [] && now[c][0] == chains[c][0]
  }

  /** What holds while chains are broken at live-outs. */
  ghost predicate BreakingOut(g: Graph, chains: seq<seq<nat>>, now: seq<seq<nat>>, splits: nat)
  {
    && Partition(g, now) && (WellChained(g, chains) ==> WellChained(g, now))
    && |now| == |chains| + splits <= |g.out| && SameFronts(chains, now)
    && CutOutSoFar(g, chains, now) && CoarsestOut(g, chains, now)
  }

  lemma CutOutStep(g: Graph, chains: seq<seq<nat>>, before: seq<seq<nat>>, i: nat, k: nat)
    requires ValidGraph(g) && Partition(g, before) && CutOutSoFar(g, chains, before) && SameFronts(chains, before)
    requires SplitPoint(before, i, k) && LiveOutAt(g, before, i, k) && CoarsestOut(g, chains, before)
    ensures var after := Split(before, i, k);
            && Partition(g, after) && CutOutSoFar(g, chains, after) && SameFronts(chains, after)
            && CoarsestOut(g, chains, after)
            && |after| == |before| + 1 <= |g.out| && (WellChained(g, before) ==> WellChained(g, after))
  {
    SplitPartition(g, before, i, k);
    if WellChained(g, before) {
      SplitKeeps(g, before, i, k);
    }
    CutOutMore(g, chains, before, i, k);
    CoarsestOutStays(g, chains, before, i, k);
    NoMoreChainsThanVertices(g, Split(before, i, k));
  }

  lemma BreakingOutStep(g: Graph, chains: seq<seq<nat>>, now: seq<seq<nat>>, splits: nat, next: seq<seq<nat>>)
    requires ValidGraph(g) && BreakingOut(g, chains, now, splits) && FirstOut(g, now, next)
    ensures BreakingOut(g, chains, next, splits + 1)
  {
    var deps := ChainDeps(g, now, Owners(now), |now|);
    var n: nat, x: nat :|
      FirstOutAt(g, now, deps, n, x) && SplitPoint(now, deps[n].source, x + 1) && next == Split(now, deps[n].source, x + 1);
    FirstOutIsLiveOut(g, now, deps, n, x);
    CutOutStep(g, chains, now, deps[n].source, x + 1);
  }

  lemma {:induction false} OutTraceKeeps(g: Graph, trace: seq<seq<seq<nat>>>, n: nat)
    requires ValidGraph(g) && OutTrace(g, trace) && n < |trace| && Partition(g, trace[0])
    ensures BreakingOut(g, trace[0], trace[n], n)
  {
    if n == 0 {
      NoMoreChainsThanVertices(g, trace[0]);
    } else {
      OutTraceKeeps(g, trace, n - 1);
      assert Follows(trace, n - 1);
      BreakingOutStep(g, trace[0], trace[n - 1], n - 1, trace[n]);
    }
  }

  lemma OutBroken(g: Graph, now: seq<seq<nat>>, deps: seq<Dependency>, n: nat, x: nat)
    requires ValidGraph(g) && Partition(g, now) && forall i :: 0 <= i < |now| ==> InGraph(g, now[i])
    requires deps == ChainDeps(g, now, Owners(now), |now|) && FirstOutAt(g, now, deps, n, x)
    ensures SplitPoint(now, deps[n].source, x + 1)
    ensures var next := Split(now, deps[n].source, x + 1);
            FirstOut(g, now, next) && Partition(g, next) && |now| < |next| <= |g.out|
  {
    FirstOutIsLiveOut(g, now, deps, n, x);
    SplitPartition(g, now, deps[n].source, x + 1);
    NoMoreChainsThanVertices(g, Split(now, deps[n].source, x + 1));
  }

  /** One round of the loop: the dependencies are listed anew, and the first chain that needs it is broken. */
  method BreakOutOnce(g: Graph, chains: seq<seq<nat>>) returns (broken: bool, result: seq<seq<nat>>)
    requires ValidGraph(g) && Partition(g, chains)
    ensures broken ==> FirstOut(g, chains, result) && Partition(g, result) && |chains| < |result| <= |g.out|
    ensures !broken ==> result == chains && LiveOutsLast(g, chains)
  {
    var chainOf := VertexToChainMap(chains);
    AllMapped(g, chains, chainOf);
    var deps := DependenciesGenerate(g, chains, chainOf);
    ghost var n, x;
    broken, result, n, x := BreakOutHelper(g, chains, deps);
    if broken {
      OutBroken(g, chains, deps, n, x);
    }
  }

  lemma OutTraceMore(g: Graph, trace: seq<seq<seq<nat>>>, result: seq<seq<nat>>)
    requires OutTrace(g, trace) && trace != [] && FirstOut(g, trace[|trace| - 1], result)
    ensures OutTrace(g, trace + [result])
  {
    var all := trace + [result];
    forall m: nat | Follows(all, m)
      ensures FirstOut(g, all[m], all[m + 1])
    {
      if m + 1 < |trace| {
        assert Follows(trace, m);
      }
    }
  }

  lemma OutsDone(g: Graph, trace: seq<seq<seq<nat>>>, chains: seq<seq<nat>>, result: seq<seq<nat>>, splits: nat)
    requires ValidGraph(g) && Partition(g, chains) && OutTrace(g, trace) && FromTo(trace, chains, result, splits)
    requires LiveOutsLast(g, result)
    ensures WellChained(g, chains) ==> WellChained(g, result)
    ensures CutAtLiveOuts(g, chains, result) && SameFronts(chains, result)
    ensures |result| == |chains| + splits <= |g.out|
  {
    OutTraceKeeps(g, trace, splits);
    CutOutDone(g, chains, result);
  }

  method BreakEveryLiveOut(g: Graph, chains: seq<seq<nat>>)
    returns (result: seq<seq<nat>>, splits: nat, ghost trace: seq<seq<seq<nat>>>)
    requires ValidGraph(g) && Partition(g, chains)
    ensures WellChained(g, chains) ==> WellChained(g, result)
    ensures CutAtLiveOuts(g, chains, result) && OutTrace(g, trace) && FromTo(trace, chains, result, splits)
    ensures |result| == |chains| + splits <= |g.out|
    ensures SameFronts(chains, result)
  {
    result, splits, trace := chains, 0, [chains];
    NoMoreChainsThanVertices(g, result);
    var broken := true;
    while broken
      invariant Partition(g, result) && |result| <= |g.out|
      invariant OutTrace(g, trace) && FromTo(trace, chains, result, splits)
      invariant !broken ==> LiveOutsLast(g, result)
      decreases |g.out| - |result|, broken
    {
      broken, result := BreakOutOnce(g, result);
      if broken {
        OutTraceMore(g, trace, result);
        trace, splits := trace + [result], splits + 1;
      }
    }
    OutsDone(g, trace, chains, result, splits);
  }

  lemma FirstOutBreaks(g: Graph, chains: seq<seq<nat>>, deps: seq<Dependency>, n: nat, x: nat)
    requires FirstOutAt(g, chains, deps, n, x) && NoRepeats(chains[deps[n].source])
    ensures !LiveOutsLast(g, chains)
  {
    var a, b := chains[deps[n].source], chains[deps[n].target];
    var v :| v in b && HasEdge(g, a[x], v);
    assert a[x] in a && !LeavesLast(g, a, b);
  }

  /** Where nothing is to be cut, nothing is. */
  lemma NothingToBreakOut(g: Graph, trace: seq<seq<seq<nat>>>, chains: seq<seq<nat>>, result: seq<seq<nat>>, splits: nat)
    requires OutTrace(g, trace) && FromTo(trace, chains, result, splits) && LiveOutsLast(g, chains)
    requires forall i :: 0 <= i < |chains| ==> NoRepeats(chains[i])
    ensures splits == 0 && result == chains
  {
    if splits > 0 {
      assert Follows(trace, 0);
      var deps := ChainDeps(g, chains, Owners(chains), |chains|);
      var n: nat, x: nat :| FirstOutAt(g, chains, deps, n, x);
      FirstOutBreaks(g, chains, deps, n, x);
    }
  }

  // ---------- Live-ins ----------

  ghost predicate EntersFirst(g: Graph, a: seq<nat>, b: seq<nat>)
  {
    forall u, v :: u in a && v in b && HasEdge(g, u, v) ==> v == b[0]
  }

  /** Every edge between two chains enters the first vertex of its chain. */
  ghost predicate LiveInsFirst(g: Graph, chains: seq<seq<nat>>)
  {
    forall i, j :: 0 <= i < |chains| && 0 <= j < |chains| && i != j ==> EntersFirst(g, chains[i], chains[j])
  }

  /** The vertex after the split point has an edge from another chain. */
  ghost predicate LiveInAt(g: Graph, chains: seq<seq<nat>>, i: nat, k: nat)
    requires SplitPoint(chains, i, k)
  {
    exists j, u :: 0 <= j < |chains| && j != i && u in chains[j] && HasEdge(g, u, chains[i][k])
  }

  method IndexOf(c: seq<nat>, v: nat) returns (k: nat)
    requires v in c
    ensures k < |c| && c[k] == v && v !in c[..k]
  {
    k := 0;
    while c[k] != v
      invariant k < |c| && v !in c[..k]
      decreases |c| - k
    {
      assert c[..k + 1] == c[..k] + [c[k]];
      assert c == c[..k + 1] + c[k + 1..];
      k := k + 1;
    }
  }

  /** Vertex `v` is in the chain and not its first one. */
  ghost predicate Inner(c: seq<nat>, v: nat)
  {
    v in c && v != c[0]
  }

  ghost predicate HitsInner(g: Graph, u: nat, c: seq<nat>)
  {
    exists v :: Inner(c, v) && HasEdge(g, u, v)
  }

  /**
   Entry `n` of the dependencies is the first between whose chains an edge enters a vertex that is not
   the first of its chain; `x` is the place of the first vertex with such an edge, `t` its first such
   edge, and `k` the place of the vertex that it enters.
   */
  ghost predicate FirstInAt(g: Graph, chains: seq<seq<nat>>, deps: seq<Dependency>, n: nat, x: nat, t: nat, k: nat)
  {
    && n < |deps| && deps[n].source < |chains| && deps[n].target < |chains| && deps[n].source != deps[n].target
    && (forall m :: 0 <= m < n ==> deps[m].source < |chains| && deps[m].target < |chains|
                                   && EntersFirst(g, chains[deps[m].source], chains[deps[m].target]))
    && var a, b := chains[deps[n].source], chains[deps[n].target];
       && x < |a| && a[x] < |g.out| && t < |g.out[a[x]]| && 0 < k < |b| && b[k] == g.out[a[x]][t] && Inner(b, b[k])
       && (forall y :: 0 <= y < x ==> !HitsInner(g, a[y], b))
       && (forall q :: 0 <= q < t ==> !Inner(b, g.out[a[x]][q]))
  }

  lemma FirstInIsLiveIn(g: Graph, chains: seq<seq<nat>>, deps: seq<Dependency>, n: nat, x: nat, t: nat, k: nat)
    requires FirstInAt(g, chains, deps, n, x, t, k)
    ensures SplitPoint(chains, deps[n].target, k) && LiveInAt(g, chains, deps[n].target, k)
  {
    var a := chains[deps[n].source];
    assert a[x] in a && HasEdge(g, a[x], chains[deps[n].target][k]);
  }

  method BreakInHelper(g: Graph, chains: seq<seq<nat>>, deps: seq<Dependency>)
    returns (broken: bool, result: seq<seq<nat>>, ghost n: nat, ghost x: nat, ghost t: nat, ghost k: nat)
    requires ValidGraph(g) && Partition(g, chains) && Lists(g, chains, deps)
    ensures broken ==> FirstInAt(g, chains, deps, n, x, t, k) && SplitPoint(chains, deps[n].target, k)
                       && result == Split(chains, deps[n].target, k)
    ensures !broken ==> result == chains && LiveInsFirst(g, chains)
  {
    for m := 0 to |deps|
      invariant forall d :: 0 <= d < m ==> deps[d].source < |chains| && deps[d].target < |chains|
                                           && EntersFirst(g, chains[deps[d].source], chains[deps[d].target])
    {
      var dep := deps[m];
      assert Dependency(dep.source, dep.target) in deps;
      var a: seq<nat>, b: seq<nat> := chains[dep.source], chains[dep.target];
      for y := 0 to |a|
        invariant forall z :: 0 <= z < y ==> !HitsInner(g, a[z], b)
      {
        assert a[y] in chains[dep.source];
        var out: seq<nat> := g.out[a[y]];
        for e := 0 to |out|
          invariant forall q :: 0 <= q < e ==> !Inner(b, out[q])
        {
          if out[e] !in b || out[e] == b[0] {
            continue;
          }
          var i := IndexOf(b, out[e]);
          return true, chains[dep.target := b[..i]] + [b[i..]], m, y, e, i;
        }
      }
      NoneEnters(g, a, b);
    }
    NoneEntersAny(g, chains, deps);
    return false, chains, 0, 0, 0, 0;
  }

  lemma NoneEnters(g: Graph, a: seq<nat>, b: seq<nat>)
    requires forall z :: 0 <= z < |a| ==> !HitsInner(g, a[z], b)
    ensures EntersFirst(g, a, b)
  {
    forall u, v | u in a && v in b && HasEdge(g, u, v)
      ensures v == b[0]
    {
      var z :| 0 <= z < |a| && a[z] == u;
      assert !HitsInner(g, a[z], b);
      assert !Inner(b, v);
    }
  }

  lemma NoneEntersAny(g: Graph, chains: seq<seq<nat>>, deps: seq<Dependency>)
    requires Lists(g, chains, deps)
    requires forall m :: 0 <= m < |deps| ==> deps[m].source < |chains| && deps[m].target < |chains|
                                             && EntersFirst(g, chains[deps[m].source], chains[deps[m].target])
    ensures LiveInsFirst(g, chains)
  {
    forall i: nat, j: nat | i < |chains| && j < |chains| && i != j
      ensures EntersFirst(g, chains[i], chains[j])
    {
      if Crosses(g, chains[i], chains[j]) {
        assert Depends(g, chains, i, j);
        assert Dependency(i, j) in deps;
      }
    }
  }

  /** One call of the helper that breaks a chain. */
  ghost predicate FirstIn(g: Graph, chains: seq<seq<nat>>, next: seq<seq<nat>>)
  {
    && (forall i :: 0 <= i < |chains| ==> InGraph(g, chains[i]))
    && var deps := ChainDeps(g, chains, Owners(chains), |chains|);
       exists n: nat, x: nat, t: nat, k: nat :: FirstInAt(g, chains, deps, n, x, t, k)
                                                && SplitPoint(chains, deps[n].target, k)
                                                && next == Split(chains, deps[n].target, k)
  }

  ghost predicate InTrace(g: Graph, trace: seq<seq<seq<nat>>>)
  {
    forall m: nat {:trigger Follows(trace, m)} :: Follows(trace, m) ==> FirstIn(g, trace[m], trace[m + 1])
  }

  /** Vertex `v` has an edge into its chain. */
  ghost predicate EntersChain(g: Graph, chains: seq<seq<nat>>, v: nat)
  {
    exists i: nat, u: nat :: i < |chains| && v in chains[i] && u !in chains[i] && HasEdge(g, u, v)
  }

  lemma SplitEnters(g: Graph, chains: seq<seq<nat>>, i: nat, k: nat, v: nat)
    requires SplitPoint(chains, i, k) && EntersChain(g, chains, v)
    ensures EntersChain(g, Split(chains, i, k), v)
  {
    var s := Split(chains, i, k);
    var c: nat, u: nat :| c < |chains| && v in chains[c] && u !in chains[c] && HasEdge(g, u, v);
    SplitMembers(chains, i, k, i, v);
    var d := if c == i && v !in chains[i][..k] then |chains| else c;
    assert v in s[d];
    SplitMembers(chains, i, k, d, u);
  }

  /** The steps of `now` are steps of `chains`; those that were cut lead to a vertex that is entered from another chain. */
  ghost predicate CutInSoFar(g: Graph, chains: seq<seq<nat>>, now: seq<seq<nat>>)
  {
    && (forall u: nat, v: nat :: (u, v) in AllSteps(now) ==> (u, v) in AllSteps(chains))
    && (forall u: nat, v: nat :: (u, v) in AllSteps(chains) ==> (u, v) in AllSteps(now) || EntersChain(g, now, v))
  }

  lemma CutInMore(g: Graph, chains: seq<seq<nat>>, now: seq<seq<nat>>, i: nat, k: nat)
    requires Partition(g, now) && CutInSoFar(g, chains, now) && SplitPoint(now, i, k) && LiveInAt(g, now, i, k)
    ensures CutInSoFar(g, chains, Split(now, i, k))
  {
    var j, x :| 0 <= j < |now| && j != i && x in now[j] && HasEdge(g, x, now[i][k]);
    assert now[i][k] in now[i] && x !in now[i];
    assert EntersChain(g, now, now[i][k]);
    forall u: nat, v: nat
      ensures (u, v) in AllSteps(Split(now, i, k)) ==> (u, v) in AllSteps(chains)
      ensures (u, v) in AllSteps(chains) ==> (u, v) in AllSteps(Split(now, i, k)) || EntersChain(g, Split(now, i, k), v)
    {
      SplitSteps(now, i, k, u, v);
      if EntersChain(g, now, v) {
        SplitEnters(g, now, i, k, v);
      }
    }
  }

  lemma EntersOnlyFirst(g: Graph, chains: seq<seq<nat>>, d: nat, e: nat, u: nat, w: nat)
    requires LiveInsFirst(g, chains) && d < |chains| && e < |chains| && d != e
    requires u in chains[d] && w in chains[e] && HasEdge(g, u, w)
    ensures w == chains[e][0]
  {
    assert EntersFirst(g, chains[d], chains[e]);
  }

  /** A decomposition with live-ins at the fronts only that is at least as fine has the cut as well. */
  lemma InCutForced(g: Graph, now: seq<seq<nat>>, i: nat, k: nat, fine: seq<seq<nat>>)
    requires Partition(g, now) && SplitPoint(now, i, k) && LiveInAt(g, now, i, k)
    requires Partition(g, fine) && LiveInsFirst(g, fine) && AllSteps(fine) <= AllSteps(now)
    ensures (now[i][k - 1], now[i][k]) !in AllSteps(fine)
  {
    var u, v := now[i][k - 1], now[i][k];
    if (u, v) in AllSteps(fine) {
      var d := StepNotLast(g, fine, u, v);
      var j, w :| 0 <= j < |now| && j != i && w in now[j] && HasEdge(g, w, v);
      assert Chained(fine, w) && v in now[i];
      var e :| 0 <= e < |fine| && w in fine[e];
      if e == d {
        StepsTogether(g, now, fine, d, v, w, i);
      } else {
        EntersOnlyFirst(g, fine, e, d, w, v);
      }
    }
  }

  /** Of all decompositions along steps of `chains` with live-ins at the fronts only, none keeps a step that `now` has not. */
  ghost predicate CoarsestIn(g: Graph, chains: seq<seq<nat>>, now: seq<seq<nat>>)
  {
    forall fine {:trigger LiveInsFirst(g, fine)} ::
      Partition(g, fine) && LiveInsFirst(g, fine) && AllSteps(fine) <= AllSteps(chains) ==> AllSteps(fine) <= AllSteps(now)
  }

  lemma CoarsestInStays(g: Graph, chains: seq<seq<nat>>, now: seq<seq<nat>>, i: nat, k: nat)
    requires Partition(g, now) && SplitPoint(now, i, k) && LiveInAt(g, now, i, k) && CoarsestIn(g, chains, now)
    ensures CoarsestIn(g, chains, Split(now, i, k))
  {
    forall fine | Partition(g, fine) && LiveInsFirst(g, fine) && AllSteps(fine) <= AllSteps(chains)
      ensures AllSteps(fine) <= AllSteps(Split(now, i, k))
    {
      InCutForced(g, now, i, k, fine);
      StepsAfterSplit(now, i, k, fine);
    }
  }

  /**
   `result` is `chains`, cut before a vertex exactly when the vertex has an edge into its chain of
   `result`, and it is the coarsest such decomposition.
   */
  ghost predicate CutAtLiveIns(g: Graph, chains: seq<seq<nat>>, result: seq<seq<nat>>)
  {
    && Partition(g, result) && LiveInsFirst(g, result) && CoarsestIn(g, chains, result)
    && (forall u: nat, v: nat :: (u, v) in AllSteps(result) ==> (u, v) in AllSteps(chains))
    && (forall u: nat, v: nat :: (u, v) in AllSteps(chains) ==>
                                   ((u, v) in AllSteps(result) <==> !EntersChain(g, result, v)))
  }

  lemma CutInDone(g: Graph, chains: seq<seq<nat>>, result: seq<seq<nat>>)
    requires ValidGraph(g) && Partition(g, result) && LiveInsFirst(g, result)
    requires CutInSoFar(g, chains, result) && CoarsestIn(g, chains, result)
    ensures CutAtLiveIns(g, chains, result)
  {
    forall u: nat, v: nat | (u, v) in AllSteps(result)
      ensures !EntersChain(g, result, v)
    {
      var i, k := StepAt(result, u, v);
      assert v in result[i] && v != result[i][0];
      if EntersChain(g, result, v) {
        EntersAtFront(g, result, v, i);
      }
    }
  }

  lemma EntersAtFront(g: Graph, chains: seq<seq<nat>>, v: nat, i: nat)
    requires ValidGraph(g) && Partition(g, chains) && LiveInsFirst(g, chains) && EntersChain(g, chains, v)
    requires i < |chains| && v in chains[i]
    ensures v == chains[i][0]
  {
    var c: nat, u: nat :| c < |chains| && v in chains[c] && u !in chains[c] && HasEdge(g, u, v);
    assert Chained(chains, u);
    var d :| 0 <= d < |chains| && u in chains[d];
    assert EntersFirst(g, chains[d], chains[c]);
  }

  /** What holds while chains are broken at live-ins. */
  ghost predicate BreakingIn(g: Graph, chains: seq<seq<nat>>, now: seq<seq<nat>>, splits: nat)
  {
    && Partition(g, now) && (WellChained(g, chains) ==> WellChained(g, now))
    && |now| == |chains| + splits <= |g.out| && SameFronts(chains, now)
    && CutInSoFar(g, chains, now) && CoarsestIn(g, chains, now)
  }

  lemma CutInStep(g: Graph, chains: seq<seq<nat>>, before: seq<seq<nat>>, i: nat, k: nat)
    requires ValidGraph(g) && Partition(g, before) && CutInSoFar(g, chains, before) && SameFronts(chains, before)
    requires SplitPoint(before, i, k) && LiveInAt(g, before, i, k) && CoarsestIn(g, chains, before)
    ensures var after := Split(before, i, k);
            && Partition(g, after) && CutInSoFar(g, chains, after) && SameFronts(chains, after)
            && CoarsestIn(g, chains, after)
            && |after| == |before| + 1 <= |g.out| && (WellChained(g, before) ==> WellChained(g, after))
  {
    SplitPartition(g, before, i, k);
    if WellChained(g, before) {
      SplitKeeps(g, before, i, k);
    }
    CutInMore(g, chains, before, i, k);
    CoarsestInStays(g, chains, before, i, k);
    NoMoreChainsThanVertices(g, Split(before, i, k));
  }

  lemma BreakingInStep(g: Graph, chains: seq<seq<nat>>, now: seq<seq<nat>>, splits: nat, next: seq<seq<nat>>)
    requires ValidGraph(g) && BreakingIn(g, chains, now, splits) && FirstIn(g, now, next)
    ensures BreakingIn(g, chains, next, splits + 1)
  {
    var deps := ChainDeps(g, now, Owners(now), |now|);
    var n: nat, x: nat, t: nat, k: nat :|
      FirstInAt(g, now, deps, n, x, t, k) && SplitPoint(now, deps[n].target, k) && next == Split(now, deps[n].target, k);
    FirstInIsLiveIn(g, now, deps, n, x, t, k);
    CutInStep(g, chains, now, deps[n].target, k);
  }

  lemma {:induction false} InTraceKeeps(g: Graph, trace: seq<seq<seq<nat>>>, n: nat)
    requires ValidGraph(g) && InTrace(g, trace) && n < |trace| && Partition(g, trace[0])
    ensures BreakingIn(g, trace[0], trace[n], n)
  {
    if n == 0 {
      NoMoreChainsThanVertices(g, trace[0]);
    } else {
      InTraceKeeps(g, trace, n - 1);
      assert Follows(trace, n - 1);
      BreakingInStep(g, trace[0], trace[n - 1], n - 1, trace[n]);
    }
  }

  lemma InBroken(g: Graph, now: seq<seq<nat>>, deps: seq<Dependency>, n: nat, x: nat, t: nat, k: nat)
    requires ValidGraph(g) && Partition(g, now) && forall i :: 0 <= i < |now| ==> InGraph(g, now[i])
    requires deps == ChainDeps(g, now, Owners(now), |now|) && FirstInAt(g, now, deps, n, x, t, k)
    ensures SplitPoint(now, deps[n].target, k)
    ensures var next := Split(now, deps[n].target, k);
            FirstIn(g, now, next) && Partition(g, next) && |now| < |next| <= |g.out|
  {
    FirstInIsLiveIn(g, now, deps, n, x, t, k);
    SplitPartition(g, now, deps[n].target, k);
    NoMoreChainsThanVertices(g, Split(now, deps[n].target, k));
  }

  /** One round of the loop: the dependencies are listed anew, and the first chain that needs it is broken. */
  method BreakInOnce(g: Graph, chains: seq<seq<nat>>) returns (broken: bool, result: seq<seq<nat>>)
    requires ValidGraph(g) && Partition(g, chains)
    ensures broken ==> FirstIn(g, chains, result) && Partition(g, result) && |chains| < |result| <= |g.out|
    ensures !broken ==> result == chains && LiveInsFirst(g, chains)
  {
    var chainOf := VertexToChainMap(chains);
    AllMapped(g, chains, chainOf);
    var deps := DependenciesGenerate(g, chains, chainOf);
    ghost var n, x, t, k;
    broken, result, n, x, t, k := BreakInHelper(g, chains, deps);
    if broken {
      InBroken(g, chains, deps, n, x, t, k);
    }
  }

  lemma InTraceMore(g: Graph, trace: seq<seq<seq<nat>>>, result: seq<seq<nat>>)
    requires InTrace(g, trace) && trace != [] && FirstIn(g, trace[|trace| - 1], result)
    ensures InTrace(g, trace + [result])
  {
    var all := trace + [result];
    forall m: nat | Follows(all, m)
      ensures FirstIn(g, all[m], all[m + 1])
    {
      if m + 1 < |trace| {
        assert Follows(trace, m);
      }
    }
  }

  lemma InsDone(g: Graph, trace: seq<seq<seq<nat>>>, chains: seq<seq<nat>>, result: seq<seq<nat>>, splits: nat)
    requires ValidGraph(g) && Partition(g, chains) && InTrace(g, trace) && FromTo(trace, chains, result, splits)
    requires LiveInsFirst(g, result)
    ensures WellChained(g, chains) ==> WellChained(g, result)
    ensures CutAtLiveIns(g, chains, result) && SameFronts(chains, result)
    ensures |result| == |chains| + splits <= |g.out|
  {
    InTraceKeeps(g, trace, splits);
    CutInDone(g, chains, result);
  }

  method BreakEveryLiveIn(g: Graph, chains: seq<seq<nat>>)
    returns (result: seq<seq<nat>>, splits: nat, ghost trace: seq<seq<seq<nat>>>)
    requires ValidGraph(g) && Partition(g, chains)
    ensures WellChained(g, chains) ==> WellChained(g, result)
    ensures CutAtLiveIns(g, chains, result) && InTrace(g, trace) && FromTo(trace, chains, result, splits)
    ensures |result| == |chains| + splits <= |g.out|
    ensures SameFronts(chains, result)
  {
    result, splits, trace := chains, 0, [chains];
    NoMoreChainsThanVertices(g, result);
    var broken := true;
    while broken
      invariant Partition(g, result) && |result| <= |g.out|
      invariant InTrace(g, trace) && FromTo(trace, chains, result, splits)
      invariant !broken ==> LiveInsFirst(g, result)
      decreases |g.out| - |result|, broken
    {
      broken, result := BreakInOnce(g, result);
      if broken {
        InTraceMore(g, trace, result);
        trace, splits := trace + [result], splits + 1;
      }
    }
    InsDone(g, trace, chains, result, splits);
  }

  lemma FirstInBreaks(g: Graph, chains: seq<seq<nat>>, deps: seq<Dependency>, n: nat, x: nat, t: nat, k: nat)
    requires FirstInAt(g, chains, deps, n, x, t, k)
    ensures !LiveInsFirst(g, chains)
  {
    var a, b := chains[deps[n].source], chains[deps[n].target];
    assert a[x] in a && HasEdge(g, a[x], b[k]) && !EntersFirst(g, a, b);
  }

  /** Where nothing is to be cut, nothing is. */
  lemma NothingToBreakIn(g: Graph, trace: seq<seq<seq<nat>>>, chains: seq<seq<nat>>, result: seq<seq<nat>>, splits: nat)
    requires InTrace(g, trace) && FromTo(trace, chains, result, splits) && LiveInsFirst(g, chains)
    ensures splits == 0 && result == chains
  {
    if splits > 0 {
      assert Follows(trace, 0);
      var deps := ChainDeps(g, chains, Owners(chains), |chains|);
      var n: nat, x: nat, t: nat, k: nat :| FirstInAt(g, chains, deps, n, x, t, k);
      FirstInBreaks(g, chains, deps, n, x, t, k);
    }
  }

  // ---------- The number of splits ----------

  lemma {:induction false} BoundedSet(s: set<nat>, n: nat)
    requires forall x :: x in s ==> x < n
    ensures |s| <= n
  {
    if n == 0 {
      assert s == {};
    } else {
      BoundedSet(s - {n - 1}, n - 1);
      assert s <= (s - {n - 1}) + {n - 1};
      assert |s - {n - 1}| >= |s| - 1;
    }
  }

  lemma {:induction false} Fronts(chains: seq<seq<nat>>) returns (s: set<nat>)
    requires forall i :: 0 <= i < |chains| ==> chains[i] != []
    requires forall i, k, v :: 0 <= i < |chains| && 0 <= k < |chains| && v in chains[i] && v in chains[k] ==> i == k
    ensures |s| == |chains|
    ensures forall v :: v in s ==> exists i :: 0 <= i < |chains| && v in chains[i]
  {
    if chains == [] {
      s := {};
    } else {
      var n := |chains| - 1;
      s := Fronts(chains[..n]);
      assert chains[n][0] !in s;
      s := s + {chains[n][0]};
    }
  }

  lemma NoMoreChainsThanVertices(g: Graph, chains: seq<seq<nat>>)
    requires Partition(g, chains)
    ensures |chains| <= |g.out|
  {
    var s := Fronts(chains);
    BoundedSet(s, |g.out|);
  }
}
