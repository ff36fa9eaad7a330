/**
 Matchings and partitions of a graph into paths: a partition into k paths uses n - k
 edges that form a matching, and on an acyclic graph every matching is used so.
 */
module PathCovers {
  import opened Sequences
  import opened Digraph
  import opened Chains
  import opened ChainSteps
  import opened Merging

  // ---------- Matchings ----------

  ghost predicate Matching(g: Graph, m: Edges)
  {
    && (forall u, v :: (u, v) in m ==> HasEdge(g, u, v))
    && (forall u, v, w :: (u, v) in m && (u, w) in m ==> v == w)
    && (forall u, v, w :: (u, w) in m && (v, w) in m ==> u == v)
  }

  ghost predicate MaximumMatching(g: Graph, m: Edges)
  {
    Matching(g, m) && forall other :: Matching(g, other) ==> |other| <= |m|
  }

  // ---------- Partitions into paths ----------

  ghost predicate IsPath(g: Graph, c: seq<nat>)
  {
    forall k :: 0 <= k < |c| - 1 ==> HasEdge(g, c[k], c[k + 1])
  }

  /** Every vertex is on exactly one path, once; no path is empty. */
  ghost predicate PathPartition(g: Graph, chains: seq<seq<nat>>)
  {
    Partition(g, chains) && forall i :: 0 <= i < |chains| ==> IsPath(g, chains[i])
  }

  lemma {:induction false} StepsCount(c: seq<nat>)
    requires NoRepeats(c) && c != []
    ensures |Steps(c)| == |c| - 1
  {
    if |c| > 1 {
      var n := |c| - 1;
      StepsCount(c[..n]);
      StepsOf(c[..n], c[n - 1], c[n]);
    }
  }

  ghost function Vertices(chains: seq<seq<nat>>): set<nat>
  {
    set i, v | 0 <= i < |chains| && v in chains[i] :: v
  }

  ghost predicate Apart(chains: seq<seq<nat>>)
  {
    && (forall i :: 0 <= i < |chains| ==> chains[i] != [] && NoRepeats(chains[i]))
    && (forall i, k, v :: 0 <= i < |chains| && 0 <= k < |chains| && v in chains[i] && v in chains[k] ==> i == k)
  }

  ghost function Members(c: seq<nat>): set<nat>
  {
    set v | v in c
  }

  lemma {:induction false} MembersCount(c: seq<nat>)
    requires NoRepeats(c)
    ensures |Members(c)| == |c|
  {
    if c != [] {
      var n := |c| - 1;
      MembersCount(c[..n]);
      assert c == c[..n] + [c[n]];
      assert Members(c) == Members(c[..n]) + {c[n]};
      assert c[n] !in Members(c[..n]);
    }
  }

  lemma DisjointUnion<T>(a: set<T>, b: set<T>)
    requires forall x :: x in a ==> x !in b
    ensures |a + b| == |a| + |b|
  {
    assert a !! b;
  }

  lemma StepsDisjoint(chains: seq<seq<nat>>, n: nat)
    requires Apart(chains) && n < |chains|
    ensures forall e :: e in AllSteps(chains[..n]) ==> e !in Steps(chains[n])
  {
    forall e: (nat, nat) | e in AllSteps(chains[..n])
      ensures e !in Steps(chains[n])
    {
      var (u, v) := e;
      assert e == (u, v);
      AllStepsOf(chains[..n], u, v);
      var i :| 0 <= i < n && (u, v) in Steps(chains[..n][i]);
      StepEnds(chains[i], u, v);
      assert u !in chains[n];
      if (u, v) in Steps(chains[n]) {
        StepEnds(chains[n], u, v);
      }
    }
  }

  lemma VerticesLast(chains: seq<seq<nat>>, n: nat)
    requires Apart(chains) && |chains| == n + 1
    ensures Vertices(chains) == Vertices(chains[..n]) + Members(chains[n])
    ensures forall v :: v in Vertices(chains[..n]) ==> v !in Members(chains[n])
  {
    forall v
      ensures v in Vertices(chains) <==> v in Vertices(chains[..n]) || v in Members(chains[n])
    {
      if v in Vertices(chains) {
        var i :| 0 <= i < |chains| && v in chains[i];
        assert i < n ==> v in chains[..n][i];
      }
      if v in Vertices(chains[..n]) {
        var i :| 0 <= i < n && v in chains[..n][i];
        assert v in chains[i];
      }
    }
  }

  lemma LastSteps(chains: seq<seq<nat>>, n: nat)
    requires Apart(chains) && |chains| == n + 1
    ensures |AllSteps(chains)| == |AllSteps(chains[..n])| + |chains[n]| - 1
  {
    StepsCount(chains[n]);
    StepsDisjoint(chains, n);
    DisjointUnion(AllSteps(chains[..n]), Steps(chains[n]));
  }

  lemma LastVertices(chains: seq<seq<nat>>, n: nat)
    requires Apart(chains) && |chains| == n + 1
    ensures |Vertices(chains)| == |Vertices(chains[..n])| + |chains[n]|
  {
    MembersCount(chains[n]);
    VerticesLast(chains, n);
    DisjointUnion(Vertices(chains[..n]), Members(chains[n]));
  }

  /** Disjoint paths have as many steps as vertices, less one for each path. */
  lemma {:induction false} StepsAndVertices(chains: seq<seq<nat>>)
    requires Apart(chains)
    ensures |AllSteps(chains)| + |chains| == |Vertices(chains)|
  {
    if chains == [] {
      assert Vertices(chains) == {};
    } else {
      var n := |chains| - 1;
      StepsAndVertices(chains[..n]);
      LastSteps(chains, n);
      LastVertices(chains, n);
    }
  }

  lemma {:induction false} SetBelow(s: set<nat>, n: nat)
    requires forall v: nat :: v in s <==> v < n
    ensures |s| == n
  {
    if n == 0 {
      assert s == {};
    } else {
      SetBelow(s - {n - 1}, n - 1);
    }
  }

  lemma PartitionVertices(g: Graph, chains: seq<seq<nat>>)
    requires Partition(g, chains)
    ensures |Vertices(chains)| == |g.out| && |AllSteps(chains)| + |chains| == |g.out|
  {
    forall v: nat
      ensures v in Vertices(chains) <==> v < |g.out|
    {
      if v < |g.out| {
        assert Chained(chains, v);
      }
    }
    SetBelow(Vertices(chains), |g.out|);
    StepsAndVertices(chains);
  }

  /** The steps of a partition into paths are a matching. */
  lemma PathStepsMatch(g: Graph, chains: seq<seq<nat>>)
    requires PathPartition(g, chains)
    ensures Matching(g, AllSteps(chains))
  {
    var m := AllSteps(chains);
    forall u, v | (u, v) in m
      ensures HasEdge(g, u, v)
    {
      var i, k := StepAt(chains, u, v);
      assert IsPath(g, chains[i]);
    }
    forall u, v, w | (u, v) in m && (u, w) in m
      ensures v == w
    {
      var i, k := StepAt(chains, u, v);
      var j, l := StepAt(chains, u, w);
      assert chains[i][k] in chains[i] && chains[j][l] in chains[j];
      assert NoRepeats(chains[i]);
    }
    forall u, v, w | (u, w) in m && (v, w) in m
      ensures u == v
    {
      var i, k := StepAt(chains, u, w);
      var j, l := StepAt(chains, v, w);
      assert chains[i][k + 1] in chains[i] && chains[j][l + 1] in chains[j];
      assert NoRepeats(chains[i]);
    }
  }

  lemma PairwiseSubset(a: Edges, b: Edges)
    requires forall u: nat, v: nat :: (u, v) in a ==> (u, v) in b
    ensures a <= b
  {
    forall e: (nat, nat) | e in a
      ensures e in b
    {
      var (u, v) := e;
      assert e == (u, v);
    }
  }

  // ---------- Building partitions ----------

  lemma AppendApart(chains: seq<seq<nat>>, chain: seq<nat>)
    requires Apart(chains) && NoRepeats(chain) && chain != []
    requires forall v :: v in chain ==> v !in Vertices(chains)
    ensures Apart(chains + [chain])
  {
    forall i, v | 0 <= i < |chains| && v in chains[i]
      ensures v !in chain
    {
      assert v in Vertices(chains);
    }
  }

  /** The chains, and after them each vertex below `i` that was not seen as a chain of its own. */
  function WithSingles(chains: seq<seq<nat>>, seen: set<nat>, i: nat): seq<seq<nat>>
  {
    if i == 0 then chains
    else
      var all := WithSingles(chains, seen, i - 1);
      if i - 1 in seen then all else all + [[i - 1]]
  }

  lemma AppendSingle(chains: seq<seq<nat>>, v: nat)
    requires Apart(chains) && v !in Vertices(chains)
    ensures Apart(chains + [[v]]) && AllSteps(chains + [[v]]) == AllSteps(chains)
    ensures Vertices(chains + [[v]]) == Vertices(chains) + {v}
  {
    var all := chains + [[v]];
    assert all[..|chains|] == chains;
    AppendApart(chains, [v]);
    VerticesLast(all, |chains|);
    assert Members([v]) == {v} && Steps([v]) == {};
  }

  /** `all` holds the vertices in `seen` and those below `i`, and has the steps of `chains`. */
  ghost predicate Filled(chains: seq<seq<nat>>, seen: set<nat>, i: nat, all: seq<seq<nat>>)
  {
    && Apart(all) && AllSteps(all) == AllSteps(chains)
    && (forall v: nat :: v in Vertices(all) <==> v in seen || v < i)
  }

  lemma FilledSame(chains: seq<seq<nat>>, seen: set<nat>, i: nat, all: seq<seq<nat>>)
    requires Filled(chains, seen, i, all) && i in seen
    ensures Filled(chains, seen, i + 1, all)
  {
  }

  lemma FilledNext(chains: seq<seq<nat>>, seen: set<nat>, i: nat, all: seq<seq<nat>>)
    requires Filled(chains, seen, i, all) && i !in seen
    ensures Filled(chains, seen, i + 1, all + [[i]])
  {
    assert i !in Vertices(all);
    AppendSingle(all, i);
    var more := all + [[i]];
    assert Vertices(more) == Vertices(all) + {i};
    forall v: nat
      ensures v in Vertices(more) <==> v in seen || v < i + 1
    {
    }
  }

  lemma {:induction false} SinglesFill(chains: seq<seq<nat>>, seen: set<nat>, i: nat)
    requires Filled(chains, seen, 0, chains)
    ensures Filled(chains, seen, i, WithSingles(chains, seen, i))
  {
    if i > 0 {
      SinglesFill(chains, seen, i - 1);
      if i - 1 in seen {
        FilledSame(chains, seen, i - 1, WithSingles(chains, seen, i - 1));
      } else {
        FilledNext(chains, seen, i - 1, WithSingles(chains, seen, i - 1));
      }
    }
  }

  lemma PathOfSteps(g: Graph, m: Edges, chains: seq<seq<nat>>, i: nat)
    requires Matching(g, m) && AllSteps(chains) <= m && i < |chains|
    ensures IsPath(g, chains[i])
  {
    var c := chains[i];
    forall k | 0 <= k < |c| - 1
      ensures HasEdge(g, c[k], c[k + 1])
    {
      StepsOf(c, c[k], c[k + 1]);
      AllStepsOf(chains, c[k], c[k + 1]);
    }
  }

  lemma PartitionOfVertices(g: Graph, chains: seq<seq<nat>>)
    requires Apart(chains) && forall v: nat :: v in Vertices(chains) <==> v < |g.out|
    ensures Partition(g, chains)
  {
    forall i, v | 0 <= i < |chains| && v in chains[i]
      ensures v < |g.out|
    {
      assert v in Vertices(chains);
    }
    forall v: nat | v < |g.out|
      ensures Chained(chains, v)
    {
      assert v in Vertices(chains);
    }
  }

  // ---------- From a matching to paths ----------

  lemma {:induction false} RankAlongPath(m: Edges, r: map<nat, nat>, c: seq<nat>, k: nat)
    requires Ranked(m, r) && Steps(c) <= m && 0 < k < |c|
    ensures c[0] in r && c[k] in r && r[c[0]] < r[c[k]]
  {
    StepsOf(c, c[k - 1], c[k]);
    if k > 1 {
      RankAlongPath(m, r, c, k - 1);
    }
  }

  /** A vertex with no step onwards ends its path, and one with no step into it begins its path. */
  lemma PathEnds(g: Graph, chains: seq<seq<nat>>, u: nat, v: nat) returns (i: nat, t: nat)
    requires Partition(g, chains) && u < |g.out| && v < |g.out|
    requires forall w: nat :: (u, w) !in AllSteps(chains)
    requires forall w: nat :: (w, v) !in AllSteps(chains)
    ensures i < |chains| && t < |chains| && chains[i] != [] && chains[t] != []
    ensures chains[i][|chains[i]| - 1] == u && chains[t][0] == v
  {
    assert Chained(chains, u) && Chained(chains, v);
    i :| i < |chains| && u in chains[i];
    var k :| 0 <= k < |chains[i]| && chains[i][k] == u;
    if k + 1 < |chains[i]| {
      StepsOf(chains[i], u, chains[i][k + 1]);
      AllStepsOf(chains, u, chains[i][k + 1]);
      assert (u, chains[i][k + 1]) in AllSteps(chains);
      assert false;
    }
    t :| t < |chains| && v in chains[t];
    var l :| 0 <= l < |chains[t]| && chains[t][l] == v;
    if l > 0 {
      StepsOf(chains[t], chains[t][l - 1], v);
      AllStepsOf(chains, chains[t][l - 1], v);
      assert false;
    }
  }

  lemma PathWithin(chains: seq<seq<nat>>, i: nat, m: Edges)
    requires i < |chains| && AllSteps(chains) <= m
    ensures Steps(chains[i]) <= m
  {
    forall u: nat, v: nat | (u, v) in Steps(chains[i])
      ensures (u, v) in m
    {
      AllStepsOf(chains, u, v);
    }
    PairwiseSubset(Steps(chains[i]), m);
  }

  lemma MatchingShrinks(g: Graph, m: Edges, u: nat, v: nat)
    requires Matching(g, m) && (u, v) in m
    ensures Matching(g, m - {(u, v)})
    ensures forall w: nat :: (u, w) !in m - {(u, v)}
    ensures forall w: nat :: (w, v) !in m - {(u, v)}
  {
  }

  lemma SomeEdge(m: Edges) returns (u: nat, v: nat)
    requires m != {}
    ensures (u, v) in m
  {
    if forall x: nat, y: nat :: (x, y) !in m {
      PairwiseSubset(m, {});
    }
    u, v :| (u, v) in m;
  }

  /** On an acyclic graph every matching is the set of steps of a partition into paths. */
  lemma {:induction false} CoverOf(g: Graph, m: Edges, r: map<nat, nat>) returns (chains: seq<seq<nat>>)
    requires ValidGraph(g) && Matching(g, m) && Ranked(m, r)
    ensures Partition(g, chains) && AllSteps(chains) == m
    decreases |m|
  {
    if m == {} {
      SinglesFill([], {}, |g.out|);
      chains := WithSingles([], {}, |g.out|);
      PartitionOfVertices(g, chains);
    } else {
      var u, v := SomeEdge(m);
      assert HasEdge(g, u, v);
      var rest := m - {(u, v)};
      MatchingShrinks(g, m, u, v);
      var parts := CoverOf(g, rest, r);
      var i, t := PathEnds(g, parts, u, v);
      PathWithin(parts, i, m);
      if i == t && u != v {
        RankAlongPath(m, r, parts[i], |parts[i]| - 1);
      }
      assert i != t;
      chains := Merge(parts, i, t);
      MergePartition(g, parts, i, t);
      forall x: nat, y: nat
        ensures (x, y) in AllSteps(chains) <==> (x, y) in m
      {
        MergeSteps(parts, i, t, x, y);
      }
      PairwiseSubset(AllSteps(chains), m);
      PairwiseSubset(m, AllSteps(chains));
    }
  }

  lemma MatchingWithin(g: Graph, m: Edges)
    requires Matching(g, m)
    ensures m <= GraphEdges(g)
  {
    forall u: nat, v: nat | (u, v) in m
      ensures (u, v) in GraphEdges(g)
    {
      assert HasEdge(g, u, v);
    }
    PairwiseSubset(m, GraphEdges(g));
  }

  /** On an acyclic graph a matching gives a partition into n - |m| paths. */
  lemma MatchingGivesPaths(g: Graph, m: Edges) returns (chains: seq<seq<nat>>)
    requires ValidGraph(g) && Acyclic(GraphEdges(g)) && Matching(g, m)
    ensures PathPartition(g, chains) && |chains| == |g.out| - |m|
  {
    AcyclicIffRanked(GraphEdges(g));
    var r :| Ranked(GraphEdges(g), r);
    MatchingWithin(g, m);
    assert Ranked(m, r);
    chains := CoverOf(g, m, r);
    PartitionVertices(g, chains);
    forall i | 0 <= i < |chains|
      ensures IsPath(g, chains[i])
    {
      PathOfSteps(g, m, chains, i);
    }
  }

  /** No partition into paths has fewer than n - |M| paths, M a maximum matching. */
  lemma PathsAtLeast(g: Graph, m: Edges, chains: seq<seq<nat>>)
    requires MaximumMatching(g, m) && PathPartition(g, chains)
    ensures |chains| >= |g.out| - |m|
  {
    PathStepsMatch(g, chains);
    PartitionVertices(g, chains);
  }
}
