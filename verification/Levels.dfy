/**
 Longest-path levels by label correction: of chains (src/newGraph.cpp,
 findChainsLevel) and of vertices (findGrahpLevel).
 */
module Levels {
  import opened Sequences
  import opened Digraph
  import opened Chains

  /** `l` is the length of a longest walk from `x` to `v`, or -1 if there is no walk. */
  ghost predicate IsLevel(e: Edges, x: nat, v: nat, l: int)
  {
    if Reaches(e, x, v) then l >= 0 && LongestWalk(e, x, v, l) else l == -1
  }

  ghost predicate AllLevels(e: Edges, x: nat, level: seq<int>)
  {
    forall v: nat :: v < |level| ==> IsLevel(e, x, v, level[v])
  }

  ghost predicate WithinNodes(e: Edges, n: nat)
  {
    forall u, c :: (u, c) in e ==> u < n && c < n
  }

  // ---------- What a call does to the labels ----------

  ghost predicate LabelledBy(e: Edges, id: nat, m: int, v: nat, l: int)
  {
    exists k: nat :: Walk(e, id, v, k) && l == m + k
  }

  /** Labels only rise, and only to the length of a walk from `id` on top of `m`. */
  ghost predicate Raised(e: Edges, id: nat, m: int, before: seq<int>, after: seq<int>)
  {
    && |before| == |after|
    && id < |after|
    && after[id] >= m
    && (forall v :: 0 <= v < |after| ==> after[v] >= before[v])
    && (forall v :: 0 <= v < |after| && after[v] != before[v] ==> LabelledBy(e, id, m, v, after[v]))
  }

  /** The effect of a finished call: every raised label has been passed on along its edges. */
  ghost predicate Relaxed(e: Edges, id: nat, m: int, before: seq<int>, after: seq<int>)
  {
    && Raised(e, id, m, before, after)
    && forall u, c :: (u, c) in e && u < |after| && c < |after| && after[u] != before[u] ==> after[c] > after[u]
  }

  /** The same in the middle of a call that has visited the children in `done`. */
  ghost predicate Relaxing(e: Edges, id: nat, m: int, before: seq<int>, now: seq<int>, done: set<nat>)
  {
    && Raised(e, id, m, before, now)
    && now[id] == m
    && (forall c :: c in done && c < |now| ==> now[c] > m)
    && forall u, c :: (u, c) in e && u != id && u < |now| && c < |now| && now[u] != before[u] ==> now[c] > now[u]
  }

  /** Writing the new label starts the call. */
  lemma RelaxingAtStart(e: Edges, id: nat, m: int, before: seq<int>)
    requires id < |before| && before[id] < m
    ensures Relaxing(e, id, m, before, before[id := m], {})
  {
    assert Walk(e, id, id, 0);
  }

  /** A call that has visited all children is finished. */
  lemma RelaxedAtEnd(e: Edges, id: nat, m: int, before: seq<int>, now: seq<int>, done: set<nat>)
    requires Relaxing(e, id, m, before, now, done)
    requires forall c :: (id, c) in e ==> c in done
    ensures Relaxed(e, id, m, before, now)
  {
  }

  lemma RelaxChild(e: Edges, id: nat, m: int, before: seq<int>, mid: seq<int>, after: seq<int>, done: set<nat>, c: nat)
    requires Acyclic(e) && (id, c) in e
    requires Relaxing(e, id, m, before, mid, done) && Relaxed(e, c, m + 1, mid, after)
    ensures Relaxing(e, id, m, before, after, done + {c})
  {
    EdgeIsWalk(e, id, c);
    forall v | 0 <= v < |after| && after[v] != mid[v]
      ensures LabelledBy(e, id, m, v, after[v]) && v != id
    {
      var k: nat :| Walk(e, c, v, k) && after[v] == m + 1 + k;
      WalkAppend(e, id, c, v, 1, k);
      if v == id {
        assert Precedes(e, id, id);
      }
    }
    assert after[id] == mid[id];
  }

  /** From labels of -1, a call at `x` with level 0 gives every node its level. */
  lemma RelaxedGivesLevels(e: Edges, x: nat, before: seq<int>, after: seq<int>)
    requires Acyclic(e) && WithinNodes(e, |before|)
    requires forall v :: 0 <= v < |before| ==> before[v] == -1
    requires Relaxed(e, x, 0, before, after)
    ensures AllLevels(e, x, after)
  {
    forall v: nat | v < |after|
      ensures IsLevel(e, x, v, after[v])
    {
      forall k: nat | Walk(e, x, v, k)
        ensures k <= after[v]
      {
        LongAsWalk(e, x, after, v, k);
      }
      if after[v] != before[v] {
        var k: nat :| Walk(e, x, v, k) && after[v] == k;
      }
    }
  }

  lemma {:induction false} LongAsWalk(e: Edges, x: nat, after: seq<int>, v: nat, k: nat)
    requires WithinNodes(e, |after|) && x < |after| && after[x] >= 0 && v < |after|
    requires forall u, c :: (u, c) in e && after[u] >= 0 ==> after[c] > after[u]
    requires Walk(e, x, v, k)
    ensures after[v] >= k
    decreases k
  {
    if k > 0 {
      var u: nat :| Walk(e, x, u, k - 1) && (u, v) in e;
      LongAsWalk(e, x, after, u, k - 1);
    }
  }

  /** On an edge from a reached node, the level rises. */
  lemma LevelRises(e: Edges, x: nat, level: seq<int>, u: nat, v: nat)
    requires AllLevels(e, x, level) && (u, v) in e && u < |level| && v < |level| && Reaches(e, x, u)
    ensures 0 <= level[u] < level[v]
  {
    assert IsLevel(e, x, u, level[u]) && IsLevel(e, x, v, level[v]);
    assert Walk(e, x, v, level[u] + 1);
  }

  // ---------- Termination ----------

  ghost function Rank(r: map<nat, nat>, x: nat): nat
  {
    if x in r then r[x] else 0
  }

  ghost predicate RankBelow(e: Edges, r: map<nat, nat>, top: nat)
  {
    Ranked(e, r) && forall x :: x in r ==> r[x] < top
  }

  lemma RankBelowAcyclic(e: Edges, r: map<nat, nat>, top: nat)
    requires RankBelow(e, r, top)
    ensures Acyclic(e)
  {
    AcyclicIffRanked(e);
  }

  lemma AcyclicHasRank(e: Edges) returns (r: map<nat, nat>, top: nat)
    requires Acyclic(e)
    ensures RankBelow(e, r, top)
  {
    AcyclicIffRanked(e);
    r :| Ranked(e, r);
    top := BoundedValues(r);
  }

  // ---------- Levels of chains ----------

  ghost predicate Child(dependencies: map<nat, set<nat>>, p: nat, c: nat)
  {
    p in dependencies && c in dependencies[p]
  }

  /** `e` are the edges of the dependency map. */
  ghost predicate DependenciesAre(dependencies: map<nat, set<nat>>, e: Edges)
  {
    forall p: nat, c: nat {:trigger Child(dependencies, p, c)} :: Child(dependencies, p, c) <==> (p, c) in e
  }

  lemma ChildrenVisited(dependencies: map<nat, set<nat>>, e: Edges, id: nat, done: set<nat>)
    requires DependenciesAre(dependencies, e)
    requires id in dependencies ==> dependencies[id] <= done
    ensures forall c :: (id, c) in e ==> c in done
  {
    forall c | (id, c) in e
      ensures c in done
    {
      assert Child(dependencies, id, c);
    }
  }

  method FindChainsLevel(mLevel: int, id: nat, dependencies: map<nat, set<nat>>, level: array<int>,
                         ghost e: Edges, ghost r: map<nat, nat>, ghost top: nat)
    requires DependenciesAre(dependencies, e) && RankBelow(e, r, top)
    requires id < level.Length && WithinNodes(e, level.Length)
    modifies level
    ensures Relaxed(e, id, mLevel, old(level[..]), level[..])
    decreases top - Rank(r, id)
  {
    ghost var before := level[..];
    RankBelowAcyclic(e, r, top);
    if level[id] < mLevel {
      level[id] := mLevel;
      assert level[..] == before[id := mLevel];
      RelaxingAtStart(e, id, mLevel, before);
      ghost var done: set<nat> := {};
      if id in dependencies {
        var todo := dependencies[id];
        while todo != {}
          invariant Relaxing(e, id, mLevel, before, level[..], done)
          invariant dependencies[id] == todo + done
        {
          var dep :| dep in todo;
          assert Child(dependencies, id, dep);
          ghost var mid := level[..];
          FindChainsLevel(mLevel + 1, dep, dependencies, level, e, r, top);
          RelaxChild(e, id, mLevel, before, mid, level[..], done, dep);
          todo, done := todo - {dep}, done + {dep};
        }
      }
      ChildrenVisited(dependencies, e, id, done);
      RelaxedAtEnd(e, id, mLevel, before, level[..], done);
    }
  }

  /** The levels of `n` chains, from chain 0. */
  method ChainLevels(dependencies: map<nat, set<nat>>, n: nat) returns (level: array<int>)
    requires n > 0 && WithinNodes(MapEdges(dependencies), n) && Acyclic(MapEdges(dependencies))
    ensures fresh(level) && level.Length == n
    ensures AllLevels(MapEdges(dependencies), 0, level[..])
  {
    level := new int[n](_ => -1);
    ghost var before := level[..];
    ghost var r, top := AcyclicHasRank(MapEdges(dependencies));
    FindChainsLevel(0, 0, dependencies, level, MapEdges(dependencies), r, top);
    RelaxedGivesLevels(MapEdges(dependencies), 0, before, level[..]);
  }

  // ---------- Levels of vertices ----------

  /** The number of edges into `v`, parallel edges included, from the first `n` vertices. */
  function InDegree(g: Graph, v: nat, n: nat): nat
    requires n <= |g.out|
  {
    if n == 0 then 0 else InDegree(g, v, n - 1) + multiset(g.out[n - 1])[v]
  }

  /** The edges that the traversal follows: out of vertex 0 only those to vertices of in-degree 1. */
  ghost predicate Followed(g: Graph, u: nat, v: nat)
  {
    HasEdge(g, u, v) && (u == 0 ==> InDegree(g, v, |g.out|) == 1)
  }

  ghost function FollowedEdges(g: Graph): Edges
  {
    set u, v | 0 <= u < |g.out| && v in g.out[u] && Followed(g, u, v) :: (u, v)
  }

  lemma FollowedEdge(g: Graph, u: nat, v: nat)
    ensures (u, v) in FollowedEdges(g) <==> Followed(g, u, v)
  {
  }

  /** `e` are the followed edges. */
  ghost predicate FollowedAre(g: Graph, e: Edges)
  {
    forall u: nat, v: nat {:trigger Followed(g, u, v)} :: Followed(g, u, v) <==> (u, v) in e
  }

  lemma FollowedVisited(g: Graph, e: Edges, id: nat, done: set<nat>)
    requires FollowedAre(g, e) && id < |g.out|
    requires forall a :: 0 <= a < |g.out[id]| && (id, g.out[id][a]) in e ==> g.out[id][a] in done
    ensures forall c :: (id, c) in e ==> c in done
  {
    forall c | (id, c) in e
      ensures c in done
    {
      assert Followed(g, id, c);
    }
  }

  method FindGraphLevel(g: Graph, id: nat, level: array<int>, currentLevel: int,
                        ghost e: Edges, ghost r: map<nat, nat>, ghost top: nat)
    requires ValidGraph(g) && id < level.Length == |g.out|
    requires FollowedAre(g, e) && RankBelow(e, r, top)
    modifies level
    ensures Relaxed(e, id, currentLevel, old(level[..]), level[..])
    decreases top - Rank(r, id)
  {
    ghost var before := level[..];
    RankBelowAcyclic(e, r, top);
    if level[id] < currentLevel {
      level[id] := currentLevel;
      assert level[..] == before[id := currentLevel];
      RelaxingAtStart(e, id, currentLevel, before);
      ghost var done: set<nat> := {};
      var out: seq<nat> := g.out[id];
      for k := 0 to |out|
        invariant Relaxing(e, id, currentLevel, before, level[..], done)
        invariant forall a :: 0 <= a < k && (id, out[a]) in e ==> out[a] in done
      {
        assert HasEdge(g, id, out[k]);
        assert Followed(g, id, out[k]) <==> (id, out[k]) in e;
        if id != 0 || InDegree(g, out[k], |g.out|) == 1 {
          ghost var mid := level[..];
          FindGraphLevel(g, out[k], level, currentLevel + 1, e, r, top);
          RelaxChild(e, id, currentLevel, before, mid, level[..], done, out[k]);
          done := done + {out[k]};
        }
      }
      FollowedVisited(g, e, id, done);
      RelaxedAtEnd(e, id, currentLevel, before, level[..], done);
    }
  }

  /** Vertex 0 leads to `p` and `p` has an edge to `v`. */
  ghost predicate OtherParent(g: Graph, p: nat, v: nat)
  {
    p != 0 && HasEdge(g, p, v) && Reaches(GraphEdges(g), 0, p)
  }

  /** Every child of vertex 0 has in-degree 1 or a reached parent other than vertex 0. */
  ghost predicate ChildrenCovered(g: Graph)
  {
    forall v: nat :: HasEdge(g, 0, v) ==> InDegree(g, v, |g.out|) == 1 || exists p: nat :: OtherParent(g, p, v)
  }

  /** The levels of all vertices; they are the longest-path lengths in the whole graph exactly when
      every child of vertex 0 is covered. */
  method GraphLevels(g: Graph) returns (level: array<int>)
    requires ValidGraph(g) && |g.out| > 0 && Acyclic(GraphEdges(g))
    ensures fresh(level) && level.Length == |g.out|
    ensures AllLevels(FollowedEdges(g), 0, level[..])
    ensures AllLevels(GraphEdges(g), 0, level[..]) <==> ChildrenCovered(g)
  {
    level := new int[|g.out|](_ => -1);
    ghost var before := level[..];
    FollowedIsSubgraph(g);
    ghost var r, top := AcyclicHasRank(FollowedEdges(g));
    FindGraphLevel(g, 0, level, 0, FollowedEdges(g), r, top);
    RelaxedGivesLevels(FollowedEdges(g), 0, before, level[..]);
    LevelsIffCovered(g, level[..]);
  }

  lemma {:induction false} FollowedWalk(g: Graph, x: nat, y: nat, k: nat)
    requires Walk(FollowedEdges(g), x, y, k)
    ensures Walk(GraphEdges(g), x, y, k)
    decreases k
  {
    if k > 0 {
      var z: nat :| Walk(FollowedEdges(g), x, z, k - 1) && (z, y) in FollowedEdges(g);
      FollowedWalk(g, x, z, k - 1);
      assert (z, y) in GraphEdges(g);
    }
  }

  lemma FollowedIsSubgraph(g: Graph)
    requires Acyclic(GraphEdges(g))
    ensures Acyclic(FollowedEdges(g))
  {
    forall x: nat
      ensures !Precedes(FollowedEdges(g), x, x)
    {
      if k: nat :| k > 0 && Walk(FollowedEdges(g), x, x, k) {
        FollowedWalk(g, x, x, k);
        assert Precedes(GraphEdges(g), x, x);
      }
    }
  }

  /** A walk of `k` edges from 0 to `v` can end with an edge of `f`, and then is no shorter. */
  ghost predicate EndsWith(e: Edges, f: Edges, r: map<nat, nat>, v: nat, k: nat)
  {
    exists u: nat, i: nat :: (u, v) in f && Walk(e, 0, u, i) && Rank(r, u) < Rank(r, v) && i + 1 >= k
  }

  /** A vertex that vertex 0 leads to is a child that is followed, or has a reached parent other than 0. */
  lemma LastEdge(g: Graph, r: map<nat, nat>, v: nat, k: nat) returns (u: nat, i: nat)
    requires Ranked(GraphEdges(g), r) && ChildrenCovered(g)
    requires k > 0 && Walk(GraphEdges(g), 0, v, k)
    ensures Followed(g, u, v) && Walk(GraphEdges(g), 0, u, i) && Rank(r, u) < Rank(r, v) && i + 1 >= k
  {
    u :| Walk(GraphEdges(g), 0, u, k - 1) && (u, v) in GraphEdges(g);
    i := k - 1;
    assert HasEdge(g, u, v);
    if u == 0 {
      if k > 1 {
        RankAlongWalk(GraphEdges(g), r, 0, 0, k - 1);
      }
      if InDegree(g, v, |g.out|) != 1 {
        u :| OtherParent(g, u, v);
        i :| Walk(GraphEdges(g), 0, u, i);
        assert (u, v) in GraphEdges(g);
      }
    }
  }

  lemma LastFollowed(g: Graph, r: map<nat, nat>, v: nat, k: nat)
    requires Ranked(GraphEdges(g), r) && ChildrenCovered(g)
    requires k > 0 && Walk(GraphEdges(g), 0, v, k)
    ensures EndsWith(GraphEdges(g), FollowedEdges(g), r, v, k)
  {
    var u, i := LastEdge(g, r, v, k);
    FollowedEdge(g, u, v);
  }

  /** Where walks of `e` can end with an edge of `f`, every walk of `e` is matched by one of `f` at least as long. */
  lemma {:induction false} FollowedAsLong(e: Edges, f: Edges, r: map<nat, nat>, v: nat, k: nat) returns (j: nat)
    requires forall w: nat, n: nat {:trigger EndsWith(e, f, r, w, n)} ::
               n > 0 && Walk(e, 0, w, n) ==> EndsWith(e, f, r, w, n)
    requires Walk(e, 0, v, k)
    ensures j >= k && Walk(f, 0, v, j)
    decreases Rank(r, v)
  {
    j := 0;
    if k > 0 {
      assert EndsWith(e, f, r, v, k);
      var u: nat, i: nat :| (u, v) in f && Walk(e, 0, u, i) && Rank(r, u) < Rank(r, v) && i + 1 >= k;
      j := FollowedAsLong(e, f, r, u, i);
      j := j + 1;
    }
  }

  lemma LevelsWhenCovered(g: Graph, level: seq<int>)
    requires ValidGraph(g) && |level| == |g.out| && Acyclic(GraphEdges(g)) && AllLevels(FollowedEdges(g), 0, level)
    requires ChildrenCovered(g)
    ensures AllLevels(GraphEdges(g), 0, level)
  {
    var e, f := GraphEdges(g), FollowedEdges(g);
    AcyclicIffRanked(e);
    var r :| Ranked(e, r);
    forall v: nat, k: nat | k > 0 && Walk(e, 0, v, k)
      ensures EndsWith(e, f, r, v, k)
    {
      LastFollowed(g, r, v, k);
    }
    forall v: nat | v < |level|
      ensures IsLevel(e, 0, v, level[v])
    {
      assert IsLevel(f, 0, v, level[v]);
      forall k: nat | Walk(e, 0, v, k)
        ensures k <= level[v] && Reaches(f, 0, v)
      {
        var j := FollowedAsLong(e, f, r, v, k);
      }
      if Reaches(f, 0, v) {
        FollowedWalk(g, 0, v, level[v]);
      }
    }
  }

  lemma LevelsIffCovered(g: Graph, level: seq<int>)
    requires ValidGraph(g) && |level| == |g.out| > 0 && Acyclic(GraphEdges(g)) && AllLevels(FollowedEdges(g), 0, level)
    ensures AllLevels(GraphEdges(g), 0, level) <==> ChildrenCovered(g)
  {
    var e, f := GraphEdges(g), FollowedEdges(g);
    if ChildrenCovered(g) {
      LevelsWhenCovered(g, level);
    }
    if AllLevels(e, 0, level) {
      forall v: nat | HasEdge(g, 0, v) && InDegree(g, v, |g.out|) != 1
        ensures exists p: nat :: OtherParent(g, p, v)
      {
        assert (0, v) in e && v < |g.out|;
        EdgeIsWalk(e, 0, v);
        assert IsLevel(e, 0, v, level[v]) && IsLevel(f, 0, v, level[v]);
        var u: nat :| Walk(f, 0, u, level[v] - 1) && (u, v) in f;
        FollowedWalk(g, 0, u, level[v] - 1);
        assert OtherParent(g, u, v);
      }
    }
  }

  ghost predicate Simple(g: Graph)
  {
    forall u :: 0 <= u < |g.out| ==> NoRepeats(g.out[u])
  }

  lemma {:induction false} OnlyFromZero(g: Graph, v: nat, n: nat)
    requires 0 < n <= |g.out| && forall p: nat :: HasEdge(g, p, v) ==> p == 0
    ensures InDegree(g, v, n) == multiset(g.out[0])[v]
    decreases n
  {
    if n > 1 {
      OnlyFromZero(g, v, n - 1);
      assert !HasEdge(g, n - 1, v);
    }
  }

  lemma {:induction false} CountOnce(s: seq<nat>, v: nat)
    requires NoRepeats(s) && v in s
    ensures multiset(s)[v] == 1
  {
    var n := |s| - 1;
    assert s == s[..n] + [s[n]];
    if s[n] != v {
      CountOnce(s[..n], v);
    }
  }

  /** In a simple graph whose vertices can all be reached from vertex 0, the children of vertex 0 are covered. */
  lemma SimpleGraphsCovered(g: Graph)
    requires ValidGraph(g) && Simple(g) && forall v: nat :: v < |g.out| ==> Reaches(GraphEdges(g), 0, v)
    ensures ChildrenCovered(g)
  {
    forall v: nat | HasEdge(g, 0, v) && InDegree(g, v, |g.out|) != 1
      ensures exists p: nat :: OtherParent(g, p, v)
    {
      if p: nat :| p != 0 && HasEdge(g, p, v) {
        assert OtherParent(g, p, v);
      } else {
        OnlyFromZero(g, v, |g.out|);
        CountOnce(g.out[0], v);
      }
    }
  }

  lemma ParallelGraph(g: Graph)
    requires g == Graph([[1, 1], []])
    ensures ValidGraph(g) && GraphEdges(g) == {(0, 1)} && FollowedEdges(g) == {} && InDegree(g, 1, 2) == 2
  {
    assert g.out[0] == [1, 1] && g.out[1] == [];
    assert InDegree(g, 1, 1) == 2 && InDegree(g, 1, 2) == 2;
    assert forall u: nat, v: nat :: HasEdge(g, u, v) <==> u == 0 && v == 1;
    forall u: nat, v: nat
      ensures (u, v) !in FollowedEdges(g)
    {
      FollowedEdge(g, u, v);
    }
  }

  lemma SingleEdgeWalks(e: Edges)
    requires e == {(0, 1)}
    ensures Acyclic(e) && Reaches(e, 0, 0) && Reaches(e, 0, 1) && LongestWalk(e, 0, 1, 1)
  {
    var r: map<nat, nat> := map[0 := 0, 1 := 1];
    assert Ranked(e, r);
    AcyclicIffRanked(e);
    assert Walk(e, 0, 0, 0);
    EdgeIsWalk(e, 0, 1);
    forall k: nat | Walk(e, 0, 1, k)
      ensures k <= 1
    {
      if k > 0 {
        RankAlongWalk(e, r, 0, 1, k);
      }
    }
  }

  /** Two parallel edges from vertex 0 to vertex 1, which so keeps the level -1. */
  lemma ParallelEdgesMissed()
    ensures var g := Graph([[1, 1], []]);
            && ValidGraph(g) && Acyclic(GraphEdges(g)) && Reaches(GraphEdges(g), 0, 0) && Reaches(GraphEdges(g), 0, 1)
            && !ChildrenCovered(g)
            && LongestWalk(GraphEdges(g), 0, 1, 1) && AllLevels(FollowedEdges(g), 0, [0, -1])
  {
    var g := Graph([[1, 1], []]);
    ParallelGraph(g);
    SingleEdgeWalks(GraphEdges(g));
    assert (0, 1) in GraphEdges(g) && HasEdge(g, 0, 1);
    forall p: nat
      ensures !OtherParent(g, p, 1)
    {
      assert HasEdge(g, p, 1) ==> (p, 1) in GraphEdges(g);
    }
    assert FollowedEdges(g) == {};
    assert Walk(FollowedEdges(g), 0, 0, 0);
    forall k: nat
      ensures !Walk(FollowedEdges(g), 0, 1, k)
    {
    }
    forall k: nat | Walk(FollowedEdges(g), 0, 0, k)
      ensures k == 0
    {
    }
  }
}
