/**
 Finite directed graphs given by their edges: walks, reachability, cycles, ranks
 and longest walks.  Both the vertex graph and the chain graph of the chain
 compiler are read through this module.
 */
module Digraph {

  type Edges = set<(nat, nat)>

  /** There is a walk of exactly `k` edges from `x` to `y`. */
  ghost predicate Walk(e: Edges, x: nat, y: nat, k: nat)
    decreases k
  {
    if k == 0 then x == y
    else exists z: nat :: Walk(e, x, z, k - 1) && (z, y) in e
  }

  ghost predicate Reaches(e: Edges, x: nat, y: nat)
  {
    exists k: nat :: Walk(e, x, y, k)
  }

  /** `x` reaches `y` by at least one edge. */
  ghost predicate Precedes(e: Edges, x: nat, y: nat)
  {
    exists k: nat :: k > 0 && Walk(e, x, y, k)
  }

  ghost predicate Acyclic(e: Edges)
  {
    forall x: nat :: !Precedes(e, x, x)
  }

  /** `r` numbers the ends of the edges so that every edge goes up. */
  ghost predicate Ranked(e: Edges, r: map<nat, nat>)
  {
    forall u, v :: (u, v) in e ==> u in r && v in r && r[u] < r[v]
  }

  /** The number of edges on a longest walk from `x` to `y` is `k`. */
  ghost predicate LongestWalk(e: Edges, x: nat, y: nat, k: nat)
  {
    Walk(e, x, y, k) && forall j: nat :: Walk(e, x, y, j) ==> j <= k
  }

  lemma {:induction false} WalkAppend(e: Edges, x: nat, y: nat, z: nat, j: nat, k: nat)
    requires Walk(e, x, y, j) && Walk(e, y, z, k)
    ensures Walk(e, x, z, j + k)
    decreases k
  {
    if k > 0 {
      var w: nat :| Walk(e, y, w, k - 1) && (w, z) in e;
      WalkAppend(e, x, y, w, j, k - 1);
      assert Walk(e, x, w, j + k - 1);
    }
  }

  lemma EdgeIsWalk(e: Edges, x: nat, y: nat)
    requires (x, y) in e
    ensures Walk(e, x, y, 1)
    ensures Precedes(e, x, y)
  {
    assert Walk(e, x, x, 0);
  }

  /** A walk of at least one edge starts with an edge. */
  lemma {:induction false} WalkFirst(e: Edges, x: nat, y: nat, k: nat) returns (z: nat)
    requires k > 0 && Walk(e, x, y, k)
    ensures (x, z) in e && Walk(e, z, y, k - 1)
    decreases k
  {
    var w: nat :| Walk(e, x, w, k - 1) && (w, y) in e;
    if k == 1 {
      z := y;
    } else {
      z := WalkFirst(e, x, w, k - 1);
      assert Walk(e, z, y, k - 1);
    }
  }

  lemma {:induction false} RankAlongWalk(e: Edges, r: map<nat, nat>, x: nat, y: nat, k: nat)
    requires Ranked(e, r) && Walk(e, x, y, k) && k > 0
    ensures x in r && y in r && r[x] + k <= r[y]
    decreases k
  {
    var w: nat :| Walk(e, x, w, k - 1) && (w, y) in e;
    if k > 1 {
      RankAlongWalk(e, r, x, w, k - 1);
    }
  }

  ghost function Nodes(e: Edges): set<nat>
  {
    (set p | p in e :: p.0) + (set p | p in e :: p.1)
  }

  ghost function Ancestors(e: Edges, x: nat): set<nat>
  {
    set y | y in Nodes(e) && Precedes(e, y, x)
  }

  lemma AncestorsGrow(e: Edges, u: nat, v: nat)
    requires Acyclic(e) && (u, v) in e
    ensures Ancestors(e, u) < Ancestors(e, v)
  {
    forall y | y in Ancestors(e, u)
      ensures y in Ancestors(e, v)
    {
      var k: nat :| k > 0 && Walk(e, y, u, k);
      assert Walk(e, y, v, k + 1);
    }
    EdgeIsWalk(e, u, v);
    assert (u, v).0 == u;
    assert u in Nodes(e);
    assert u in Ancestors(e, v) && u !in Ancestors(e, u);
  }

  lemma SubsetSmaller<T>(a: set<T>, b: set<T>)
    requires a < b
    ensures |a| < |b|
  {
    assert b == a + (b - a);
    assert b - a != {};
  }

  lemma {:induction false} BoundedValues(r: map<nat, nat>) returns (top: nat)
    ensures top > 0 && forall x :: x in r ==> r[x] < top
    decreases |r|
  {
    if r == map[] {
      top := 1;
    } else {
      var x :| x in r;
      var q := r - {x};
      assert q.Keys < r.Keys;
      SubsetSmaller(q.Keys, r.Keys);
      var rest := BoundedValues(q);
      top := rest + r[x] + 1;
      assert forall y :: y in r && y != x ==> y in q && q[y] == r[y];
    }
  }

  /** A finite graph is acyclic exactly when its nodes can be numbered so that
      every edge goes up. */
  lemma AcyclicIffRanked(e: Edges)
    ensures Acyclic(e) <==> exists r :: Ranked(e, r)
  {
    if Acyclic(e) {
      var r := map x | x in Nodes(e) :: |Ancestors(e, x)|;
      forall u, v | (u, v) in e
        ensures u in r && v in r && r[u] < r[v]
      {
        assert (u, v).0 == u && (u, v).1 == v;
        AncestorsGrow(e, u, v);
        SubsetSmaller(Ancestors(e, u), Ancestors(e, v));
      }
      assert Ranked(e, r);
    }
    if r :| Ranked(e, r) {
      forall x: nat
        ensures !Precedes(e, x, x)
      {
        if k: nat :| k > 0 && Walk(e, x, x, k) {
          RankAlongWalk(e, r, x, x, k);
        }
      }
    }
  }

  /** The edges of a dependency map `p -> {c, ...}`. */
  ghost function MapEdges(m: map<nat, set<nat>>): Edges
  {
    set p, c | p in m && c in m[p] :: (p, c)
  }

  lemma MapEdge(m: map<nat, set<nat>>, p: nat, c: nat)
    ensures (p, c) in MapEdges(m) <==> p in m && c in m[p]
  {
  }

  ghost predicate CycleReachable(e: Edges, x: nat)
  {
    exists y: nat :: Reaches(e, x, y) && Precedes(e, y, y)
  }
}
