/**
 The dataflow graph, its decomposition into chains, and the dependencies between
 chains (src/newGraph.cpp).
 */
module Chains {
  import opened Sequences
  import opened Digraph

  /** A directed graph on the vertices 0..|out|-1; `out[u]` lists the targets of the out-edges of `u`. */
  datatype Graph = Graph(out: seq<seq<nat>>)

  datatype Dependency = Dependency(source: nat, target: nat)

  ghost predicate ValidGraph(g: Graph)
  {
    forall u, v :: 0 <= u < |g.out| && v in g.out[u] ==> v < |g.out|
  }

  predicate HasEdge(g: Graph, u: nat, v: nat)
  {
    u < |g.out| && v in g.out[u]
  }

  ghost function GraphEdges(g: Graph): Edges
  {
    set u, v | 0 <= u < |g.out| && v in g.out[u] :: (u, v)
  }

  // ---------- Chains ----------

  ghost predicate Chained(chains: seq<seq<nat>>, v: nat)
  {
    exists i :: 0 <= i < |chains| && v in chains[i]
  }

  /** The chains split the vertices: no chain is empty, and every vertex is in
      exactly one chain, exactly once. */
  ghost predicate Partition(g: Graph, chains: seq<seq<nat>>)
  {
    && (forall i :: 0 <= i < |chains| ==> chains[i] != [] && NoRepeats(chains[i]))
    && (forall i, v :: 0 <= i < |chains| && v in chains[i] ==> v < |g.out|)
    && (forall i, k, v :: 0 <= i < |chains| && 0 <= k < |chains| && v in chains[i] && v in chains[k] ==> i == k)
    && (forall v: nat :: v < |g.out| ==> Chained(chains, v))
  }

  /** Edges between two vertices of one chain go from an earlier to a later position. */
  ghost predicate Forward(g: Graph, chain: seq<nat>)
  {
    forall a, b :: 0 <= a < |chain| && 0 <= b < |chain| && HasEdge(g, chain[a], chain[b]) ==> a < b
  }

  ghost predicate AllForward(g: Graph, chains: seq<seq<nat>>)
  {
    forall i :: 0 <= i < |chains| ==> Forward(g, chains[i])
  }

  ghost predicate Crosses(g: Graph, a: seq<nat>, b: seq<nat>)
  {
    exists u, v :: u in a && v in b && HasEdge(g, u, v)
  }

  /** Chain `j` depends on chain `i`: an edge leads from `i` into `j`. */
  ghost predicate Depends(g: Graph, chains: seq<seq<nat>>, i: nat, j: nat)
  {
    i < |chains| && j < |chains| && i != j && Crosses(g, chains[i], chains[j])
  }

  ghost function ChainEdges(g: Graph, chains: seq<seq<nat>>): Edges
  {
    set i, j | 0 <= i < |chains| && 0 <= j < |chains| && Depends(g, chains, i, j) :: (i, j)
  }

  lemma ChainEdge(g: Graph, chains: seq<seq<nat>>, i: nat, j: nat)
    ensures (i, j) in ChainEdges(g, chains) <==> Depends(g, chains, i, j)
  {
  }

  lemma EdgeDepends(g: Graph, chains: seq<seq<nat>>, i: nat, j: nat, u: nat, v: nat)
    requires i < |chains| && j < |chains| && i != j && u in chains[i] && v in chains[j] && HasEdge(g, u, v)
    ensures (i, j) in ChainEdges(g, chains)
  {
    assert Crosses(g, chains[i], chains[j]);
  }

  /** What every pass keeps: an exact partition, forward chains and an acyclic chain graph. */
  ghost predicate WellChained(g: Graph, chains: seq<seq<nat>>)
  {
    Partition(g, chains) && AllForward(g, chains) && Acyclic(ChainEdges(g, chains))
  }

  // ---------- The maps built from a decomposition ----------

  /** `m` maps the vertices of the chains, and no others, each to the first chain that holds it. */
  ghost predicate FirstChains(chains: seq<seq<nat>>, m: map<nat, nat>)
  {
    && (forall v :: v in m ==> m[v] < |chains| && v in chains[m[v]])
    && (forall i, v :: 0 <= i < |chains| && v in chains[i] ==> v in m && m[v] <= i)
  }

  lemma MapNext(chains: seq<seq<nat>>, c: seq<nat>, v: nat, m: map<nat, nat>)
    requires FirstChains(chains + [c], m)
    ensures FirstChains(chains + [c + [v]], if v in m then m else m[v := |chains|])
  {
    var before, after := chains + [c], chains + [c + [v]];
    forall i | 0 <= i < |before|
      ensures forall x :: x in after[i] <==> x in before[i] || (i == |chains| && x == v)
    {
    }
    forall x | x in m
      ensures x in after[m[x]]
    {
      assert x in before[m[x]];
    }
  }

  lemma MapEmpty(chains: seq<seq<nat>>, m: map<nat, nat>)
    requires FirstChains(chains, m)
    ensures FirstChains(chains + [[]], m)
  {
    forall v | v in m
      ensures v in (chains + [[]])[m[v]]
    {
      assert (chains + [[]])[m[v]] == chains[m[v]];
    }
  }

  /** Every vertex with the first chain that holds it. */
  ghost function Owners(chains: seq<seq<nat>>): map<nat, nat>
  {
    if chains == [] then map[]
    else
      var n := |chains| - 1;
      (map v | v in chains[n] :: n) + Owners(chains[..n])
  }

  lemma {:induction false} OwnersFirst(chains: seq<seq<nat>>)
    ensures FirstChains(chains, Owners(chains))
  {
    if chains != [] {
      var n := |chains| - 1;
      OwnersFirst(chains[..n]);
      OwnersMore(chains[..n], chains[n], Owners(chains[..n]));
      assert chains[..n] + [chains[n]] == chains;
    }
  }

  lemma OwnersMore(chains: seq<seq<nat>>, c: seq<nat>, m: map<nat, nat>)
    requires FirstChains(chains, m)
    ensures FirstChains(chains + [c], (map v | v in c :: |chains|) + m)
  {
    var all, more := chains + [c], (map v | v in c :: |chains|) + m;
    forall v | v in more
      ensures more[v] < |all| && v in all[more[v]]
    {
      if v in m {
        assert all[m[v]] == chains[m[v]];
      }
    }
    forall i, v | 0 <= i < |all| && v in all[i]
      ensures v in more && more[v] <= i
    {
      assert i < |chains| ==> v in chains[i];
    }
  }

  lemma FirstChainsUnique(chains: seq<seq<nat>>, m: map<nat, nat>)
    requires FirstChains(chains, m)
    ensures m == Owners(chains)
  {
    OwnersFirst(chains);
    var o := Owners(chains);
    assert forall v :: v in m <==> v in o;
    assert forall v :: v in m ==> m[v] == o[v];
  }

  method VertexToChainMap(chains: seq<seq<nat>>) returns (m: map<nat, nat>)
    ensures FirstChains(chains, m) && m == Owners(chains)
  {
    m := map[];
    for i := 0 to |chains|
      invariant FirstChains(chains[..i], m)
    {
      MapEmpty(chains[..i], m);
      for j := 0 to |chains[i]|
        invariant FirstChains(chains[..i] + [chains[i][..j]], m)
      {
        MapNext(chains[..i], chains[i][..j], chains[i][j], m);
        assert chains[i][..j + 1] == chains[i][..j] + [chains[i][j]];
        if chains[i][j] !in m {
          m := m[chains[i][j] := i];
        }
      }
      assert chains[i][..|chains[i]|] == chains[i];
      assert chains[..i + 1] == chains[..i] + [chains[i]];
    }
    assert chains[..|chains|] == chains;
    FirstChainsUnique(chains, m);
  }

  ghost predicate InGraph(g: Graph, c: seq<nat>)
  {
    forall a :: 0 <= a < |c| ==> c[a] < |g.out|
  }

  ghost predicate Lists(g: Graph, chains: seq<seq<nat>>, deps: seq<Dependency>)
  {
    forall i: nat, j: nat :: Dependency(i, j) in deps <==> Depends(g, chains, i, j)
  }

  /** The entries for the first `t` out-edges of a vertex `u` of chain `j`, in order: one for each edge out of the chain. */
  ghost function EdgeDeps(g: Graph, c: seq<nat>, chainOf: map<nat, nat>, j: nat, u: nat, t: nat): seq<Dependency>
    requires u < |g.out| && t <= |g.out[u]|
  {
    if t == 0 then []
    else
      var v := g.out[u][t - 1];
      EdgeDeps(g, c, chainOf, j, u, t - 1) +
      if v in c || v !in chainOf then [] else [Dependency(j, chainOf[v])]
  }

  /** The entries for the first `a` vertices of chain `j`. */
  ghost function VertexDeps(g: Graph, c: seq<nat>, chainOf: map<nat, nat>, j: nat, a: nat): seq<Dependency>
    requires a <= |c| && InGraph(g, c)
  {
    if a == 0 then []
    else VertexDeps(g, c, chainOf, j, a - 1) + EdgeDeps(g, c, chainOf, j, c[a - 1], |g.out[c[a - 1]]|)
  }

  /** The entries for the first `j` chains. */
  ghost function ChainDeps(g: Graph, chains: seq<seq<nat>>, chainOf: map<nat, nat>, j: nat): seq<Dependency>
    requires j <= |chains| && forall i :: 0 <= i < |chains| ==> InGraph(g, chains[i])
  {
    if j == 0 then []
    else ChainDeps(g, chains, chainOf, j - 1) + VertexDeps(g, chains[j - 1], chainOf, j - 1, |chains[j - 1]|)
  }

  ghost predicate MapsChains(chains: seq<seq<nat>>, chainOf: map<nat, nat>)
  {
    forall i, v :: 0 <= i < |chains| && v in chains[i] ==> v in chainOf && chainOf[v] == i
  }

  /** Out-edge `q` of `u` leads out of the chain `c`, to chain `k`. */
  ghost predicate EntryAt(g: Graph, c: seq<nat>, chainOf: map<nat, nat>, u: nat, q: nat, k: nat)
    requires u < |g.out| && q < |g.out[u]|
  {
    var v := g.out[u][q];
    v !in c && v in chainOf && chainOf[v] == k
  }

  lemma {:induction false} EdgeDepsMembers(g: Graph, c: seq<nat>, chainOf: map<nat, nat>, j: nat, u: nat, t: nat,
                                           d: Dependency)
    requires u < |g.out| && t <= |g.out[u]|
    ensures d in EdgeDeps(g, c, chainOf, j, u, t) <==>
            d.source == j && exists q :: 0 <= q < t && EntryAt(g, c, chainOf, u, q, d.target)
  {
    if t > 0 {
      EdgeDepsMembers(g, c, chainOf, j, u, t - 1, d);
      if d.source == j && EntryAt(g, c, chainOf, u, t - 1, d.target) {
        assert d == Dependency(j, chainOf[g.out[u][t - 1]]);
      }
      assert d in EdgeDeps(g, c, chainOf, j, u, t) <==>
             d in EdgeDeps(g, c, chainOf, j, u, t - 1) || (d.source == j && EntryAt(g, c, chainOf, u, t - 1, d.target));
    }
  }

  lemma {:induction false} VertexDepsMembers(g: Graph, c: seq<nat>, chainOf: map<nat, nat>, j: nat, a: nat, d: Dependency)
    requires a <= |c| && InGraph(g, c)
    ensures d in VertexDeps(g, c, chainOf, j, a) <==>
            exists b :: 0 <= b < a && d in EdgeDeps(g, c, chainOf, j, c[b], |g.out[c[b]]|)
  {
    if a > 0 {
      VertexDepsMembers(g, c, chainOf, j, a - 1, d);
    }
  }

  lemma {:induction false} ChainDepsMembers(g: Graph, chains: seq<seq<nat>>, chainOf: map<nat, nat>, j: nat, d: Dependency)
    requires j <= |chains| && forall i :: 0 <= i < |chains| ==> InGraph(g, chains[i])
    ensures d in ChainDeps(g, chains, chainOf, j) <==>
            exists i :: 0 <= i < j && d in VertexDeps(g, chains[i], chainOf, i, |chains[i]|)
  {
    if j > 0 {
      ChainDepsMembers(g, chains, chainOf, j - 1, d);
    }
  }

  lemma EntryDepends(g: Graph, chains: seq<seq<nat>>, chainOf: map<nat, nat>, i: nat, d: Dependency)
    requires ValidGraph(g) && Partition(g, chains) && MapsChains(chains, chainOf) && i < |chains| && InGraph(g, chains[i])
    requires d in VertexDeps(g, chains[i], chainOf, i, |chains[i]|)
    ensures d.source == i && Depends(g, chains, i, d.target)
  {
    var c := chains[i];
    VertexDepsMembers(g, c, chainOf, i, |c|, d);
    var b :| 0 <= b < |c| && d in EdgeDeps(g, c, chainOf, i, c[b], |g.out[c[b]]|);
    var u := c[b];
    EdgeDepsMembers(g, c, chainOf, i, u, |g.out[u]|, d);
    var q :| 0 <= q < |g.out[u]| && EntryAt(g, c, chainOf, u, q, d.target);
    var v := g.out[u][q];
    assert u in c && HasEdge(g, u, v) && Chained(chains, v);
    var k :| 0 <= k < |chains| && v in chains[k];
    assert Crosses(g, c, chains[k]);
  }

  lemma DependsEntry(g: Graph, chains: seq<seq<nat>>, chainOf: map<nat, nat>, i: nat, k: nat)
    requires Partition(g, chains) && MapsChains(chains, chainOf) && i < |chains| && InGraph(g, chains[i])
    requires Depends(g, chains, i, k)
    ensures Dependency(i, k) in VertexDeps(g, chains[i], chainOf, i, |chains[i]|)
  {
    var c := chains[i];
    var d := Dependency(i, k);
    VertexDepsMembers(g, c, chainOf, i, |c|, d);
    var u, v :| u in c && v in chains[k] && HasEdge(g, u, v);
    var b :| 0 <= b < |c| && c[b] == u;
    var q :| 0 <= q < |g.out[u]| && g.out[u][q] == v;
    EdgeDepsMembers(g, c, chainOf, i, u, |g.out[u]|, d);
    assert EntryAt(g, c, chainOf, u, q, k);
  }

  /** The entries are the dependencies between the chains. */
  lemma AllDepsListed(g: Graph, chains: seq<seq<nat>>, chainOf: map<nat, nat>)
    requires ValidGraph(g) && Partition(g, chains) && MapsChains(chains, chainOf)
    requires forall i :: 0 <= i < |chains| ==> InGraph(g, chains[i])
    ensures Lists(g, chains, ChainDeps(g, chains, chainOf, |chains|))
  {
    forall i: nat, j: nat
      ensures Dependency(i, j) in ChainDeps(g, chains, chainOf, |chains|) <==> Depends(g, chains, i, j)
    {
      ChainDepsMembers(g, chains, chainOf, |chains|, Dependency(i, j));
      if Dependency(i, j) in ChainDeps(g, chains, chainOf, |chains|) {
        var k :| 0 <= k < |chains| && Dependency(i, j) in VertexDeps(g, chains[k], chainOf, k, |chains[k]|);
        EntryDepends(g, chains, chainOf, k, Dependency(i, j));
      }
      if Depends(g, chains, i, j) {
        DependsEntry(g, chains, chainOf, i, j);
      }
    }
  }

  /** What the lookups of `dependencies_generate` need. */
  ghost predicate Mapped(g: Graph, c: seq<nat>, chainOf: map<nat, nat>, j: nat)
    requires InGraph(g, c)
  {
    && (forall a :: 0 <= a < |c| ==> c[a] in chainOf && chainOf[c[a]] == j)
    && (forall a, t :: 0 <= a < |c| && 0 <= t < |g.out[c[a]]| ==> g.out[c[a]][t] in chainOf)
  }

  lemma AllMapped(g: Graph, chains: seq<seq<nat>>, chainOf: map<nat, nat>)
    requires ValidGraph(g) && Partition(g, chains) && MapsChains(chains, chainOf)
    ensures forall j :: 0 <= j < |chains| ==> InGraph(g, chains[j]) && Mapped(g, chains[j], chainOf, j)
    ensures Lists(g, chains, ChainDeps(g, chains, chainOf, |chains|))
  {
    forall j | 0 <= j < |chains|
      ensures InGraph(g, chains[j]) && Mapped(g, chains[j], chainOf, j)
    {
      var c: seq<nat> := chains[j];
      forall a: nat | a < |c|
        ensures c[a] < |g.out| && c[a] in chainOf && chainOf[c[a]] == j
      {
        assert c[a] in c;
      }
      forall a, t | 0 <= a < |c| && 0 <= t < |g.out[c[a]]|
        ensures g.out[c[a]][t] in chainOf
      {
        assert g.out[c[a]][t] in g.out[c[a]] && Chained(chains, g.out[c[a]][t]);
      }
    }
    AllDepsListed(g, chains, chainOf);
  }

  /** One entry for every edge of `u` that leaves its chain, parallel edges included. */
  method VertexEntries(g: Graph, c: seq<nat>, chainOf: map<nat, nat>, ghost j: nat, u: nat) returns (deps: seq<Dependency>)
    requires u < |g.out| && u in chainOf && chainOf[u] == j
    requires forall t :: 0 <= t < |g.out[u]| ==> g.out[u][t] in chainOf
    ensures deps == EdgeDeps(g, c, chainOf, j, u, |g.out[u]|)
  {
    deps := [];
    var out: seq<nat> := g.out[u];
    for t := 0 to |out|
      invariant deps == EdgeDeps(g, c, chainOf, j, u, t)
    {
      if out[t] !in c {
        deps := deps + [Dependency(chainOf[u], chainOf[out[t]])];
      }
    }
  }

  /** One entry for every edge that leaves its chain, parallel edges included, in the order of chains, vertices and edges. */
  method DependenciesGenerate(g: Graph, chains: seq<seq<nat>>, chainOf: map<nat, nat>)
    returns (deps: seq<Dependency>)
    requires forall j :: 0 <= j < |chains| ==> InGraph(g, chains[j]) && Mapped(g, chains[j], chainOf, j)
    ensures deps == ChainDeps(g, chains, chainOf, |chains|)
  {
    deps := [];
    for j := 0 to |chains|
      invariant deps == ChainDeps(g, chains, chainOf, j)
    {
      var c: seq<nat> := chains[j];
      assert InGraph(g, c) && Mapped(g, c, chainOf, j);
      ghost var before := deps;
      for a := 0 to |c|
        invariant deps == before + VertexDeps(g, c, chainOf, j, a)
      {
        var entries := VertexEntries(g, c, chainOf, j, c[a]);
        deps := deps + entries;
      }
    }
  }

  /** The targets of the entries of chain `p`, in order and with repetitions. */
  ghost function TargetsOf(deps: seq<Dependency>, p: nat): seq<nat>
  {
    if deps == [] then []
    else
      var last := deps[|deps| - 1];
      TargetsOf(deps[..|deps| - 1], p) + if last.source == p then [last.target] else []
  }

  lemma {:induction false} TargetsMembers(deps: seq<Dependency>, p: nat, c: nat)
    ensures c in TargetsOf(deps, p) <==> Dependency(p, c) in deps
  {
    if deps != [] {
      TargetsMembers(deps[..|deps| - 1], p, c);
      assert deps == deps[..|deps| - 1] + [deps[|deps| - 1]];
    }
  }

  /** The targets of every chain that has any, in order and with repetitions. */
  method HistoDependency(deps: seq<Dependency>) returns (m: map<nat, seq<nat>>)
    ensures forall p: nat :: if p in m then m[p] == TargetsOf(deps, p) != [] else TargetsOf(deps, p) == []
    ensures forall p, c :: p in m && c in m[p] <==> Dependency(p, c) in deps
  {
    m := map[];
    for k := 0 to |deps|
      invariant forall p: nat :: if p in m then m[p] == TargetsOf(deps[..k], p) != [] else TargetsOf(deps[..k], p) == []
    {
      assert deps[..k + 1][..k] == deps[..k];
      var soFar := if deps[k].source in m then m[deps[k].source] else [];
      m := m[deps[k].source := soFar + [deps[k].target]];
    }
    assert deps[..|deps|] == deps;
    forall p, c
      ensures p in m && c in m[p] <==> Dependency(p, c) in deps
    {
      TargetsMembers(deps, p, c);
    }
  }

  method UniqueDependency(histo: map<nat, seq<nat>>) returns (m: map<nat, set<nat>>)
    ensures forall p, c :: p in m && c in m[p] <==> p in histo && c in histo[p]
    ensures forall p :: p in m ==> m[p] != {}
  {
    m := map[];
    var todo := histo.Keys;
    while todo != {}
      invariant todo <= histo.Keys
      invariant forall p :: p in m ==> p in histo && p !in todo && m[p] != {}
      invariant forall p, c :: p in m && c in m[p] ==> c in histo[p]
      invariant forall p, c :: p in histo && p !in todo && c in histo[p] ==> p in m && c in m[p]
    {
      var p :| p in todo;
      for k := 0 to |histo[p]|
        invariant forall q :: q in m ==> q in histo && (q !in todo || q == p) && m[q] != {}
        invariant forall q, c :: q in m && c in m[q] ==> c in histo[q]
        invariant forall q, c :: q in histo && q !in todo && c in histo[q] ==> q in m && c in m[q]
        invariant forall a :: 0 <= a < k ==> p in m && histo[p][a] in m[p]
      {
        var before := if p in m then m[p] else {};
        m := m[p := before + {histo[p][k]}];
      }
      todo := todo - {p};
    }
  }

  /** Fan-in from fan-out. */
  method ReverseMapping(unique: map<nat, set<nat>>) returns (m: map<nat, set<nat>>)
    ensures forall p, c :: c in m && p in m[c] <==> p in unique && c in unique[p]
    ensures forall c :: c in m ==> m[c] != {}
  {
    m := map[];
    var todo := unique.Keys;
    while todo != {}
      invariant todo <= unique.Keys
      invariant forall c :: c in m ==> m[c] != {}
      invariant forall p, c :: c in m && p in m[c] <==> p in unique && p !in todo && c in unique[p]
    {
      var p :| p in todo;
      var rest := unique[p];
      todo := todo - {p};
      while rest != {}
        invariant rest <= unique[p]
        invariant forall c :: c in m ==> m[c] != {}
        invariant forall q, c :: c in m && q in m[c] <==>
                                 q in unique && q !in todo && c in unique[q] && (q == p ==> c !in rest)
      {
        var r :| r in rest;
        var before := if r in m then m[r] else {};
        m := m[r := before + {p}];
        rest := rest - {r};
      }
    }
  }

  /** `un_dependencies` as the compiler builds it from a decomposition. */
  method UniqueDependencies(g: Graph, chains: seq<seq<nat>>) returns (m: map<nat, set<nat>>)
    requires ValidGraph(g) && Partition(g, chains)
    ensures MapEdges(m) == ChainEdges(g, chains)
    ensures forall p :: p in m ==> m[p] != {}
  {
    var chainOf := VertexToChainMap(chains);
    AllMapped(g, chains, chainOf);
    var deps := DependenciesGenerate(g, chains, chainOf);
    var histo := HistoDependency(deps);
    m := UniqueDependency(histo);
    ListedEdges(g, chains, deps, m);
  }

  lemma ListedEdges(g: Graph, chains: seq<seq<nat>>, deps: seq<Dependency>, m: map<nat, set<nat>>)
    requires Lists(g, chains, deps)
    requires forall p, c :: p in m && c in m[p] <==> Dependency(p, c) in deps
    ensures MapEdges(m) == ChainEdges(g, chains)
  {
    forall p: nat, c: nat
      ensures (p, c) in MapEdges(m) <==> (p, c) in ChainEdges(g, chains)
    {
      ChainEdge(g, chains, p, c);
      assert Dependency(p, c) in deps <==> Depends(g, chains, p, c);
    }
  }
}
