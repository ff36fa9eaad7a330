/**
 Decomposition of a graph into chains from a maximum matching
 (include/DilworthDecomposition.hpp).  The matching is a mate map on two copies of the
 vertices: u is matched with n + v when the edge from u to v is in the matching.
 */
module Dilworth {
  import opened Sequences
  import opened Digraph
  import opened Chains
  import opened ChainSteps
  import opened PathCovers

  datatype Mate = NoMate | Mate(v: nat)

  /** The mate map of a matching: symmetric, and along edges. */
  ghost predicate MateMap(g: Graph, mate: seq<Mate>)
  {
    var n := |g.out|;
    && |mate| == 2 * n
    && (forall x :: 0 <= x < n && mate[x].Mate? ==>
                      n <= mate[x].v < 2 * n && HasEdge(g, x, mate[x].v - n) && mate[mate[x].v] == Mate(x))
    && (forall y :: n <= y < 2 * n && mate[y].Mate? ==> mate[y].v < n && mate[mate[y].v] == Mate(y))
  }

  ghost function MatchedEdges(n: nat, mate: seq<Mate>): Edges
    requires n <= |mate|
  {
    set x | 0 <= x < n && mate[x].Mate? && mate[x].v >= n :: (x, mate[x].v - n)
  }

  lemma MatchedEdge(g: Graph, mate: seq<Mate>, u: nat, v: nat)
    requires MateMap(g, mate)
    ensures (u, v) in MatchedEdges(|g.out|, mate) <==> u < |g.out| && mate[u] == Mate(|g.out| + v)
  {
    if u < |g.out| && mate[u] == Mate(|g.out| + v) {
      assert (u, mate[u].v - |g.out|) == (u, v);
    }
  }

  lemma MateMapMatches(g: Graph, mate: seq<Mate>)
    requires MateMap(g, mate)
    ensures Matching(g, MatchedEdges(|g.out|, mate))
  {
    var m := MatchedEdges(|g.out|, mate);
    forall u: nat, v: nat | (u, v) in m
      ensures u < |g.out| && mate[u] == Mate(|g.out| + v) && HasEdge(g, u, v) && mate[|g.out| + v] == Mate(u)
    {
      MatchedEdge(g, mate, u, v);
    }
  }

  // ---------- Extraction ----------

  /** Vertex `v` is matched onwards. */
  ghost predicate Matched(m: Edges, v: nat)
  {
    exists w: nat :: (v, w) in m
  }

  /** Vertices seen when the scan has reached `i`: those on or after a smaller matched vertex. */
  ghost predicate SeenBefore(m: Edges, i: nat, v: nat)
  {
    exists a: nat :: a < i && Matched(m, a) && Reaches(m, a, v)
  }

  /** A matched vertex starts a chain when no smaller vertex leads to it. */
  ghost predicate Starts(m: Edges, v: nat)
  {
    Matched(m, v) && !SeenBefore(m, v, v)
  }

  ghost predicate IsFront(m: Edges, v: nat)
  {
    forall u: nat :: (u, v) !in m
  }

  /** No chain starts in the middle of a matched path. */
  ghost predicate StartsAtFronts(m: Edges)
  {
    forall v: nat :: Starts(m, v) ==> IsFront(m, v)
  }

  /** If the edges of the matching go up, no chain starts in the middle of a path. */
  lemma UpwardStartsAtFronts(g: Graph, m: Edges)
    requires Matching(g, m) && forall u, v :: HasEdge(g, u, v) ==> u < v
    ensures StartsAtFronts(m)
  {
    forall u: nat, v: nat | (u, v) in m
      ensures !Starts(m, v)
    {
      EdgeIsWalk(m, u, v);
      assert Matched(m, u) && Reaches(m, u, v);
    }
  }

  /** The mates of seen vertices have been nulled, all others are as in the matching. */
  ghost predicate MatesLeft(n: nat, mate0: seq<Mate>, mate: seq<Mate>, seen: set<nat>)
  {
    && |mate| == |mate0| == 2 * n
    && (forall v :: v in seen ==> v < n)
    && (forall v: nat :: v < n ==> mate[v] == if v in seen then NoMate else mate0[v])
  }

  /** The chains so far: disjoint paths of the matching over the seen vertices, each begun at a start. */
  ghost predicate ChainsOk(m: Edges, seen: set<nat>, chains: seq<seq<nat>>)
  {
    && Apart(chains) && Vertices(chains) == seen
    && AllSteps(chains) <= m
    && (forall c :: 0 <= c < |chains| ==> Starts(m, chains[c][0]))
  }

  ghost predicate IsHead(chains: seq<seq<nat>>, v: nat)
  {
    exists c :: 0 <= c < |chains| && chains[c] != [] && chains[c][0] == v
  }

  /** When the scan has reached `i`, exactly the vertices behind smaller starts have been seen. */
  ghost predicate SeenTo(m: Edges, i: nat, seen: set<nat>)
  {
    forall v: nat :: v in seen <==> SeenBefore(m, i, v)
  }

  /** Every start below `i` begins a chain. */
  ghost predicate HeadsTo(m: Edges, i: nat, chains: seq<seq<nat>>)
  {
    forall v: nat :: v < i && Starts(m, v) ==> IsHead(chains, v)
  }

  ghost predicate ScannedTo(m: Edges, i: nat, seen: set<nat>, chains: seq<seq<nat>>)
  {
    SeenTo(m, i, seen) && HeadsTo(m, i, chains)
  }

  ghost predicate Closed(m: Edges, seen: set<nat>)
  {
    forall u, w :: (u, w) in m && u in seen ==> w in seen
  }

  lemma {:induction false} ClosedReach(m: Edges, seen: set<nat>, a: nat, v: nat, k: nat)
    requires Closed(m, seen) && a in seen && Walk(m, a, v, k)
    ensures v in seen
    decreases k
  {
    if k > 0 {
      var u: nat :| Walk(m, a, u, k - 1) && (u, v) in m;
      ClosedReach(m, seen, a, u, k - 1);
    }
  }

  lemma SeenIsClosed(m: Edges, i: nat, seen: set<nat>)
    requires SeenTo(m, i, seen)
    ensures Closed(m, seen)
  {
    forall u, w | (u, w) in m && u in seen
      ensures w in seen
    {
      var a: nat :| a < i && Matched(m, a) && Reaches(m, a, u);
      var k: nat :| Walk(m, a, u, k);
      assert Walk(m, a, w, k + 1);
      assert Reaches(m, a, w);
    }
  }

  lemma SkippedSeen(m: Edges, i: nat, seen: set<nat>)
    requires SeenTo(m, i, seen) && (i in seen || !Matched(m, i))
    ensures SeenTo(m, i + 1, seen)
  {
    SeenIsClosed(m, i, seen);
    forall v: nat
      ensures v in seen <==> SeenBefore(m, i + 1, v)
    {
      if v in seen {
        var a: nat :| a < i && Matched(m, a) && Reaches(m, a, v);
      }
      if i in seen && Reaches(m, i, v) {
        var k: nat :| Walk(m, i, v, k);
        ClosedReach(m, seen, i, v, k);
      }
    }
  }

  /** A vertex that is seen or unmatched adds nothing to the scan. */
  lemma ScanSkips(m: Edges, i: nat, seen: set<nat>, chains: seq<seq<nat>>)
    requires ScannedTo(m, i, seen, chains) && (i in seen || !Matched(m, i))
    ensures ScannedTo(m, i + 1, seen, chains)
  {
    SkippedSeen(m, i, seen);
    assert !Starts(m, i) by {
      if i in seen {
        assert SeenBefore(m, i, i);
      }
    }
  }

  /** A chain that was followed from `i` to its end. */
  ghost predicate Followed(m: Edges, i: nat, seen: set<nat>, chain: seq<nat>)
  {
    && chain != [] && chain[0] == i && NoRepeats(chain) && Steps(chain) <= m
    && (forall v :: v in chain ==> v !in seen && Reaches(m, i, v))
    && Closed(m, seen + Members(chain))
  }

  lemma AddedSeen(m: Edges, i: nat, seen: set<nat>, chain: seq<nat>)
    requires SeenTo(m, i, seen) && Followed(m, i, seen, chain) && Matched(m, i)
    ensures SeenTo(m, i + 1, seen + Members(chain))
  {
    forall v: nat
      ensures v in seen + Members(chain) <==> SeenBefore(m, i + 1, v)
    {
      if v in seen {
        var a: nat :| a < i && Matched(m, a) && Reaches(m, a, v);
      }
      if Reaches(m, i, v) {
        var k: nat :| Walk(m, i, v, k);
        assert chain[0] in chain;
        ClosedReach(m, seen + Members(chain), i, v, k);
      }
    }
  }

  lemma AddedHeads(m: Edges, i: nat, chains: seq<seq<nat>>, chain: seq<nat>)
    requires HeadsTo(m, i, chains) && chain != [] && chain[0] == i
    ensures HeadsTo(m, i + 1, chains + [chain])
  {
    var all := chains + [chain];
    forall v: nat | v < i + 1 && Starts(m, v)
      ensures IsHead(all, v)
    {
      if v < i {
        var c :| 0 <= c < |chains| && chains[c] != [] && chains[c][0] == v;
        assert all[c][0] == v;
      } else {
        assert all[|chains|][0] == v;
      }
    }
  }

  lemma StartsChain(m: Edges, i: nat, seen: set<nat>, chain: seq<nat>)
    requires SeenTo(m, i, seen) && Followed(m, i, seen, chain) && Matched(m, i)
    ensures Starts(m, i)
  {
    assert chain[0] in chain;
  }

  lemma AddedChain(m: Edges, i: nat, seen: set<nat>, chains: seq<seq<nat>>, chain: seq<nat>)
    requires ChainsOk(m, seen, chains) && Followed(m, i, seen, chain) && Starts(m, i)
    ensures ChainsOk(m, seen + Members(chain), chains + [chain])
  {
    var all := chains + [chain];
    assert all[..|chains|] == chains;
    AppendApart(chains, chain);
    VerticesLast(all, |chains|);
  }

  /** Adding the chain followed from a start brings the scan one vertex further. */
  lemma ScanAdds(m: Edges, i: nat, seen: set<nat>, chains: seq<seq<nat>>, chain: seq<nat>)
    requires ChainsOk(m, seen, chains) && ScannedTo(m, i, seen, chains)
    requires Followed(m, i, seen, chain) && Matched(m, i)
    ensures ChainsOk(m, seen + Members(chain), chains + [chain])
    ensures ScannedTo(m, i + 1, seen + Members(chain), chains + [chain])
  {
    StartsChain(m, i, seen, chain);
    AddedChain(m, i, seen, chains, chain);
    AddedSeen(m, i, seen, chain);
    AddedHeads(m, i, chains, chain);
  }

  // ---------- Following a chain ----------

  /** In the middle of following: the matching leads from the end of the chain to `cur`. */
  ghost predicate Following(m: Edges, i: nat, seen: set<nat>, chain: seq<nat>, cur: nat)
  {
    && NoRepeats(chain) && Steps(chain) <= m
    && (forall v :: v in chain ==> v !in seen && Reaches(m, i, v))
    && (chain == [] ==> cur == i)
    && (chain != [] ==> chain[0] == i && (chain[|chain| - 1], cur) in m)
    && (forall k, w :: 0 <= k < |chain| && (chain[k], w) in m ==> w == if k + 1 < |chain| then chain[k + 1] else cur)
  }

  lemma FollowReaches(m: Edges, i: nat, seen: set<nat>, chain: seq<nat>, cur: nat)
    requires Following(m, i, seen, chain, cur)
    ensures Reaches(m, i, cur)
  {
    if chain == [] {
      assert Walk(m, i, i, 0);
    } else {
      assert chain[|chain| - 1] in chain;
      var k: nat :| Walk(m, i, chain[|chain| - 1], k);
      assert Walk(m, i, cur, k + 1);
    }
  }

  /** The chain goes on to a vertex that was not seen. */
  lemma FollowStep(g: Graph, m: Edges, i: nat, seen: set<nat>, chain: seq<nat>, cur: nat, next: nat)
    requires Matching(g, m) && Following(m, i, seen, chain, cur)
    requires cur !in seen && cur !in chain && (cur, next) in m
    ensures Following(m, i, seen, chain + [cur], next)
  {
    FollowReaches(m, i, seen, chain, cur);
    var c := chain + [cur];
    assert c[..|c| - 1] == chain;
  }

  /** The chain ends in front of a seen vertex, or at a vertex that is not matched onwards. */
  lemma FollowEnd(m: Edges, i: nat, seen: set<nat>, chain: seq<nat>, cur: nat)
    requires Following(m, i, seen, chain, cur) && Closed(m, seen)
    requires chain != [] && (cur in seen || cur in chain)
    ensures Followed(m, i, seen, chain)
  {
    forall u, w | (u, w) in m && u in seen + Members(chain)
      ensures w in seen + Members(chain)
    {
      if u in chain {
        var k :| 0 <= k < |chain| && chain[k] == u;
        assert k + 1 < |chain| ==> chain[k + 1] in chain;
      }
    }
  }

  lemma FollowLast(g: Graph, m: Edges, i: nat, seen: set<nat>, chain: seq<nat>, cur: nat)
    requires Matching(g, m) && Following(m, i, seen, chain, cur) && Closed(m, seen)
    requires cur !in seen && cur !in chain && !Matched(m, cur)
    ensures Followed(m, i, seen, chain + [cur])
  {
    FollowReaches(m, i, seen, chain, cur);
    var c := chain + [cur];
    assert c[..|c| - 1] == chain;
    assert forall w :: (cur, w) !in m;
    forall u, w | (u, w) in m && u in seen + Members(c)
      ensures w in seen + Members(c)
    {
      if u in chain {
        var k :| 0 <= k < |chain| && chain[k] == u;
        assert w == c[k + 1] && c[k + 1] in c;
      }
    }
  }

  ghost function Unseen(n: nat, seen: set<nat>): nat
  {
    |(set v: nat | v < n && v !in seen)|
  }

  lemma UnseenDrops(n: nat, seen: set<nat>, v: nat)
    requires v < n && v !in seen
    ensures Unseen(n, seen + {v}) < Unseen(n, seen)
  {
    var a, b := (set x: nat | x < n && x !in seen + {v}), (set x: nat | x < n && x !in seen);
    assert a == b - {v} && v in b;
  }

  /** The left half of the mate map says where the matching leads from every vertex. */
  ghost predicate LeadsTo(n: nat, mate0: seq<Mate>, m: Edges)
  {
    && |mate0| == 2 * n
    && (forall u: nat :: u < n ==> if mate0[u].Mate? then n <= mate0[u].v < 2 * n && (u, mate0[u].v - n) in m
                                   else !Matched(m, u))
    && (forall u: nat :: Matched(m, u) ==> u < n)
  }

  lemma MateMapLeads(g: Graph, mate0: seq<Mate>)
    requires MateMap(g, mate0)
    ensures Matching(g, MatchedEdges(|g.out|, mate0)) && LeadsTo(|g.out|, mate0, MatchedEdges(|g.out|, mate0))
  {
    var n, m := |g.out|, MatchedEdges(|g.out|, mate0);
    MateMapMatches(g, mate0);
    forall u: nat
      ensures Matched(m, u) <==> u < n && mate0[u].Mate?
      ensures u < n && mate0[u].Mate? ==> n <= mate0[u].v < 2 * n && (u, mate0[u].v - n) in m
    {
      if u < n && mate0[u].Mate? {
        MatchedEdge(g, mate0, u, mate0[u].v - n);
      }
      if w: nat :| (u, w) in m {
        MatchedEdge(g, mate0, u, w);
      }
    }
  }

  /** The left mates point to the right copy. */
  ghost predicate MatesRight(n: nat, mate0: seq<Mate>)
  {
    |mate0| == 2 * n && forall u: nat :: u < n && mate0[u].Mate? ==> n <= mate0[u].v < 2 * n
  }

  /** The chain that following the mates from `cur` adds to, and the vertices seen then. */
  ghost function Chase(n: nat, mate0: seq<Mate>, seen: set<nat>, chain: seq<nat>, cur: nat): (seq<nat>, set<nat>)
    requires MatesRight(n, mate0) && cur < n
    decreases Unseen(n, seen)
  {
    if cur in seen then (chain, seen)
    else
      UnseenDrops(n, seen, cur);
      if mate0[cur].NoMate? then (chain + [cur], seen + {cur})
      else Chase(n, mate0, seen + {cur}, chain + [cur], mate0[cur].v - n)
  }

  /** The chain is complete, and what has been seen are its vertices and those seen before. */
  ghost predicate Chased(m: Edges, i: nat, before: set<nat>, chain: seq<nat>, seen: set<nat>)
  {
    Followed(m, i, before, chain) && seen == before + Members(chain)
  }

  lemma MembersMore(before: set<nat>, chain: seq<nat>, v: nat)
    ensures before + Members(chain + [v]) == before + Members(chain) + {v}
  {
  }

  lemma {:induction false} ChaseFollows(g: Graph, m: Edges, mate0: seq<Mate>, i: nat, before: set<nat>,
                                        chain: seq<nat>, seen: set<nat>, cur: nat)
    requires Matching(g, m) && LeadsTo(|g.out|, mate0, m) && MatesRight(|g.out|, mate0) && Closed(m, before)
    requires Following(m, i, before, chain, cur) && cur < |g.out| && (chain == [] ==> cur !in before)
    requires seen == before + Members(chain)
    ensures var r := Chase(|g.out|, mate0, seen, chain, cur);
            Chased(m, i, before, r.0, r.1)
    decreases Unseen(|g.out|, seen)
  {
    var n := |g.out|;
    if cur in seen {
      FollowEnd(m, i, before, chain, cur);
    } else {
      UnseenDrops(n, seen, cur);
      MembersMore(before, chain, cur);
      assert seen + {cur} == before + Members(chain + [cur]);
      if mate0[cur].NoMate? {
        FollowLast(g, m, i, before, chain, cur);
      } else {
        var next := mate0[cur].v - n;
        FollowStep(g, m, i, before, chain, cur, next);
        assert Chase(n, mate0, seen, chain, cur) == Chase(n, mate0, seen + {cur}, chain + [cur], next);
        ChaseFollows(g, m, mate0, i, before, chain + [cur], seen + {cur}, next);
      }
    }
  }

  lemma NullKeeps(n: nat, mate0: seq<Mate>, mate: seq<Mate>, seen: set<nat>, cur: nat)
    requires MatesLeft(n, mate0, mate, seen) && cur < n
    ensures MatesLeft(n, mate0, mate[cur := NoMate], seen + {cur})
  {
  }

  /** Follows the mates from vertex `i` until their end or a vertex that is on a chain already. */
  method FollowChain(n: nat, mate: array<Mate>, ghost mate0: seq<Mate>, i: nat, inChains: set<nat>)
    returns (chain: seq<nat>, seen: set<nat>)
    requires MatesRight(n, mate0) && MatesLeft(n, mate0, mate[..], inChains)
    requires i < n
    modifies mate
    ensures (chain, seen) == Chase(n, mate0, inChains, [], i)
    ensures MatesLeft(n, mate0, mate[..], seen)
  {
    chain, seen := [], inChains;
    var next: nat, more := i, true;
    ghost var cur: nat, mates := i, mate[..];
    while more
      invariant cur < n && (more ==> next == cur || next == n + cur)
      invariant mate[..] == mates && MatesLeft(n, mate0, mates, seen)
      invariant (if more then Chase(n, mate0, seen, chain, cur) else (chain, seen)) == Chase(n, mate0, inChains, [], i)
      decreases more, Unseen(n, seen)
    {
      if next >= n {
        next := next - n;
      }
      assert mate[next] == mates[cur] == if cur in seen then NoMate else mate0[cur];
      NullKeeps(n, mate0, mates, seen, cur);
      ghost var seen0 := seen;
      if next !in seen {
        UnseenDrops(n, seen, cur);
        chain := chain + [next];
        seen := seen + {next};
      }
      assert seen == seen0 + {cur};
      var prev := next;
      var mateOfNext := mate[next];
      mate[prev] := NoMate;
      mates := mates[cur := NoMate];
      match mateOfNext {
        case NoMate => more := false;
        case Mate(v) => next, cur := v, v - n;
      }
    }
  }

  // ---------- The scan over all vertices ----------

  /** Chains and seen vertices when the first `i` vertices have been scanned. */
  ghost function Scan(n: nat, mate0: seq<Mate>, i: nat): (seq<seq<nat>>, set<nat>)
    requires MatesRight(n, mate0) && i <= n
  {
    if i == 0 then ([], {})
    else
      var (chains, seen) := Scan(n, mate0, i - 1);
      if i - 1 in seen || mate0[i - 1].NoMate? then (chains, seen)
      else
        var (chain, all) := Chase(n, mate0, seen, [], i - 1);
        (chains + [chain], all)
  }

  ghost predicate ScanOk(m: Edges, i: nat, scan: (seq<seq<nat>>, set<nat>))
  {
    ChainsOk(m, scan.1, scan.0) && ScannedTo(m, i, scan.1, scan.0)
  }

  lemma NothingScanned(m: Edges)
    ensures ScanOk(m, 0, ([], {}))
  {
    assert Vertices([]) == {} && AllSteps([]) == {};
  }

  lemma ScanNext(g: Graph, m: Edges, mate0: seq<Mate>, i: nat)
    requires Matching(g, m) && LeadsTo(|g.out|, mate0, m) && MatesRight(|g.out|, mate0) && i < |g.out|
    requires ScanOk(m, i, Scan(|g.out|, mate0, i))
    ensures ScanOk(m, i + 1, Scan(|g.out|, mate0, i + 1))
  {
    var n := |g.out|;
    var (chains, seen) := Scan(n, mate0, i);
    if i in seen || mate0[i].NoMate? {
      ScanSkips(m, i, seen, chains);
    } else {
      SeenIsClosed(m, i, seen);
      assert Members([]) == {} && seen + {} == seen;
      ChaseFollows(g, m, mate0, i, seen, [], seen, i);
      assert Matched(m, i);
      ScanAdds(m, i, seen, chains, Chase(n, mate0, seen, [], i).0);
    }
  }

  lemma {:induction false} ScanKeeps(g: Graph, m: Edges, mate0: seq<Mate>, i: nat)
    requires Matching(g, m) && LeadsTo(|g.out|, mate0, m) && MatesRight(|g.out|, mate0) && i <= |g.out|
    ensures ScanOk(m, i, Scan(|g.out|, mate0, i))
  {
    if i == 0 {
      NothingScanned(m);
    } else {
      ScanKeeps(g, m, mate0, i - 1);
      ScanNext(g, m, mate0, i - 1);
    }
  }

  /** After one scan every matched vertex has been seen. */
  lemma ScanTakesAll(g: Graph, m: Edges, mate0: seq<Mate>)
    requires Matching(g, m) && LeadsTo(|g.out|, mate0, m) && MatesRight(|g.out|, mate0)
    ensures forall v: nat :: v < |g.out| && mate0[v].Mate? ==> v in Scan(|g.out|, mate0, |g.out|).1
    ensures forall u, v :: (u, v) in m ==> u in Scan(|g.out|, mate0, |g.out|).1
  {
    var n := |g.out|;
    ScanKeeps(g, m, mate0, n);
    forall v: nat | Matched(m, v)
      ensures v in Scan(n, mate0, n).1
    {
      assert Walk(m, v, v, 0) && Reaches(m, v, v);
    }
    forall u: nat, v: nat | (u, v) in m
      ensures Matched(m, u)
    {
    }
  }

  // ---------- What the extraction achieves ----------

  ghost function Extracted(n: nat, mate0: seq<Mate>): seq<seq<nat>>
    requires MatesRight(n, mate0)
  {
    WithSingles(Scan(n, mate0, n).0, Scan(n, mate0, n).1, n)
  }

  /** The extraction always gives an exact partition into nonempty paths along graph edges. */
  lemma ExtractedPaths(g: Graph, m: Edges, mate0: seq<Mate>)
    requires ValidGraph(g) && Matching(g, m) && LeadsTo(|g.out|, mate0, m) && MatesRight(|g.out|, mate0)
    ensures PathPartition(g, Extracted(|g.out|, mate0)) && AllSteps(Extracted(|g.out|, mate0)) <= m
  {
    var n := |g.out|;
    var all := Extracted(n, mate0);
    ScanKeeps(g, m, mate0, n);
    SinglesFill(Scan(n, mate0, n).0, Scan(n, mate0, n).1, n);
    SeenWithin(g, m, mate0);
    forall i | 0 <= i < |all|
      ensures IsPath(g, all[i])
    {
      PathOfSteps(g, m, all, i);
    }
    PartitionOfVertices(g, all);
  }

  lemma SeenWithin(g: Graph, m: Edges, mate0: seq<Mate>)
    requires ValidGraph(g) && Matching(g, m) && LeadsTo(|g.out|, mate0, m) && MatesRight(|g.out|, mate0)
    ensures forall v :: v in Scan(|g.out|, mate0, |g.out|).1 ==> v < |g.out|
  {
    var n := |g.out|;
    ScanKeeps(g, m, mate0, n);
    forall v | v in Scan(n, mate0, n).1
      ensures v < n
    {
      var a: nat :| a < n && Matched(m, a) && Reaches(m, a, v);
      var k: nat :| Walk(m, a, v, k);
      if k > 0 {
        var u: nat :| Walk(m, a, u, k - 1) && (u, v) in m;
        assert HasEdge(g, u, v);
      }
    }
  }

  /** When no chain starts in the middle of a matched path, the chains use all steps of the matching. */
  lemma FrontsUseAll(g: Graph, m: Edges, seen: set<nat>, chains: seq<seq<nat>>, u: nat, v: nat)
    requires Matching(g, m) && ChainsOk(m, seen, chains) && Closed(m, seen)
    requires StartsAtFronts(m) && (u, v) in m && u in seen
    ensures (u, v) in AllSteps(chains)
  {
    assert v in Vertices(chains);
    var c :| 0 <= c < |chains| && v in chains[c];
    var k :| 0 <= k < |chains[c]| && chains[c][k] == v;
    assert k > 0;
    var w := chains[c][k - 1];
    StepsOf(chains[c], w, v);
    AllStepsOf(chains, w, v);
    assert w == u;
  }

  lemma HeadPlace(chains: seq<seq<nat>>, c: nat, i: nat, k: nat)
    requires Apart(chains) && c < |chains| && i < |chains| && k < |chains[i]| && chains[c][0] == chains[i][k]
    ensures c == i && k == 0
  {
    assert chains[c][0] in chains[c] && chains[i][k] in chains[i];
  }

  /** A vertex inside a chain is not a start. */
  lemma InsideIsNoStart(m: Edges, n: nat, seen: set<nat>, chains: seq<seq<nat>>, u: nat, v: nat)
    requires ChainsOk(m, seen, chains) && ScannedTo(m, n, seen, chains)
    requires (u, v) in AllSteps(chains) && (Matched(m, v) ==> v < n)
    ensures !Starts(m, v)
  {
    var i, k := StepAt(chains, u, v);
    if Starts(m, v) {
      var c :| 0 <= c < |chains| && chains[c] != [] && chains[c][0] == v;
      HeadPlace(chains, c, i, k + 1);
    }
  }

  lemma FrontsUseAllSteps(g: Graph, m: Edges, seen: set<nat>, chains: seq<seq<nat>>)
    requires Matching(g, m) && ChainsOk(m, seen, chains) && Closed(m, seen)
    requires StartsAtFronts(m) && forall u, v :: (u, v) in m ==> u in seen
    ensures m <= AllSteps(chains)
  {
    forall u: nat, v: nat | (u, v) in m
      ensures (u, v) in AllSteps(chains)
    {
      FrontsUseAll(g, m, seen, chains, u, v);
    }
    PairwiseSubset(m, AllSteps(chains));
  }

  lemma UsedStepsLeaveFronts(m: Edges, n: nat, seen: set<nat>, chains: seq<seq<nat>>)
    requires ChainsOk(m, seen, chains) && ScannedTo(m, n, seen, chains)
    requires m <= AllSteps(chains) && forall u, v :: (u, v) in m ==> u < n
    ensures StartsAtFronts(m)
  {
    forall u: nat, v: nat | (u, v) in m
      ensures !Starts(m, v)
    {
      InsideIsNoStart(m, n, seen, chains, u, v);
    }
  }

  ghost predicate UsesAll(m: Edges, chains: seq<seq<nat>>)
  {
    m <= AllSteps(chains)
  }

  lemma ExtractedSteps(g: Graph, m: Edges, mate0: seq<Mate>)
    requires ValidGraph(g) && Matching(g, m) && LeadsTo(|g.out|, mate0, m) && MatesRight(|g.out|, mate0)
    ensures AllSteps(Extracted(|g.out|, mate0)) == AllSteps(Scan(|g.out|, mate0, |g.out|).0)
  {
    ScanKeeps(g, m, mate0, |g.out|);
    var (chains, seen) := Scan(|g.out|, mate0, |g.out|);
    SinglesFill(chains, seen, |g.out|);
  }

  lemma UsedWhenAtFronts(g: Graph, m: Edges, mate0: seq<Mate>)
    requires ValidGraph(g) && Matching(g, m) && LeadsTo(|g.out|, mate0, m) && MatesRight(|g.out|, mate0)
    requires StartsAtFronts(m)
    ensures UsesAll(m, Extracted(|g.out|, mate0))
  {
    var (chains, seen) := Scan(|g.out|, mate0, |g.out|);
    ScanKeeps(g, m, mate0, |g.out|);
    ScanTakesAll(g, m, mate0);
    SeenIsClosed(m, |g.out|, seen);
    FrontsUseAllSteps(g, m, seen, chains);
    ExtractedSteps(g, m, mate0);
  }

  lemma AtFrontsWhenUsed(g: Graph, m: Edges, mate0: seq<Mate>)
    requires ValidGraph(g) && Matching(g, m) && LeadsTo(|g.out|, mate0, m) && MatesRight(|g.out|, mate0)
    requires UsesAll(m, Extracted(|g.out|, mate0))
    ensures StartsAtFronts(m)
  {
    var (chains, seen) := Scan(|g.out|, mate0, |g.out|);
    ScanKeeps(g, m, mate0, |g.out|);
    ExtractedSteps(g, m, mate0);
    forall u: nat, v: nat | (u, v) in m
      ensures u < |g.out|
    {
      assert HasEdge(g, u, v);
    }
    UsedStepsLeaveFronts(m, |g.out|, seen, chains);
  }

  /** All steps of the matching are used exactly when no chain starts in the middle of a matched path. */
  lemma AllStepsUsed(g: Graph, m: Edges, mate0: seq<Mate>)
    requires ValidGraph(g) && Matching(g, m) && LeadsTo(|g.out|, mate0, m) && MatesRight(|g.out|, mate0)
    ensures UsesAll(m, Extracted(|g.out|, mate0)) <==> StartsAtFronts(m)
  {
    if StartsAtFronts(m) {
      UsedWhenAtFronts(g, m, mate0);
    } else if UsesAll(m, Extracted(|g.out|, mate0)) {
      AtFrontsWhenUsed(g, m, mate0);
    }
  }

  /**
   The number of chains is at least n - |M|, and it is n - |M| exactly when no chain
   starts in the middle of a matched path.
   */
  lemma ExtractedCount(g: Graph, m: Edges, mate0: seq<Mate>)
    requires ValidGraph(g) && Matching(g, m) && LeadsTo(|g.out|, mate0, m) && MatesRight(|g.out|, mate0)
    ensures |Extracted(|g.out|, mate0)| >= |g.out| - |m|
    ensures |Extracted(|g.out|, mate0)| == |g.out| - |m| <==> StartsAtFronts(m)
  {
    var all := Extracted(|g.out|, mate0);
    ExtractedPaths(g, m, mate0);
    PartitionVertices(g, all);
    AllStepsUsed(g, m, mate0);
    SubsetCount(AllSteps(all), m);
  }

  lemma SubsetCount<T>(a: set<T>, b: set<T>)
    requires a <= b
    ensures |a| <= |b| && (|a| == |b| <==> b <= a)
  {
    assert b == a + (b - a);
    assert b - a == {} <==> b <= a;
  }

  /** No partition into paths has fewer chains. */
  ghost predicate Minimal(g: Graph, chains: seq<seq<nat>>)
  {
    forall other :: PathPartition(g, other) ==> |chains| <= |other|
  }

  /**
   From a maximum matching of an acyclic graph, the extraction is minimal exactly when
   no chain starts in the middle of a matched path.
   */
  lemma ExtractedIsMinimalIff(g: Graph, m: Edges, mate0: seq<Mate>)
    requires ValidGraph(g) && Acyclic(GraphEdges(g))
    requires MaximumMatching(g, m) && LeadsTo(|g.out|, mate0, m) && MatesRight(|g.out|, mate0)
    ensures Minimal(g, Extracted(|g.out|, mate0)) <==> StartsAtFronts(m)
  {
    ExtractedCount(g, m, mate0);
    var best := MatchingGivesPaths(g, m);
    forall other | PathPartition(g, other)
      ensures |other| >= |g.out| - |m|
    {
      PathsAtLeast(g, m, other);
    }
  }

  lemma SplitScan(mate0: seq<Mate>)
    requires mate0 == [Mate(5), Mate(3), NoMate, Mate(1), NoMate, Mate(0)]
    ensures MatesRight(3, mate0) && Scan(3, mate0, 3) == ([[0, 2], [1]], {0, 2, 1})
  {
    FirstChain(mate0);
    var start: seq<nat> := [];
    assert Scan(3, mate0, 0) == ([], {});
    assert Scan(3, mate0, 0).0 + [[0, 2]] == [[0, 2]] && 0 !in Scan(3, mate0, 0).1;
    assert Scan(3, mate0, 1) == ([[0, 2]], {0, 2});
    assert Chase(3, mate0, {0, 2, 1}, [1], 0) == ([1], {0, 2, 1});
    assert {0, 2} + {1} == {0, 2, 1} && start + [1] == [1];
    assert Chase(3, mate0, {0, 2}, [], 1) == ([1], {0, 2, 1});
    assert Scan(3, mate0, 1).0 + [[1]] == [[0, 2], [1]] && 1 !in Scan(3, mate0, 1).1;
    assert Scan(3, mate0, 2) == ([[0, 2], [1]], {0, 2, 1});
  }

  lemma FirstChain(mate0: seq<Mate>)
    requires mate0 == [Mate(5), Mate(3), NoMate, Mate(1), NoMate, Mate(0)]
    ensures MatesRight(3, mate0) && Chase(3, mate0, {}, [], 0) == ([0, 2], {0, 2})
  {
    var none: set<nat>, start: seq<nat> := {}, [];
    assert none + {0} == {0} && start + [0] == [0] && [0] + [2] == [0, 2];
    assert {0} + {2} == {0, 2};
    assert Chase(3, mate0, {0}, [0], 2) == ([0, 2], {0, 2});
    assert Chase(3, mate0, none, start, 0) == Chase(3, mate0, none + {0}, start + [0], 2);
  }

  lemma OnePath()
    ensures PathPartition(Graph([[2], [0], []]), [[1, 0, 2]])
  {
    var p := [[1, 0, 2]];
    assert p[0][0] == 1 && p[0][1] == 0 && p[0][2] == 2;
    forall v: nat | v < 3
      ensures Chained(p, v)
    {
      assert v in p[0];
    }
  }

  lemma NothingSingle(mate0: seq<Mate>)
    requires mate0 == [Mate(5), Mate(3), NoMate, Mate(1), NoMate, Mate(0)]
    ensures MatesRight(3, mate0) && Extracted(3, mate0) == [[0, 2], [1]]
  {
    SplitScan(mate0);
    var all := [[0, 2], [1]];
    assert WithSingles(all, {0, 2, 1}, 0) == WithSingles(all, {0, 2, 1}, 1) == WithSingles(all, {0, 2, 1}, 2) == all;
  }

  lemma TwoEdges(u: nat, v: nat)
    ensures HasEdge(Graph([[2], [0], []]), u, v) <==> (u == 0 && v == 2) || (u == 1 && v == 0)
  {
    var g := Graph([[2], [0], []]);
    assert g.out[0] == [2] && g.out[1] == [0] && g.out[2] == [];
  }

  lemma AtMostTwo(other: Edges)
    requires Matching(Graph([[2], [0], []]), other)
    ensures |other| <= 2
  {
    var all: Edges := {(0, 2), (1, 0)};
    forall p | p in other
      ensures p in all
    {
      assert (p.0, p.1) == p;
      TwoEdges(p.0, p.1);
    }
    SubsetCount(other, all);
  }

  lemma TwoAreMaximum(mate0: seq<Mate>)
    requires MateMap(Graph([[2], [0], []]), mate0) && |MatchedEdges(3, mate0)| >= 2
    ensures MaximumMatching(Graph([[2], [0], []]), MatchedEdges(3, mate0))
  {
    MateMapLeads(Graph([[2], [0], []]), mate0);
    forall other | Matching(Graph([[2], [0], []]), other)
      ensures |other| <= |MatchedEdges(3, mate0)|
    {
      AtMostTwo(other);
    }
  }

  lemma SplitMates(mate0: seq<Mate>)
    requires mate0 == [Mate(5), Mate(3), NoMate, Mate(1), NoMate, Mate(0)]
    ensures MateMap(Graph([[2], [0], []]), mate0)
  {
    TwoEdges(0, 2);
    TwoEdges(1, 0);
  }

  lemma BothMatched(mate0: seq<Mate>)
    requires mate0 == [Mate(5), Mate(3), NoMate, Mate(1), NoMate, Mate(0)]
    requires MateMap(Graph([[2], [0], []]), mate0)
    ensures |MatchedEdges(3, mate0)| >= 2
  {
    var g := Graph([[2], [0], []]);
    var all: Edges := {(0, 2), (1, 0)};
    MatchedEdge(g, mate0, 0, 2);
    MatchedEdge(g, mate0, 1, 0);
    assert |all| == 2;
    SubsetCount(all, MatchedEdges(3, mate0));
  }

  lemma SplitMaximum(mate0: seq<Mate>)
    requires mate0 == [Mate(5), Mate(3), NoMate, Mate(1), NoMate, Mate(0)]
    ensures var g := Graph([[2], [0], []]);
            MateMap(g, mate0) && MaximumMatching(g, MatchedEdges(3, mate0))
  {
    SplitMates(mate0);
    BothMatched(mate0);
    TwoAreMaximum(mate0);
  }

  /** A vertex numbered against its edges splits its path: from a maximum matching, 1 -> 0 -> 2 gives two
      chains instead of one. */
  lemma NotAlwaysMinimal()
    ensures var g := Graph([[2], [0], []]);
            var mate0 := [Mate(5), Mate(3), NoMate, Mate(1), NoMate, Mate(0)];
            && MateMap(g, mate0) && MaximumMatching(g, MatchedEdges(3, mate0))
            && Extracted(3, mate0) == [[0, 2], [1]]
            && PathPartition(g, [[1, 0, 2]])
  {
    SplitMaximum([Mate(5), Mate(3), NoMate, Mate(1), NoMate, Mate(0)]);
    NothingSingle([Mate(5), Mate(3), NoMate, Mate(1), NoMate, Mate(0)]);
    OnePath();
  }

  // ---------- The order of the chains ----------

  /** The first vertices of the chains rise, and are below `i`. */
  ghost predicate HeadsRise(chains: seq<seq<nat>>, i: nat)
  {
    && (forall c :: 0 <= c < |chains| ==> chains[c] != [] && chains[c][0] < i)
    && (forall c, d :: 0 <= c < d < |chains| ==> chains[c] != [] && chains[d] != [] && chains[c][0] < chains[d][0])
  }

  lemma {:induction false} ChaseKeepsHead(n: nat, mate0: seq<Mate>, seen: set<nat>, chain: seq<nat>, cur: nat)
    requires MatesRight(n, mate0) && cur < n && chain != []
    ensures Chase(n, mate0, seen, chain, cur).0 != [] && Chase(n, mate0, seen, chain, cur).0[0] == chain[0]
    decreases Unseen(n, seen)
  {
    if cur !in seen && mate0[cur].Mate? {
      UnseenDrops(n, seen, cur);
      ChaseKeepsHead(n, mate0, seen + {cur}, chain + [cur], mate0[cur].v - n);
    }
  }

  lemma ChaseStarts(n: nat, mate0: seq<Mate>, seen: set<nat>, cur: nat)
    requires MatesRight(n, mate0) && cur < n && cur !in seen
    ensures Chase(n, mate0, seen, [], cur).0 != [] && Chase(n, mate0, seen, [], cur).0[0] == cur
  {
    if mate0[cur].Mate? {
      UnseenDrops(n, seen, cur);
      ChaseKeepsHead(n, mate0, seen + {cur}, [] + [cur], mate0[cur].v - n);
    }
  }

  lemma {:induction false} ScanRises(n: nat, mate0: seq<Mate>, i: nat)
    requires MatesRight(n, mate0) && i <= n
    ensures HeadsRise(Scan(n, mate0, i).0, i)
    ensures forall c :: 0 <= c < |Scan(n, mate0, i).0| ==> mate0[Scan(n, mate0, i).0[c][0]].Mate?
  {
    if i > 0 {
      ScanRises(n, mate0, i - 1);
      var (chains, seen) := Scan(n, mate0, i - 1);
      if i - 1 !in seen && mate0[i - 1].Mate? {
        ChaseStarts(n, mate0, seen, i - 1);
      }
    }
  }

  lemma {:induction false} SinglesRise(chains: seq<seq<nat>>, seen: set<nat>, i: nat)
    ensures var all := WithSingles(chains, seen, i);
            && |all| >= |chains| && all[..|chains|] == chains && HeadsRise(all[|chains|..], i)
            && forall c :: |chains| <= c < |all| ==> |all[c]| == 1
  {
    if i > 0 {
      SinglesRise(chains, seen, i - 1);
      var all := WithSingles(chains, seen, i - 1);
      assert (all + [[i - 1]])[|chains|..] == all[|chains|..] + [[i - 1]];
    }
  }

  /**
   First the chains along mates, in ascending order of their first vertices, then each vertex left over as
   a chain of its own, in ascending order.
   */
  lemma ExtractedOrder(n: nat, mate0: seq<Mate>) returns (k: nat)
    requires MatesRight(n, mate0)
    ensures k <= |Extracted(n, mate0)|
    ensures HeadsRise(Extracted(n, mate0)[..k], n) && HeadsRise(Extracted(n, mate0)[k..], n)
    ensures forall c :: 0 <= c < k ==> mate0[Extracted(n, mate0)[c][0]].Mate?
    ensures forall c :: k <= c < |Extracted(n, mate0)| ==> |Extracted(n, mate0)[c]| == 1
  {
    var (chains, seen) := Scan(n, mate0, n);
    ScanRises(n, mate0, n);
    SinglesRise(chains, seen, n);
    k := |chains|;
  }

  /** The decomposition of a graph, from the mate map of a matching; the mate map is used up. */
  method GenerateMinimalChains(g: Graph, mate: array<Mate>) returns (chains: seq<seq<nat>>)
    requires ValidGraph(g) && MateMap(g, mate[..])
    modifies mate
    ensures chains == Extracted(|g.out|, old(mate[..])) && PathPartition(g, chains)
    ensures |chains| >= |g.out| - |MatchedEdges(|g.out|, old(mate[..]))|
    ensures |chains| == |g.out| - |MatchedEdges(|g.out|, old(mate[..]))| <==>
            StartsAtFronts(MatchedEdges(|g.out|, old(mate[..])))
  {
    ghost var mate0 := mate[..];
    ExtractionFacts(g, mate0);
    chains := ScanAll(|g.out|, mate, mate0);
  }

  lemma ExtractionFacts(g: Graph, mate0: seq<Mate>)
    requires ValidGraph(g) && MateMap(g, mate0)
    ensures var n, m := |g.out|, MatchedEdges(|g.out|, mate0);
            && MatesRight(n, mate0) && (forall v: nat :: v < n && mate0[v].Mate? ==> v in Scan(n, mate0, n).1)
            && PathPartition(g, Extracted(n, mate0))
            && |Extracted(n, mate0)| >= n - |m|
            && (|Extracted(n, mate0)| == n - |m| <==> StartsAtFronts(m))
  {
    var m := MatchedEdges(|g.out|, mate0);
    MateMapLeads(g, mate0);
    ScanTakesAll(g, m, mate0);
    ExtractedPaths(g, m, mate0);
    ExtractedCount(g, m, mate0);
  }

  method ScanAll(n: nat, mate: array<Mate>, ghost mate0: seq<Mate>) returns (chains: seq<seq<nat>>)
    requires mate0 == mate[..] && MatesRight(n, mate0)
    requires forall v: nat :: v < n && mate0[v].Mate? ==> v in Scan(n, mate0, n).1
    modifies mate
    ensures chains == Extracted(n, mate0)
  {
    chains := [];
    var inChains: set<nat> := {};
    var flag := true;
    ghost var first := true;
    while flag
      invariant MatesLeft(n, mate0, mate[..], inChains)
      invariant if first then flag && chains == [] && inChains == {} else (chains, inChains) == Scan(n, mate0, n)
      decreases first, flag
    {
      flag := false;
      for i := 0 to n
        invariant MatesLeft(n, mate0, mate[..], inChains)
        invariant first ==> (chains, inChains) == Scan(n, mate0, i)
        invariant !first ==> (chains, inChains) == Scan(n, mate0, n) && !flag
      {
        assert mate[i] == mate[..][i];
        if mate[i].Mate? {
          var chain;
          chain, inChains := FollowChain(n, mate, mate0, i, inChains);
          chains := chains + [chain];
          flag := true;
        }
      }
      first := false;
    }
    for v := 0 to n
      invariant chains == WithSingles(Scan(n, mate0, n).0, inChains, v)
    {
      if v !in inChains {
        chains := chains + [[v]];
      }
    }
  }
}
