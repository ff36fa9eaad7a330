/**
 Grouping chains into blocks (src/newGraph.cpp, createChainBlocks): chains are visited
 level by level, and a visited chain passes its block on to its children or opens new
 blocks for them.
 */
module Blocks {
  import opened Digraph
  import opened Levels
  import opened Greedy

  datatype Block = Block(blkId: nat, chains: seq<nat>)

  /** What the compiler has computed before: dependencies both ways, and levels from chain 0, which reaches every chain. */
  ghost predicate Prepared(deps: map<nat, set<nat>>, rev: map<nat, set<nat>>, level: seq<int>)
  {
    && |level| > 1
    && WithinNodes(MapEdges(deps), |level|) && Acyclic(MapEdges(deps))
    && AllLevels(MapEdges(deps), 0, level)
    && (forall c: nat :: c < |level| ==> Reaches(MapEdges(deps), 0, c))
    && (forall p: nat, c: nat :: (c in rev && p in rev[c]) <==> (p, c) in MapEdges(deps))
  }

  function MaxPass(limit: nat): nat
  {
    if limit > 1 then limit else 1
  }

  // ---------- The invariant ----------

  /** A visited edge gives the child a block, except an edge from chain 0 to a deeper level. */
  ghost predicate Touched(done: Edges, level: seq<int>, c: nat)
    requires c < |level|
  {
    exists p: nat :: (p, c) in done && (p != 0 || level[c] == 1)
  }

  /**
   After the visit of the edges in `done`: a chain other than 0 has a block exactly when
   it was touched, and its block was then written once; block numbers are in use, and no
   bypass count is over the limit.
   */
  ghost predicate BlocksOk(done: Edges, level: seq<int>, limit: nat,
                           ids: seq<nat>, writes: seq<nat>, next: nat, pass: map<nat, nat>)
  {
    && |ids| == |writes| == |level| > 0
    && ids[0] == 0 && writes[0] == 1
    && (forall c: nat :: 0 < c < |level| ==> writes[c] == if Touched(done, level, c) then 1 else 0)
    && (forall c: nat {:trigger writes[c]} :: 0 < c < |level| ==> (ids[c] != 0 <==> writes[c] == 1))
    && (forall c: nat :: c < |level| ==> ids[c] <= next && ids[c] in pass)
    && (forall b :: b in pass ==> b <= next && pass[b] <= MaxPass(limit))
  }

  lemma TouchedByEdge(done: Edges, level: seq<int>, p: nat, c: nat)
    requires c < |level|
    ensures forall d: nat :: d < |level| && d != c ==>
                               (Touched(done + {(p, c)}, level, d) <==> Touched(done, level, d))
    ensures Touched(done + {(p, c)}, level, c) <==> Touched(done, level, c) || p != 0 || level[c] == 1
  {
    forall d: nat | d < |level| && Touched(done, level, d)
      ensures Touched(done + {(p, c)}, level, d)
    {
      var q: nat :| (q, d) in done && (q != 0 || level[d] == 1);
      assert (q, d) in done + {(p, c)};
    }
    if p != 0 || level[c] == 1 {
      assert (p, c) in done + {(p, c)};
    }
  }

  /** Writing the block of a child that has none yet. */
  lemma WriteKeeps(done: Edges, level: seq<int>, limit: nat, ids: seq<nat>, writes: seq<nat>, next: nat,
                   pass: map<nat, nat>, p: nat, c: nat, b: nat, next': nat, pass': map<nat, nat>)
    requires BlocksOk(done, level, limit, ids, writes, next, pass)
    requires 0 < c < |level| && !Touched(done, level, c) && (p != 0 || level[c] == 1)
    requires 0 < b <= next' && next <= next' && b in pass'
    requires forall x :: x in pass ==> x in pass'
    requires forall x :: x in pass' ==> x <= next' && pass'[x] <= MaxPass(limit)
    ensures BlocksOk(done + {(p, c)}, level, limit, ids[c := b], writes[c := writes[c] + 1], next', pass')
  {
    TouchedByEdge(done, level, p, c);
  }

  /** An edge to a child that has its block, or from chain 0 to a deeper level, changes nothing. */
  lemma SkipKeeps(done: Edges, level: seq<int>, limit: nat, ids: seq<nat>, writes: seq<nat>, next: nat,
                  pass: map<nat, nat>, p: nat, c: nat)
    requires BlocksOk(done, level, limit, ids, writes, next, pass)
    requires 0 < c < |level| && (ids[c] != 0 || (p == 0 && level[c] != 1))
    ensures BlocksOk(done + {(p, c)}, level, limit, ids, writes, next, pass)
  {
    TouchedByEdge(done, level, p, c);
  }

  // ---------- Which block a chain is in ----------

  /**
   The chains that took over a block are the heirs: `parent` gives the chain whose block it
   was, `first` the first heir of a chain, `extra` the heirs that were not the first of
   their parent.  `opener` gives the chain that opened a block.
   */
  datatype Trees = Trees(parent: map<nat, nat>, first: map<nat, nat>, extra: set<nat>, opener: map<nat, nat>)

  const NO_TREES := Trees(map[], map[], {}, map[])

  /** Chain `c` has exactly two parents, one of them chain 0. */
  predicate SingleParent(rev: map<nat, set<nat>>, c: nat)
  {
    c in rev && |rev[c]| == 2 && 0 in rev[c]
  }

  /** Chain `c` is in the block of `p`, the one parent that it has beside chain 0. */
  ghost predicate HeirOf(rev: map<nat, set<nat>>, done: Edges, ids: seq<nat>, p: nat, c: nat)
  {
    && 0 < p < |ids| && 0 < c < |ids| && (p, c) in done && SingleParent(rev, c)
    && ids[c] == ids[p] != 0
  }

  /** Chain `p` has a first heir, and its block takes no more. */
  ghost predicate Exhausted(limit: nat, ids: seq<nat>, pass: map<nat, nat>, t: Trees, p: nat)
  {
    p in t.first && p < |ids| && ids[p] in pass && pass[ids[p]] + 1 > limit
  }

  /** Chains other than chain 0 whose children were visited have a block, and every heir is in the block of its parent. */
  ghost predicate HeirsOk(rev: map<nat, set<nat>>, done: Edges, ids: seq<nat>, t: Trees)
  {
    && (forall p: nat, c: nat :: (p, c) in done && p != 0 ==> p < |ids| && ids[p] != 0)
    && (forall c {:trigger t.parent[c]} :: c in t.parent ==> HeirOf(rev, done, ids, t.parent[c], c))
  }

  /** A chain in a block is an heir, or the one chain that opened it. */
  ghost predicate OpenersOk(ids: seq<nat>, t: Trees)
  {
    forall c: nat :: c < |ids| && ids[c] != 0 && c !in t.parent ==> ids[c] in t.opener && t.opener[ids[c]] == c
  }

  ghost predicate FirstsOk(t: Trees)
  {
    forall p :: p in t.first ==> t.first[p] in t.parent && t.parent[t.first[p]] == p
  }

  /** A chain that has one parent beside chain 0 but is no heir had a parent whose block was full. */
  ghost predicate FullOk(rev: map<nat, set<nat>>, done: Edges, limit: nat, ids: seq<nat>, pass: map<nat, nat>, t: Trees)
  {
    forall p: nat, c: nat :: p != 0 && (p, c) in done && SingleParent(rev, c) && c !in t.parent ==>
                               Exhausted(limit, ids, pass, t, p)
  }

  /** Every block is a tree: one chain opened it, and all others in it are heirs. */
  ghost predicate BlockTrees(rev: map<nat, set<nat>>, done: Edges, limit: nat, ids: seq<nat>, pass: map<nat, nat>, t: Trees)
  {
    HeirsOk(rev, done, ids, t) && OpenersOk(ids, t) && FirstsOk(t) && FullOk(rev, done, limit, ids, pass, t)
  }

  ghost function InBlock(ids: seq<nat>, extra: set<nat>, b: nat): set<nat>
  {
    set c | c in extra && c < |ids| && ids[c] == b
  }

  /** The bypass count of a block is one more than its extra heirs; an heir that is not extra is its parent's first. */
  ghost predicate PassCounts(ids: seq<nat>, pass: map<nat, nat>, t: Trees)
  {
    && (forall c :: c in t.extra ==> c in t.parent)
    && (forall b :: b in pass && b != 0 ==> pass[b] == 1 + |InBlock(ids, t.extra, b)|)
    && (forall c {:trigger t.parent[c]} :: c in t.parent && c !in t.extra ==>
                                         t.parent[c] in t.first && t.first[t.parent[c]] == c)
  }

  function NewHeir(t: Trees, p: nat, c: nat): Trees
  {
    if p in t.first then t.(parent := t.parent[c := p], extra := t.extra + {c})
    else t.(parent := t.parent[c := p], first := t.first[p := c])
  }

  function NewPass(ids: seq<nat>, pass: map<nat, nat>, t: Trees, p: nat): map<nat, nat>
  {
    if p in t.first && p < |ids| && ids[p] in pass then pass[ids[p] := pass[ids[p]] + 1] else pass
  }

  lemma InheritHeirs(rev: map<nat, set<nat>>, done: Edges, ids: seq<nat>, t: Trees, p: nat, c: nat)
    requires HeirsOk(rev, done, ids, t)
    requires 0 < p < |ids| && 0 < c < |ids| && ids[p] != 0 && ids[c] == 0 && SingleParent(rev, c)
    ensures HeirsOk(rev, done + {(p, c)}, ids[c := ids[p]], NewHeir(t, p, c)) && c !in t.parent
  {
    assert c in t.parent ==> HeirOf(rev, done, ids, t.parent[c], c);
  }

  lemma InheritFull(rev: map<nat, set<nat>>, done: Edges, limit: nat, ids: seq<nat>, pass: map<nat, nat>, t: Trees,
                    p: nat, c: nat)
    requires HeirsOk(rev, done, ids, t) && FullOk(rev, done, limit, ids, pass, t)
    requires p < |ids| && c < |ids| && ids[c] == 0
    ensures FullOk(rev, done + {(p, c)}, limit, ids[c := ids[p]], NewPass(ids, pass, t, p), NewHeir(t, p, c))
  {
  }

  lemma InheritFirsts(ids: seq<nat>, t: Trees, p: nat, c: nat, b: nat)
    requires FirstsOk(t) && OpenersOk(ids, t) && c !in t.parent && c < |ids|
    ensures FirstsOk(NewHeir(t, p, c)) && OpenersOk(ids[c := b], NewHeir(t, p, c))
  {
  }

  lemma InheritTree(rev: map<nat, set<nat>>, done: Edges, limit: nat, ids: seq<nat>, pass: map<nat, nat>, t: Trees,
                    p: nat, c: nat)
    requires BlockTrees(rev, done, limit, ids, pass, t)
    requires 0 < p < |ids| && 0 < c < |ids| && ids[p] != 0 && ids[c] == 0 && SingleParent(rev, c)
    ensures BlockTrees(rev, done + {(p, c)}, limit, ids[c := ids[p]], NewPass(ids, pass, t, p), NewHeir(t, p, c))
  {
    InheritHeirs(rev, done, ids, t, p, c);
    InheritFull(rev, done, limit, ids, pass, t, p, c);
    InheritFirsts(ids, t, p, c, ids[p]);
  }

  lemma FirstCounts(ids: seq<nat>, pass: map<nat, nat>, t: Trees, p: nat, c: nat)
    requires PassCounts(ids, pass, t) && p < |ids| && c < |ids| && c !in t.parent && p !in t.first
    ensures PassCounts(ids[c := ids[p]], pass, t.(parent := t.parent[c := p], first := t.first[p := c]))
  {
    assert forall x: nat :: InBlock(ids[c := ids[p]], t.extra, x) == InBlock(ids, t.extra, x);
  }

  lemma ExtraInBlock(ids: seq<nat>, extra: set<nat>, p: nat, c: nat)
    requires p < |ids| && c < |ids| && c !in extra
    ensures forall x: nat :: x != ids[p] ==> InBlock(ids[c := ids[p]], extra + {c}, x) == InBlock(ids, extra, x)
    ensures |InBlock(ids[c := ids[p]], extra + {c}, ids[p])| == |InBlock(ids, extra, ids[p])| + 1
  {
    assert InBlock(ids[c := ids[p]], extra + {c}, ids[p]) == InBlock(ids, extra, ids[p]) + {c};
  }

  lemma ExtraCounts(ids: seq<nat>, pass: map<nat, nat>, t: Trees, p: nat, c: nat)
    requires PassCounts(ids, pass, t) && p < |ids| && c < |ids| && c !in t.parent && ids[p] in pass && ids[p] != 0
    ensures PassCounts(ids[c := ids[p]], pass[ids[p] := pass[ids[p]] + 1],
                       t.(parent := t.parent[c := p], extra := t.extra + {c}))
  {
    ExtraInBlock(ids, t.extra, p, c);
  }

  lemma InheritCounts(ids: seq<nat>, pass: map<nat, nat>, t: Trees, p: nat, c: nat)
    requires PassCounts(ids, pass, t) && p < |ids| && c < |ids| && c !in t.parent && ids[p] in pass && ids[p] != 0
    ensures PassCounts(ids[c := ids[p]], NewPass(ids, pass, t, p), NewHeir(t, p, c))
  {
    if p in t.first {
      ExtraCounts(ids, pass, t, p, c);
    } else {
      FirstCounts(ids, pass, t, p, c);
    }
  }

  lemma OpenHeirs(rev: map<nat, set<nat>>, done: Edges, ids: seq<nat>, t: Trees, p: nat, c: nat, b: nat)
    requires HeirsOk(rev, done, ids, t)
    requires p < |ids| && c < |ids| && (p != 0 ==> ids[p] != 0) && ids[c] == 0 && b != 0
    ensures HeirsOk(rev, done + {(p, c)}, ids[c := b], t.(opener := t.opener[b := c]))
  {
  }

  lemma OpenFull(rev: map<nat, set<nat>>, done: Edges, limit: nat, ids: seq<nat>, pass: map<nat, nat>, t: Trees,
                 p: nat, c: nat, b: nat)
    requires HeirsOk(rev, done, ids, t) && FullOk(rev, done, limit, ids, pass, t)
    requires p < |ids| && c < |ids| && (p != 0 ==> ids[p] != 0) && ids[c] == 0 && b !in pass
    requires p != 0 && SingleParent(rev, c) ==> Exhausted(limit, ids, pass, t, p)
    ensures FullOk(rev, done + {(p, c)}, limit, ids[c := b], pass[b := 1], t.(opener := t.opener[b := c]))
  {
  }

  lemma OpenOpeners(ids: seq<nat>, t: Trees, c: nat, b: nat)
    requires OpenersOk(ids, t) && c < |ids| && forall d: nat :: d < |ids| ==> ids[d] != b
    ensures OpenersOk(ids[c := b], t.(opener := t.opener[b := c]))
  {
  }

  lemma OpenTree(rev: map<nat, set<nat>>, done: Edges, limit: nat, ids: seq<nat>, pass: map<nat, nat>, t: Trees,
                 p: nat, c: nat, b: nat)
    requires BlockTrees(rev, done, limit, ids, pass, t)
    requires p < |ids| && 0 < c < |ids| && (p != 0 ==> ids[p] != 0) && ids[c] == 0
    requires b != 0 && b !in pass && forall d: nat :: d < |ids| ==> ids[d] != b
    requires p != 0 && SingleParent(rev, c) ==> Exhausted(limit, ids, pass, t, p)
    ensures BlockTrees(rev, done + {(p, c)}, limit, ids[c := b], pass[b := 1], t.(opener := t.opener[b := c]))
  {
    OpenHeirs(rev, done, ids, t, p, c, b);
    OpenFull(rev, done, limit, ids, pass, t, p, c, b);
    OpenOpeners(ids, t, c, b);
  }

  lemma OpenCounts(ids: seq<nat>, pass: map<nat, nat>, t: Trees, c: nat, b: nat)
    requires PassCounts(ids, pass, t) && c < |ids| && c !in t.parent && b !in pass
    requires forall d: nat :: d < |ids| ==> ids[d] != b
    ensures PassCounts(ids[c := b], pass[b := 1], t.(opener := t.opener[b := c]))
  {
    assert forall x: nat :: InBlock(ids[c := b], t.extra, x) == InBlock(ids, t.extra, x);
    assert InBlock(ids, t.extra, b) == {};
  }

  lemma SkipTree(rev: map<nat, set<nat>>, done: Edges, limit: nat, ids: seq<nat>, pass: map<nat, nat>, t: Trees,
                 p: nat, c: nat)
    requires BlockTrees(rev, done, limit, ids, pass, t)
    requires p < |ids| && (p != 0 ==> ids[p] != 0 && !SingleParent(rev, c))
    ensures BlockTrees(rev, done + {(p, c)}, limit, ids, pass, t)
  {
  }

  lemma RootLevel(e: Edges, level: seq<int>, c: nat)
    requires Acyclic(e) && AllLevels(e, 0, level) && c < |level| && Reaches(e, 0, c)
    ensures level[c] >= 0 && (level[c] == 0 <==> c == 0)
  {
    assert IsLevel(e, 0, c, level[c]);
    assert !Precedes(e, 0, 0);
  }

  lemma NotARootChild(deps: map<nat, set<nat>>, rev: map<nat, set<nat>>, level: seq<int>, p: nat, c: nat)
    requires Prepared(deps, rev, level) && (p, c) in MapEdges(deps)
    ensures p < |level| && 0 < c < |level| && 0 <= level[p] < level[c]
    ensures p != 0 ==> level[c] >= 2
  {
    assert Reaches(MapEdges(deps), 0, p);
    LevelRises(MapEdges(deps), 0, level, p, c);
    RootLevel(MapEdges(deps), level, p);
    RootLevel(MapEdges(deps), level, c);
  }

  /** Chains but chain 0 have a parent. */
  lemma HasParent(deps: map<nat, set<nat>>, rev: map<nat, set<nat>>, level: seq<int>, c: nat) returns (p: nat)
    requires Prepared(deps, rev, level) && 0 < c < |level|
    ensures (p, c) in MapEdges(deps) && (p != 0 || level[c] == 1)
  {
    var e := MapEdges(deps);
    RootLevel(e, level, c);
    assert IsLevel(e, 0, c, level[c]);
    p :| Walk(e, 0, p, level[c] - 1) && (p, c) in e;
    if p == 0 && level[c] > 1 {
      assert Precedes(e, 0, 0);
    }
  }

  // ---------- Visiting a chain ----------

  lemma SingleParentUntouched(deps: map<nat, set<nat>>, rev: map<nat, set<nat>>, level: seq<int>, done: Edges, ch: nat, c: nat)
    requires Prepared(deps, rev, level) && done <= MapEdges(deps)
    requires ch != 0 && (ch, c) in MapEdges(deps) && (ch, c) !in done && SingleParent(rev, c)
    ensures c < |level| && !Touched(done, level, c)
  {
    NotARootChild(deps, rev, level, ch, c);
    assert ch in rev[c];
    if p: nat :| (p, c) in done && (p != 0 || level[c] == 1) {
      assert (p, c) in MapEdges(deps);
      assert p in rev[c];
      if p != 0 {
        TwoElements(rev[c], 0, ch, p);
      }
    }
  }

  lemma TwoElements(s: set<nat>, a: nat, b: nat, x: nat)
    requires |s| == 2 && a in s && b in s && x in s && a != b
    ensures x == a || x == b
  {
    assert |s - {a} - {b}| == 0;
    assert x in s - {a} - {b} || x == a || x == b;
  }

  ghost predicate AllOk(rev: map<nat, set<nat>>, done: Edges, level: seq<int>, limit: nat, ids: seq<nat>,
                        writes: seq<nat>, next: nat, pass: map<nat, nat>, t: Trees)
  {
    && BlocksOk(done, level, limit, ids, writes, next, pass)
    && BlockTrees(rev, done, limit, ids, pass, t) && PassCounts(ids, pass, t)
  }

  lemma NoBlockYet(done: Edges, level: seq<int>, limit: nat, ids: seq<nat>, writes: seq<nat>,
                   next: nat, pass: map<nat, nat>, c: nat)
    requires BlocksOk(done, level, limit, ids, writes, next, pass) && 0 < c < |level|
    ensures ids[c] == 0 <==> !Touched(done, level, c)
    ensures next + 1 !in pass && forall d: nat :: d < |ids| ==> ids[d] != next + 1
  {
    assert writes[c] == if Touched(done, level, c) then 1 else 0;
  }

  lemma NoHeir(rev: map<nat, set<nat>>, done: Edges, ids: seq<nat>, t: Trees, c: nat)
    requires HeirsOk(rev, done, ids, t) && (c >= |ids| || ids[c] == 0)
    ensures c !in t.parent
  {
    assert c in t.parent ==> HeirOf(rev, done, ids, t.parent[c], c);
  }

  lemma OpenBlocks(done: Edges, level: seq<int>, limit: nat, ids: seq<nat>, writes: seq<nat>, next: nat,
                   pass: map<nat, nat>, p: nat, c: nat)
    requires BlocksOk(done, level, limit, ids, writes, next, pass)
    requires 0 < c < |level| && ids[c] == 0 && (p == 0 ==> level[c] == 1)
    ensures BlocksOk(done + {(p, c)}, level, limit, ids[c := next + 1], writes[c := writes[c] + 1], next + 1,
                     pass[next + 1 := 1])
    ensures next + 1 !in pass && forall d: nat :: d < |ids| ==> ids[d] != next + 1
  {
    NoBlockYet(done, level, limit, ids, writes, next, pass, c);
    WriteKeeps(done, level, limit, ids, writes, next, pass, p, c, next + 1, next + 1, pass[next + 1 := 1]);
  }

  lemma InheritBlocks(done: Edges, level: seq<int>, limit: nat, ids: seq<nat>, writes: seq<nat>, next: nat,
                      pass: map<nat, nat>, t: Trees, p: nat, c: nat)
    requires BlocksOk(done, level, limit, ids, writes, next, pass)
    requires 0 < p < |ids| && 0 < c < |level| && ids[p] != 0 && ids[c] == 0
    requires p in t.first && ids[p] in pass ==> pass[ids[p]] + 1 <= limit
    ensures BlocksOk(done + {(p, c)}, level, limit, ids[c := ids[p]], writes[c := writes[c] + 1], next, NewPass(ids, pass, t, p))
    ensures ids[p] in pass
  {
    NoBlockYet(done, level, limit, ids, writes, next, pass, c);
    WriteKeeps(done, level, limit, ids, writes, next, pass, p, c, ids[p], next, NewPass(ids, pass, t, p));
  }

  /** The child of `ch` takes over its block. */
  lemma Inherits(rev: map<nat, set<nat>>, done: Edges, level: seq<int>, limit: nat, ids: seq<nat>, writes: seq<nat>,
                 next: nat, pass: map<nat, nat>, t: Trees, ch: nat, child: nat)
    requires AllOk(rev, done, level, limit, ids, writes, next, pass, t)
    requires 0 < ch < |ids| && 0 < child < |level| && ids[ch] != 0 && ids[child] == 0 && SingleParent(rev, child)
    requires ch in t.first && ids[ch] in pass ==> pass[ids[ch]] + 1 <= limit
    ensures AllOk(rev, done + {(ch, child)}, level, limit, ids[child := ids[ch]], writes[child := writes[child] + 1], next,
                  NewPass(ids, pass, t, ch), NewHeir(t, ch, child))
  {
    NoHeir(rev, done, ids, t, child);
    InheritBlocks(done, level, limit, ids, writes, next, pass, t, ch, child);
    InheritTree(rev, done, limit, ids, pass, t, ch, child);
    InheritCounts(ids, pass, t, ch, child);
  }

  /** The child of `p` opens a block of its own. */
  lemma Opens(rev: map<nat, set<nat>>, done: Edges, level: seq<int>, limit: nat, ids: seq<nat>, writes: seq<nat>,
              next: nat, pass: map<nat, nat>, t: Trees, p: nat, child: nat)
    requires AllOk(rev, done, level, limit, ids, writes, next, pass, t)
    requires p < |ids| && 0 < child < |level| && ids[child] == 0
    requires if p == 0 then level[child] == 1 else ids[p] != 0
    requires p != 0 && SingleParent(rev, child) ==> Exhausted(limit, ids, pass, t, p)
    ensures AllOk(rev, done + {(p, child)}, level, limit, ids[child := next + 1], writes[child := writes[child] + 1],
                  next + 1, pass[next + 1 := 1], t.(opener := t.opener[next + 1 := child]))
  {
    NoHeir(rev, done, ids, t, child);
    OpenBlocks(done, level, limit, ids, writes, next, pass, p, child);
    OpenTree(rev, done, limit, ids, pass, t, p, child, next + 1);
    OpenCounts(ids, pass, t, child, next + 1);
  }

  /** The child of `p` keeps its block, or is left to another parent. */
  lemma Skips(rev: map<nat, set<nat>>, done: Edges, level: seq<int>, limit: nat, ids: seq<nat>, writes: seq<nat>,
              next: nat, pass: map<nat, nat>, t: Trees, p: nat, child: nat)
    requires AllOk(rev, done, level, limit, ids, writes, next, pass, t)
    requires p < |ids| && 0 < child < |level|
    requires if p == 0 then level[child] != 1 else ids[p] != 0 && ids[child] != 0 && !SingleParent(rev, child)
    ensures AllOk(rev, done + {(p, child)}, level, limit, ids, writes, next, pass, t)
  {
    SkipKeeps(done, level, limit, ids, writes, next, pass, p, child);
    SkipTree(rev, done, limit, ids, pass, t, p, child);
  }

  /** The child joins the block of `ch`; only for the first such child is the bypass count left alone. */
  method JoinBlock(rev: map<nat, set<nat>>, ghost level: seq<int>, limit: nat, ids: array<nat>, ghost writes: seq<nat>,
                   ghost next: nat, pass: map<nat, nat>, ghost t: Trees, ghost done: Edges, ch: nat, child: nat, count: nat)
    returns (ghost writes': seq<nat>, pass': map<nat, nat>, ghost t': Trees)
    requires AllOk(rev, done, level, limit, ids[..], writes, next, pass, t)
    requires 0 < ch < ids.Length && 0 < child < ids.Length && ids[ch] != 0 && ids[child] == 0 && SingleParent(rev, child)
    requires ids[ch] in pass && (count > 1 <==> ch in t.first) && (count > 1 ==> pass[ids[ch]] + 1 <= limit)
    modifies ids
    ensures AllOk(rev, done + {(ch, child)}, level, limit, ids[..], writes', next, pass', t')
    ensures ids[ch] == old(ids[ch]) && ch in t'.first
  {
    ghost var before := ids[..];
    Inherits(rev, done, level, limit, before, writes, next, pass, t, ch, child);
    writes', pass', t' := writes[child := writes[child] + 1], pass, NewHeir(t, ch, child);
    if count > 1 {
      pass' := pass[ids[ch] := pass[ids[ch]] + 1];
    }
    ids[child] := ids[ch];
    assert ids[..] == before[child := before[ch]];
  }

  /** The child gets a new block. */
  method OpenBlock(ghost rev: map<nat, set<nat>>, ghost level: seq<int>, ghost limit: nat, ids: array<nat>,
                   ghost writes: seq<nat>, next: nat, pass: map<nat, nat>, ghost t: Trees, ghost done: Edges,
                   ghost p: nat, child: nat)
    returns (ghost writes': seq<nat>, next': nat, pass': map<nat, nat>, ghost t': Trees)
    requires AllOk(rev, done, level, limit, ids[..], writes, next, pass, t)
    requires p < ids.Length && 0 < child < ids.Length && ids[child] == 0
    requires if p == 0 then level[child] == 1 else ids[p] != 0
    requires p != 0 && SingleParent(rev, child) ==> Exhausted(limit, ids[..], pass, t, p)
    modifies ids
    ensures AllOk(rev, done + {(p, child)}, level, limit, ids[..], writes', next', pass', t')
    ensures ids[p] == old(ids[p]) && t'.first == t.first
  {
    InUse(done, level, limit, ids[..], writes, next, pass, p);
    writes', t' := writes[child := writes[child] + 1], t.(opener := t.opener[next + 1 := child]);
    Opens(rev, done, level, limit, ids[..], writes, next, pass, t, p, child);
    next' := next + 1;
    pass' := pass[next' := 1];
    ids[child] := next';
    assert ids[..] == old(ids[..])[child := next + 1];
  }

  /** One child of a chain other than chain 0; `count` is one more than the children that took over the block so far. */
  method VisitChild(deps: map<nat, set<nat>>, rev: map<nat, set<nat>>, ghost level: seq<int>, limit: nat,
                    ids: array<nat>, ghost writes: seq<nat>, next: nat, pass: map<nat, nat>, ghost t: Trees,
                    ghost done: Edges, ch: nat, child: nat, count: nat)
    returns (ghost writes': seq<nat>, next': nat, pass': map<nat, nat>, ghost t': Trees, count': nat)
    requires Prepared(deps, rev, level) && done <= MapEdges(deps)
    requires AllOk(rev, done, level, limit, ids[..], writes, next, pass, t)
    requires ch != 0 && (ch, child) in MapEdges(deps) && (ch, child) !in done && ch < ids.Length && ids[ch] != 0
    requires count >= 1 && (count > 1 <==> ch in t.first)
    modifies ids
    ensures AllOk(rev, done + {(ch, child)}, level, limit, ids[..], writes', next', pass', t')
    ensures ids[ch] == old(ids[ch])
    ensures count' >= 1 && (count' > 1 <==> ch in t'.first)
  {
    writes', next', pass', t', count' := writes, next, pass, t, count;
    NotARootChild(deps, rev, level, ch, child);
    InUse(done, level, limit, ids[..], writes, next, pass, ch);
    var single := SingleParent(rev, child);
    if single {
      SingleParentUntouched(deps, rev, level, done, ch, child);
      NoBlockYet(done, level, limit, ids[..], writes, next, pass, child);
    }
    if single && (count == 1 || pass[ids[ch]] + 1 <= limit) {
      writes', pass', t' := JoinBlock(rev, level, limit, ids, writes, next, pass, t, done, ch, child, count);
      count' := count + 1;
    } else if ids[child] == 0 {
      writes', next', pass', t' := OpenBlock(rev, level, limit, ids, writes, next, pass, t, done, ch, child);
    } else {
      Skips(rev, done, level, limit, ids[..], writes, next, pass, t, ch, child);
    }
  }

  lemma InUse(done: Edges, level: seq<int>, limit: nat, ids: seq<nat>, writes: seq<nat>, next: nat,
              pass: map<nat, nat>, c: nat)
    requires BlocksOk(done, level, limit, ids, writes, next, pass) && c < |ids|
    ensures |ids| == |level| && ids[c] in pass
  {
  }

  /** The edges out of chain `p` to the children in `s`. */
  ghost function EdgesTo(p: nat, s: set<nat>): Edges
  {
    set c | c in s :: (p, c)
  }

  lemma EdgesToStep(p: nat, s: set<nat>, c: nat)
    ensures EdgesTo(p, s + {c}) == EdgesTo(p, s) + {(p, c)}
  {
  }

  /** All children of a chain other than chain 0. */
  method VisitChain(deps: map<nat, set<nat>>, rev: map<nat, set<nat>>, ghost level: seq<int>, limit: nat,
                    ids: array<nat>, ghost writes: seq<nat>, next: nat, pass: map<nat, nat>, ghost t: Trees,
                    ghost done: Edges, ch: nat)
    returns (ghost writes': seq<nat>, next': nat, pass': map<nat, nat>, ghost t': Trees)
    requires Prepared(deps, rev, level) && done <= MapEdges(deps)
    requires AllOk(rev, done, level, limit, ids[..], writes, next, pass, t)
    requires ch != 0 && ch in deps && ch < ids.Length && ids[ch] != 0
    requires forall c: nat :: (ch, c) !in done
    modifies ids
    ensures AllOk(rev, done + EdgesTo(ch, deps[ch]), level, limit, ids[..], writes', next', pass', t')
  {
    writes', next', pass', t' := writes, next, pass, t;
    var todo, count := deps[ch], 1;
    ghost var seen: set<nat>, now := {}, done;
    assert done + EdgesTo(ch, seen) == done;
    FirstHeirVisited(rev, done, limit, ids[..], pass, t, ch);
    while todo != {}
      invariant todo + seen == deps[ch] && todo !! seen && now == done + EdgesTo(ch, seen)
      invariant ids[ch] != 0 && count >= 1 && (count > 1 <==> ch in t'.first)
      invariant AllOk(rev, now, level, limit, ids[..], writes', next', pass', t')
    {
      var child :| child in todo;
      EdgesSoFar(deps, done, ch, seen, child);
      writes', next', pass', t', count := VisitChild(deps, rev, level, limit, ids, writes', next', pass', t',
                                                     now, ch, child, count);
      todo, seen, now := todo - {child}, seen + {child}, now + {(ch, child)};
    }
    assert seen == deps[ch];
  }

  lemma FirstHeirVisited(rev: map<nat, set<nat>>, done: Edges, limit: nat, ids: seq<nat>, pass: map<nat, nat>, t: Trees,
                         p: nat)
    requires BlockTrees(rev, done, limit, ids, pass, t)
    ensures p in t.first ==> exists c: nat :: (p, c) in done
  {
    if p in t.first {
      var c := t.first[p];
      assert HeirOf(rev, done, ids, t.parent[c], c);
    }
  }

  lemma EdgesSoFar(deps: map<nat, set<nat>>, done: Edges, ch: nat, seen: set<nat>, child: nat)
    requires done <= MapEdges(deps) && ch in deps && seen <= deps[ch] && child in deps[ch] && child !in seen
    requires forall c: nat :: (ch, c) !in done
    ensures (ch, child) in MapEdges(deps) && (ch, child) !in done + EdgesTo(ch, seen)
    ensures done + EdgesTo(ch, seen) <= MapEdges(deps)
    ensures done + EdgesTo(ch, seen) + {(ch, child)} == done + EdgesTo(ch, seen + {child})
  {
    MapEdge(deps, ch, child);
    EdgesToStep(ch, seen, child);
    forall q | q in EdgesTo(ch, seen)
      ensures q in MapEdges(deps)
    {
      MapEdge(deps, ch, q.1);
    }
  }

  /** Chain 0 opens block 0 for itself and one block for each child of level 1. */
  method VisitRoot(deps: map<nat, set<nat>>, rev: map<nat, set<nat>>, level: seq<int>, limit: nat, ids: array<nat>)
    returns (ghost writes: seq<nat>, next: nat, pass: map<nat, nat>, ghost t: Trees)
    requires Prepared(deps, rev, level) && ids.Length == |level| && 0 in deps
    requires forall c :: 0 <= c < ids.Length ==> ids[c] == 0
    modifies ids
    ensures AllOk(rev, EdgesTo(0, deps[0]), level, limit, ids[..], writes, next, pass, t)
  {
    next := 0;
    ids[0] := next;
    pass := map[next := 0];
    writes, t := seq(|level|, c => if c == 0 then 1 else 0), NO_TREES;
    var todo := deps[0];
    ghost var seen: set<nat>, now := {}, EdgesTo(0, {});
    StartsOk(rev, level, limit, ids[..], writes);
    while todo != {}
      invariant todo + seen == deps[0] && todo !! seen && now == EdgesTo(0, seen)
      invariant AllOk(rev, now, level, limit, ids[..], writes, next, pass, t)
    {
      var child :| child in todo;
      MapEdge(deps, 0, child);
      NotARootChild(deps, rev, level, 0, child);
      EdgesToStep(0, seen, child);
      if level[child] == 1 {
        assert !Touched(now, level, child);
        NoBlockYet(now, level, limit, ids[..], writes, next, pass, child);
        writes, next, pass, t := OpenBlock(rev, level, limit, ids, writes, next, pass, t, now, 0, child);
      } else {
        Skips(rev, now, level, limit, ids[..], writes, next, pass, t, 0, child);
      }
      todo, seen, now := todo - {child}, seen + {child}, now + {(0, child)};
    }
    assert seen == deps[0];
  }

  lemma StartsOk(rev: map<nat, set<nat>>, level: seq<int>, limit: nat, ids: seq<nat>, writes: seq<nat>)
    requires |level| == |ids| == |writes| > 0 && forall c :: 0 <= c < |ids| ==> ids[c] == 0
    requires forall c :: 0 <= c < |writes| ==> writes[c] == if c == 0 then 1 else 0
    ensures AllOk(rev, EdgesTo(0, {}), level, limit, ids, writes, 0, map[0 := 0], NO_TREES)
  {
    assert EdgesTo(0, {}) == {};
    assert forall c: nat :: c < |level| ==> !Touched({}, level, c);
  }

  // ---------- All chains ----------

  /** The edges out of the first `k` chains of the order. */
  ghost function EdgesFrom(deps: map<nat, set<nat>>, order: seq<nat>, k: nat): Edges
    requires k <= |order|
  {
    set q | q in MapEdges(deps) && q.0 in order[..k]
  }

  lemma EdgesFromStep(deps: map<nat, set<nat>>, order: seq<nat>, k: nat)
    requires k < |order|
    ensures EdgesFrom(deps, order, k + 1)
            == EdgesFrom(deps, order, k) + if order[k] in deps then EdgesTo(order[k], deps[order[k]]) else {}
  {
    assert order[..k + 1] == order[..k] + [order[k]];
    forall q | q in MapEdges(deps) && q.0 == order[k]
      ensures order[k] in deps && q in EdgesTo(order[k], deps[order[k]])
    {
      MapEdge(deps, q.0, q.1);
      assert q == (order[k], q.1);
    }
    if order[k] in deps {
      forall c | c in deps[order[k]]
        ensures (order[k], c) in MapEdges(deps)
      {
      }
    }
  }

  /** When its turn comes, a chain other than chain 0 has its block, because a parent came before. */
  lemma ParentBefore(deps: map<nat, set<nat>>, rev: map<nat, set<nat>>, level: seq<int>, order: seq<nat>, k: nat)
    requires Prepared(deps, rev, level) && IsLevelOrder(level, order) && k < |order| && order[k] != 0
    ensures Touched(EdgesFrom(deps, order, k), level, order[k])
  {
    var c := order[k];
    var p := HasParent(deps, rev, level, c);
    NotARootChild(deps, rev, level, p, c);
    assert p in order;
    var j :| 0 <= j < |order| && order[j] == p;
    assert Comes(level, p, c);
    assert forall i :: k < i < |order| ==> Comes(level, order[k], order[i]);
    assert p == order[..k][j];
  }

  lemma RootIsFirst(deps: map<nat, set<nat>>, rev: map<nat, set<nat>>, level: seq<int>, order: seq<nat>)
    requires Prepared(deps, rev, level) && IsLevelOrder(level, order)
    ensures |order| > 0 && order[0] == 0 && forall k :: 0 < k < |order| ==> order[k] != 0
  {
    assert 0 in order;
    var k :| 0 <= k < |order| && order[k] == 0;
    RootLevel(MapEdges(deps), level, 0);
    RootLevel(MapEdges(deps), level, order[0]);
    assert k > 0 ==> Comes(level, order[0], order[k]);
    assert forall j :: 0 < j < |order| ==> Comes(level, order[0], order[j]);
  }

  /** The root has dependents when there are other chains. */
  lemma RootHasDependents(deps: map<nat, set<nat>>, rev: map<nat, set<nat>>, level: seq<int>)
    requires Prepared(deps, rev, level)
    ensures 0 in deps
  {
    assert Reaches(MapEdges(deps), 0, 1);
    var k: nat :| Walk(MapEdges(deps), 0, 1, k);
    assert k > 0;
    var z := WalkFirst(MapEdges(deps), 0, 1, k);
    MapEdge(deps, 0, z);
  }

  /** What a visit of the chain at place `k` of the order finds, and the edges that have been visited after it. */
  lemma PlaceReady(deps: map<nat, set<nat>>, rev: map<nat, set<nat>>, level: seq<int>, order: seq<nat>, k: nat,
                   limit: nat, ids: seq<nat>, writes: seq<nat>, next: nat, pass: map<nat, nat>)
    requires Prepared(deps, rev, level) && IsLevelOrder(level, order) && k < |order| && order[k] != 0
    requires BlocksOk(EdgesFrom(deps, order, k), level, limit, ids, writes, next, pass)
    ensures order[k] < |ids| && ids[order[k]] != 0
    ensures EdgesFrom(deps, order, k) <= MapEdges(deps)
    ensures forall c: nat :: (order[k], c) !in EdgesFrom(deps, order, k)
    ensures EdgesFrom(deps, order, k + 1)
            == EdgesFrom(deps, order, k) + if order[k] in deps then EdgesTo(order[k], deps[order[k]]) else {}
  {
    ParentBefore(deps, rev, level, order, k);
    NoBlockYet(EdgesFrom(deps, order, k), level, limit, ids, writes, next, pass, order[k]);
    NotVisitedYet(deps, level, order, k);
    EdgesFromStep(deps, order, k);
  }

  /** A chain with or without children. */
  method VisitPlace(deps: map<nat, set<nat>>, rev: map<nat, set<nat>>, ghost level: seq<int>, limit: nat,
                    ids: array<nat>, ghost writes: seq<nat>, next: nat, pass: map<nat, nat>, ghost t: Trees,
                    ghost done: Edges, ch: nat)
    returns (ghost writes': seq<nat>, next': nat, pass': map<nat, nat>, ghost t': Trees)
    requires Prepared(deps, rev, level) && done <= MapEdges(deps)
    requires AllOk(rev, done, level, limit, ids[..], writes, next, pass, t)
    requires ch != 0 && ch < ids.Length && ids[ch] != 0
    requires forall c: nat :: (ch, c) !in done
    modifies ids
    ensures AllOk(rev, done + if ch in deps then EdgesTo(ch, deps[ch]) else {}, level, limit, ids[..],
                  writes', next', pass', t')
  {
    writes', next', pass', t' := writes, next, pass, t;
    if ch in deps {
      writes', next', pass', t' := VisitChain(deps, rev, level, limit, ids, writes, next, pass, t, done, ch);
    } else {
      assert done + {} == done;
    }
  }

  /**
   Blocks of all chains: each chain is written exactly once, only chain 0 stays in
   block 0, every block is a tree of heirs below the chain that opened it, and no block
   is bypassed into more often than the limit allows.
   */
  method AssignBlocks(deps: map<nat, set<nat>>, rev: map<nat, set<nat>>, level: seq<int>, limit: nat)
    returns (ids: array<nat>, ghost writes: seq<nat>, pass: map<nat, nat>, ghost t: Trees)
    requires Prepared(deps, rev, level)
    ensures fresh(ids) && ids.Length == |level| == |writes|
    ensures forall c :: 0 <= c < |level| ==> writes[c] == 1
    ensures forall c :: 0 <= c < |level| ==> (ids[c] == 0 <==> c == 0)
    ensures forall c :: 0 <= c < |level| ==> ids[c] in pass
    ensures forall b :: b in pass ==> pass[b] <= MaxPass(limit)
    ensures BlockTrees(rev, MapEdges(deps), limit, ids[..], pass, t) && PassCounts(ids[..], pass, t)
  {
    ids := new nat[|level|](_ => 0);
    var order := LevelOrder(level);
    RootIsFirst(deps, rev, level, order);
    RootHasDependents(deps, rev, level);
    var next: nat;
    writes, next, pass, t := VisitRoot(deps, rev, level, limit, ids);
    EdgesFromStep(deps, order, 0);
    assert EdgesFrom(deps, order, 0) == {};
    for k := 1 to |order|
      invariant AllOk(rev, EdgesFrom(deps, order, k), level, limit, ids[..], writes, next, pass, t)
    {
      PlaceReady(deps, rev, level, order, k, limit, ids[..], writes, next, pass);
      writes, next, pass, t := VisitPlace(deps, rev, level, limit, ids, writes, next, pass, t,
                                          EdgesFrom(deps, order, k), order[k]);
    }
    AllTouched(deps, rev, level, order);
    AllEdges(deps, rev, level, order);
    EveryBlockWritten(MapEdges(deps), level, limit, ids[..], writes, next, pass);
  }

  lemma EveryBlockWritten(done: Edges, level: seq<int>, limit: nat, ids: seq<nat>, writes: seq<nat>, next: nat,
                          pass: map<nat, nat>)
    requires BlocksOk(done, level, limit, ids, writes, next, pass)
    requires forall c: nat :: 0 < c < |level| ==> Touched(done, level, c)
    ensures forall c :: 0 <= c < |level| ==> writes[c] == 1 && (ids[c] == 0 <==> c == 0) && ids[c] in pass
    ensures forall b :: b in pass ==> pass[b] <= MaxPass(limit)
  {
    forall c: nat | c < |level|
      ensures writes[c] == 1 && (ids[c] == 0 <==> c == 0)
    {
    }
  }

  lemma AllEdges(deps: map<nat, set<nat>>, rev: map<nat, set<nat>>, level: seq<int>, order: seq<nat>)
    requires Prepared(deps, rev, level) && IsLevelOrder(level, order)
    ensures EdgesFrom(deps, order, |order|) == MapEdges(deps)
  {
    assert order[..|order|] == order;
    forall q | q in MapEdges(deps)
      ensures q.0 in order
    {
      assert q == (q.0, q.1);
      assert q.0 < |level|;
    }
  }

  lemma NotVisitedYet(deps: map<nat, set<nat>>, level: seq<int>, order: seq<nat>, k: nat)
    requires IsLevelOrder(level, order) && k < |order|
    ensures forall c: nat :: (order[k], c) !in EdgesFrom(deps, order, k)
  {
    assert forall j :: 0 <= j < k ==> Comes(level, order[j], order[k]);
  }

  lemma AllTouched(deps: map<nat, set<nat>>, rev: map<nat, set<nat>>, level: seq<int>, order: seq<nat>)
    requires Prepared(deps, rev, level) && IsLevelOrder(level, order)
    ensures forall c: nat :: 0 < c < |level| ==> Touched(EdgesFrom(deps, order, |order|), level, c)
  {
    forall c: nat | 0 < c < |level|
      ensures Touched(EdgesFrom(deps, order, |order|), level, c)
    {
      var p := HasParent(deps, rev, level, c);
      NotARootChild(deps, rev, level, p, c);
      assert order[..|order|] == order && p in order;
    }
  }

  // ---------- The blocks themselves ----------

  ghost predicate FirstsAscend(a: Block, b: Block)
  {
    a.chains != [] && b.chains != [] && a.chains[0] < b.chains[0]
  }

  ghost predicate InSomeBlock(blocks: seq<Block>, c: nat)
  {
    exists b :: 0 <= b < |blocks| && c in blocks[b].chains
  }

  /** A block lists chains below `n` of its own number, in ascending order. */
  ghost predicate BlockOk(ids: seq<nat>, n: nat, block: Block)
    requires n <= |ids|
  {
    && block.chains != []
    && (forall k :: 0 <= k < |block.chains| ==> block.chains[k] < n && ids[block.chains[k]] == block.blkId)
    && (forall i, j :: 0 <= i < j < |block.chains| ==> block.chains[i] < block.chains[j])
  }

  /** The blocks list the first `n` chains, each under its block number, in the order of their first chains. */
  ghost predicate BlocksList(ids: seq<nat>, n: nat, blocks: seq<Block>)
    requires n <= |ids|
  {
    && (forall i, j :: 0 <= i < j < |blocks| ==> FirstsAscend(blocks[i], blocks[j]))
    && (forall i, j :: 0 <= i < j < |blocks| ==> blocks[i].blkId != blocks[j].blkId)
    && (forall b :: 0 <= b < |blocks| ==> BlockOk(ids, n, blocks[b]))
    && (forall c: nat :: c < n ==> InSomeBlock(blocks, c))
  }

  method FindBlock(blocks: seq<Block>, id: nat) returns (b: nat)
    ensures b <= |blocks| && (b < |blocks| ==> blocks[b].blkId == id)
    ensures forall i :: 0 <= i < b ==> blocks[i].blkId != id
  {
    b := 0;
    while b < |blocks| && blocks[b].blkId != id
      invariant b <= |blocks| && forall i :: 0 <= i < b ==> blocks[i].blkId != id
    {
      b := b + 1;
    }
  }

  /** Chain `c` joins the block at position `b`, or a new one at the end. */
  function Joined(blocks: seq<Block>, b: nat, id: nat, c: nat): seq<Block>
    requires b <= |blocks|
  {
    if b == |blocks| then blocks + [Block(id, [c])]
    else blocks[b := Block(blocks[b].blkId, blocks[b].chains + [c])]
  }

  lemma JoinedAscends(ids: seq<nat>, n: nat, blocks: seq<Block>, b: nat)
    requires n < |ids| && BlocksList(ids, n, blocks) && b <= |blocks|
    ensures forall i, j :: 0 <= i < j < |Joined(blocks, b, ids[n], n)| ==>
                             FirstsAscend(Joined(blocks, b, ids[n], n)[i], Joined(blocks, b, ids[n], n)[j])
  {
    var t := Joined(blocks, b, ids[n], n);
    forall i, j | 0 <= i < j < |t|
      ensures FirstsAscend(t[i], t[j])
    {
      assert BlockOk(ids, n, blocks[i]);
      assert j < |blocks| ==> FirstsAscend(blocks[i], blocks[j]);
    }
  }

  lemma JoinedKeeps(ids: seq<nat>, n: nat, blocks: seq<Block>, b: nat)
    requires n < |ids| && BlocksList(ids, n, blocks) && b <= |blocks|
    requires b < |blocks| ==> blocks[b].blkId == ids[n]
    requires b == |blocks| ==> forall i :: 0 <= i < |blocks| ==> blocks[i].blkId != ids[n]
    ensures BlocksList(ids, n + 1, Joined(blocks, b, ids[n], n))
  {
    var t := Joined(blocks, b, ids[n], n);
    JoinedAscends(ids, n, blocks, b);
    forall i | 0 <= i < |t|
      ensures BlockOk(ids, n + 1, t[i])
    {
      if i < |blocks| {
        assert BlockOk(ids, n, blocks[i]);
      }
    }
    forall c: nat | c < n + 1
      ensures InSomeBlock(t, c)
    {
      if c < n {
        assert InSomeBlock(blocks, c);
        var i :| 0 <= i < |blocks| && c in blocks[i].chains;
        assert c in t[i].chains;
      } else {
        assert n in t[b].chains;
      }
    }
  }

  /** Chains are collected under their block numbers, in the order of the first chain of each block. */
  method CollectBlocks(ids: array<nat>) returns (blocks: seq<Block>)
    ensures BlocksList(ids[..], ids.Length, blocks)
  {
    blocks := [];
    for c := 0 to ids.Length
      invariant BlocksList(ids[..], c, blocks)
    {
      var b := FindBlock(blocks, ids[c]);
      JoinedKeeps(ids[..], c, blocks, b);
      if b == |blocks| {
        blocks := blocks + [Block(ids[c], [c])];
      } else {
        blocks := blocks[b := Block(blocks[b].blkId, blocks[b].chains + [c])];
      }
    }
  }

  // ---------- Blocks partition the chains ----------

  function Lists(blocks: seq<Block>): seq<seq<nat>>
  {
    seq(|blocks|, b requires 0 <= b < |blocks| => blocks[b].chains)
  }

  function Flat(lists: seq<seq<nat>>): seq<nat>
  {
    if lists == [] then [] else Flat(lists[..|lists| - 1]) + lists[|lists| - 1]
  }

  lemma {:induction false} FlatMembers(lists: seq<seq<nat>>, c: nat)
    ensures c in Flat(lists) <==> exists b :: 0 <= b < |lists| && c in lists[b]
  {
    if lists != [] {
      FlatMembers(lists[..|lists| - 1], c);
    }
  }

  lemma {:induction false} FlatDistinct(lists: seq<seq<nat>>)
    requires forall b, i, j :: 0 <= b < |lists| && 0 <= i < j < |lists[b]| ==> lists[b][i] != lists[b][j]
    requires forall a, b, c :: 0 <= a < |lists| && 0 <= b < |lists| && c in lists[a] && c in lists[b] ==> a == b
    ensures forall i, j :: 0 <= i < j < |Flat(lists)| ==> Flat(lists)[i] != Flat(lists)[j]
  {
    if lists != [] {
      var n := |lists| - 1;
      FlatDistinct(lists[..n]);
      forall c | c in lists[n]
        ensures c !in Flat(lists[..n])
      {
        FlatMembers(lists[..n], c);
      }
      var f := Flat(lists[..n]);
      forall i, j | 0 <= i < j < |f + lists[n]|
        ensures (f + lists[n])[i] != (f + lists[n])[j]
      {
        assert i < |f| ==> f[i] in f;
        assert j >= |f| ==> (f + lists[n])[j] == lists[n][j - |f|] && lists[n][j - |f|] in lists[n];
      }
    }
  }

  /** The blocks hold every chain exactly once. */
  lemma BlocksPartition(ids: seq<nat>, blocks: seq<Block>)
    requires BlocksList(ids, |ids|, blocks)
    ensures forall i, j :: 0 <= i < j < |Flat(Lists(blocks))| ==> Flat(Lists(blocks))[i] != Flat(Lists(blocks))[j]
    ensures forall c: nat :: c in Flat(Lists(blocks)) <==> c < |ids|
  {
    var lists := Lists(blocks);
    forall a, b, c | 0 <= a < |lists| && 0 <= b < |lists| && c in lists[a] && c in lists[b]
      ensures a == b
    {
      assert BlockOk(ids, |ids|, blocks[a]) && BlockOk(ids, |ids|, blocks[b]);
    }
    forall b, i, j | 0 <= b < |lists| && 0 <= i < j < |lists[b]|
      ensures lists[b][i] != lists[b][j]
    {
      assert BlockOk(ids, |ids|, blocks[b]);
    }
    FlatDistinct(lists);
    forall c: nat
      ensures c in Flat(lists) <==> c < |ids|
    {
      FlatMembers(lists, c);
      if b :| 0 <= b < |lists| && c in lists[b] {
        assert BlockOk(ids, |ids|, blocks[b]);
      }
      if c < |ids| {
        assert InSomeBlock(blocks, c);
        var b :| 0 <= b < |blocks| && c in blocks[b].chains;
        assert c in lists[b];
      }
    }
  }
}
