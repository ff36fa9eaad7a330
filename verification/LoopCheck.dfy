/**
 The loop check of the chain compiler (src/newGraph.cpp): a depth-first search
 from one chain, with the chains on the current path kept on a stack.
 */
module LoopCheck {
  import opened Sequences
  import opened Digraph

  ghost function Elements(s: seq<nat>): set<nat>
  {
    set x | x in s
  }

  /** No walk of at least one edge from `x` ends on the stack, and no cycle can be reached from `x`. */
  ghost predicate Cleared(e: Edges, x: nat, stack: seq<nat>)
  {
    && (forall y :: y in stack ==> !Precedes(e, x, y))
    && !CycleReachable(e, x)
  }

  /** If all children of `id` are off the stack and cleared, then so is `id`. */
  lemma ChildrenClear(e: Edges, id: nat, stack: seq<nat>)
    requires id in stack
    requires forall c :: (id, c) in e ==> c !in stack && Cleared(e, c, stack + [c])
    ensures Cleared(e, id, stack)
  {
    forall y | y in stack
      ensures !Precedes(e, id, y)
    {
      if k: nat :| k > 0 && Walk(e, id, y, k) {
        var c := WalkFirst(e, id, y, k);
        assert y in stack + [c];
        assert k - 1 > 0;
        assert Precedes(e, c, y);
      }
    }
    if y: nat :| Reaches(e, id, y) && Precedes(e, y, y) {
      var k: nat :| Walk(e, id, y, k);
      if k > 0 {
        var c := WalkFirst(e, id, y, k);
        assert Reaches(e, c, y);
      }
    }
  }

  /** A child found on the stack closes a cycle that `id` reaches. */
  lemma BackEdgeIsCycle(e: Edges, id: nat, c: nat)
    requires (id, c) in e && Reaches(e, c, id)
    ensures CycleReachable(e, id)
  {
    EdgeIsWalk(e, id, c);
    var k: nat :| Walk(e, c, id, k);
    WalkAppend(e, c, id, c, k, 1);
    assert Reaches(e, id, c) && Precedes(e, c, c);
  }

  lemma CycleFromChild(e: Edges, id: nat, c: nat)
    requires (id, c) in e && CycleReachable(e, c)
    ensures CycleReachable(e, id)
  {
    EdgeIsWalk(e, id, c);
    var y: nat :| Reaches(e, c, y) && Precedes(e, y, y);
    var k: nat :| Walk(e, c, y, k);
    WalkAppend(e, id, c, y, 1, k);
    assert Reaches(e, id, y);
  }

  lemma PushKeepsReach(e: Edges, id: nat, c: nat, stack: seq<nat>)
    requires (id, c) in e
    requires forall s :: s in stack ==> Reaches(e, s, id)
    ensures forall s :: s in stack + [c] ==> Reaches(e, s, c)
  {
    forall s | s in stack
      ensures Reaches(e, s, c)
    {
      var k: nat :| Walk(e, s, id, k);
      assert Walk(e, s, c, k + 1);
    }
    assert Walk(e, c, c, 0);
  }

  /**
   Whether the search from `id` finds a chain that is already on its path.  The
   children of a chain are visited in no particular order.
   */
  method CheckLoopComplete(id: nat, dependencies: map<nat, set<nat>>, stack: seq<nat>)
    returns (loop: bool, rest: seq<nat>)
    requires |stack| > 0 && stack[|stack| - 1] == id && NoRepeats(stack)
    requires forall s :: s in stack ==> Reaches(MapEdges(dependencies), s, id)
    ensures loop <==> CycleReachable(MapEdges(dependencies), id)
    ensures !loop ==> rest == stack[..|stack| - 1]
    ensures !loop ==> Cleared(MapEdges(dependencies), id, stack)
    decreases |Nodes(MapEdges(dependencies)) - Elements(stack)|
  {
    ghost var e := MapEdges(dependencies);
    rest := stack;
    if id !in dependencies {
      ChildrenClear(e, id, stack);
      return false, rest[..|rest| - 1];
    }
    var todo := dependencies[id];
    while todo != {}
      invariant rest == stack
      invariant todo <= dependencies[id]
      invariant forall c :: c in dependencies[id] - todo ==> c !in stack && Cleared(e, c, stack + [c])
    {
      var ch :| ch in todo;
      todo := todo - {ch};
      assert (id, ch) in e;
      if ch in rest {
        BackEdgeIsCycle(e, id, ch);
        return true, rest;
      }
      PushKeepsReach(e, id, ch, rest);
      PushShrinks(e, id, ch, rest);
      rest := rest + [ch];
      loop, rest := CheckLoopComplete(ch, dependencies, rest);
      if loop {
        CycleFromChild(e, id, ch);
        return true, rest;
      }
    }
    ChildrenClear(e, id, stack);
    return false, rest[..|rest| - 1];
  }

  lemma PushShrinks(e: Edges, id: nat, c: nat, stack: seq<nat>)
    requires (id, c) in e && c !in stack
    ensures |Nodes(e) - Elements(stack + [c])| < |Nodes(e) - Elements(stack)|
  {
    assert (id, c).1 == c;
    assert c in Nodes(e) - Elements(stack);
    assert Nodes(e) - Elements(stack + [c]) == Nodes(e) - Elements(stack) - {c};
  }
}
