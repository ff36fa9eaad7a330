/**
 The binary heap of the event queue (gems-lib/common/PrioHeap.h).  The elements are at
 the indices 1 up to `currentSize` of the vector; index 0 holds a copy nobody reads.
 */
module PrioHeap {

  /** An event; events are ordered by their time alone. */
  datatype Node = Node(time: nat, consumer: nat)

  predicate NodeLessEq(a: Node, b: Node)
  {
    a.time <= b.time
  }

  ghost predicate Holds(h: seq<Node>, n: nat)
  {
    n == 0 || n < |h|
  }

  ghost function Elements(h: seq<Node>, n: nat): seq<Node>
    requires Holds(h, n)
  {
    if n == 0 then [] else h[1..n + 1]
  }

  /** Element `j` does not come before its parent. */
  ghost predicate ParentFirst(h: seq<Node>, j: nat)
    requires j < |h|
  {
    h[j / 2].time <= h[j].time
  }

  ghost predicate HeapOrder(h: seq<Node>, n: nat)
    requires Holds(h, n)
  {
    forall j :: 2 <= j <= n ==> ParentFirst(h, j)
  }

  lemma {:induction false} RootIsMinimum(h: seq<Node>, n: nat, j: nat)
    requires Holds(h, n) && HeapOrder(h, n) && 1 <= j <= n
    ensures h[1].time <= h[j].time
    decreases j
  {
    if j > 1 {
      RootIsMinimum(h, n, j / 2);
      assert ParentFirst(h, j);
    }
  }

  // ---------- verifyHeap ----------

  /** `j` is `index` or below it. */
  ghost predicate Under(j: nat, index: nat)
    decreases j
  {
    j == index || (j > index && Under(j / 2, index))
  }

  lemma {:induction false} UnderRoot(j: nat)
    requires j >= 1
    ensures Under(j, 1)
  {
    if j > 1 {
      UnderRoot(j / 2);
    }
  }

  lemma {:induction false} UnderChild(j: nat, index: nat)
    requires index >= 1
    ensures Under(j, index) <==> j == index || Under(j, 2 * index) || Under(j, 2 * index + 1)
    decreases j
  {
    if j > index {
      UnderChild(j / 2, index);
    }
  }

  predicate VerifyFrom(h: seq<Node>, n: nat, index: nat)
    requires Holds(h, n) && index >= 1
    decreases if index > n then 0 else n + 1 - index
  {
    if index > n then true
    else if index == 1 || NodeLessEq(h[index / 2], h[index]) then
      VerifyFrom(h, n, 2 * index + 1) && VerifyFrom(h, n, 2 * index)
    else false
  }

  /** The recursive test of a subtree sees every element below it that comes before its parent. */
  lemma {:induction false} VerifyDecides(h: seq<Node>, n: nat, index: nat)
    requires Holds(h, n) && index >= 1
    ensures VerifyFrom(h, n, index) <==> forall j :: 2 <= j <= n && Under(j, index) ==> ParentFirst(h, j)
    decreases if index > n then 0 else n + 1 - index
  {
    if index > n {
      forall j | 2 <= j <= n
        ensures !Under(j, index)
      {
      }
    } else {
      VerifyDecides(h, n, 2 * index);
      VerifyDecides(h, n, 2 * index + 1);
      forall j: nat
        ensures Under(j, index) <==> j == index || Under(j, 2 * index) || Under(j, 2 * index + 1)
      {
        UnderChild(j, index);
      }
      assert index >= 2 && !ParentFirst(h, index) ==> Under(index, index);
    }
  }

  lemma VerifyRootDecides(h: seq<Node>, n: nat)
    requires Holds(h, n)
    ensures VerifyFrom(h, n, 1) <==> HeapOrder(h, n)
  {
    VerifyDecides(h, n, 1);
    forall j | 2 <= j <= n
      ensures Under(j, 1)
    {
      UnderRoot(j);
    }
  }

  // ---------- Moving elements ----------

  function Swap(h: seq<Node>, i: nat, j: nat): seq<Node>
    requires i < |h| && j < |h|
  {
    h[i := h[j]][j := h[i]]
  }

  lemma SwapElements(h: seq<Node>, n: nat, i: nat, j: nat)
    requires Holds(h, n) && 1 <= i <= n && 1 <= j <= n
    ensures multiset(Elements(Swap(h, i, j), n)) == multiset(Elements(h, n))
  {
    var e := Elements(h, n);
    assert Elements(Swap(h, i, j), n) == e[i - 1 := e[j - 1]][j - 1 := e[i - 1]];
  }

  /** Heap order but for the step from `i` to its parent; the children of `i` come after that parent. */
  ghost predicate OrderAbove(h: seq<Node>, n: nat, i: nat)
    requires Holds(h, n)
  {
    && (forall j :: 2 <= j <= n && j != i ==> ParentFirst(h, j))
    && (forall j :: 2 <= j <= n && j / 2 == i && i > 1 ==> h[i / 2].time <= h[j].time)
  }

  /** Heap order but for the steps from `c` to its children; these come after the parent of `c`. */
  ghost predicate OrderBelow(h: seq<Node>, n: nat, c: nat)
    requires Holds(h, n)
  {
    && (forall j :: 2 <= j <= n && j / 2 != c ==> ParentFirst(h, j))
    && (forall j :: 2 <= j <= n && j / 2 == c && c > 1 ==> h[c / 2].time <= h[j].time)
  }

  lemma SiftUp(h: seq<Node>, n: nat, i: nat)
    requires Holds(h, n) && OrderAbove(h, n, i) && 1 < i <= n && h[i].time <= h[i / 2].time
    ensures OrderAbove(Swap(h, i, i / 2), n, i / 2)
  {
    var s := Swap(h, i, i / 2);
    forall j | 2 <= j <= n && j != i / 2
      ensures ParentFirst(s, j)
    {
      if j != i {
        assert ParentFirst(h, j);
      }
    }
    if i / 2 > 1 {
      assert ParentFirst(h, i / 2);
      forall j | 2 <= j <= n && j / 2 == i / 2
        ensures s[i / 2 / 2].time <= s[j].time
      {
        if j != i {
          assert ParentFirst(h, j);
        }
      }
    }
  }

  lemma SiftUpEnds(h: seq<Node>, n: nat, i: nat)
    requires Holds(h, n) && OrderAbove(h, n, i) && 1 <= i <= n && (i == 1 || h[i / 2].time <= h[i].time)
    ensures HeapOrder(h, n)
  {
  }

  /** `s` is the child of `c` that comes first, and it does not come after `c`. */
  ghost predicate FirstChild(h: seq<Node>, n: nat, c: nat, s: nat)
    requires Holds(h, n) && 1 <= c <= n
  {
    && s <= n && (s == 2 * c || s == 2 * c + 1) && h[s].time <= h[c].time
    && (forall j :: 2 <= j <= n && j / 2 == c ==> h[s].time <= h[j].time)
  }

  lemma SiftDown(h: seq<Node>, n: nat, c: nat, s: nat)
    requires Holds(h, n) && OrderBelow(h, n, c) && 1 <= c <= n && FirstChild(h, n, c, s)
    ensures OrderBelow(Swap(h, c, s), n, s)
  {
    var t := Swap(h, c, s);
    forall j | 2 <= j <= n && j / 2 != s
      ensures ParentFirst(t, j)
    {
      if j / 2 != c {
        assert ParentFirst(h, j);
      }
    }
    forall j | 2 <= j <= n && j / 2 == s
      ensures t[s / 2].time <= t[j].time
    {
      assert ParentFirst(h, j);
    }
  }

  lemma SiftDownEnds(h: seq<Node>, n: nat, c: nat)
    requires Holds(h, n) && OrderBelow(h, n, c) && 1 <= c
    requires forall j :: 2 <= j <= n && j / 2 == c ==> ParentFirst(h, j)
    ensures HeapOrder(h, n)
  {
    forall j | 2 <= j <= n
      ensures ParentFirst(h, j)
    {
    }
  }

  /** Taking the root away and putting the last element in its place. */
  lemma TakeRoot(h: seq<Node>, n: nat)
    requires Holds(h, n) && HeapOrder(h, n) && n > 0
    ensures var t := h[1 := h[n]];
            && OrderBelow(t, n - 1, 1)
            && multiset(Elements(t, n - 1)) == multiset(Elements(h, n)) - multiset{h[1]}
    ensures h[1] in multiset(Elements(h, n))
  {
    var t := h[1 := h[n]];
    var e, f := Elements(h, n), Elements(t, n - 1);
    forall j | 2 <= j <= n - 1 && j / 2 != 1
      ensures ParentFirst(t, j)
    {
      assert ParentFirst(h, j);
    }
    assert e[0] == h[1];
    if n == 1 {
      assert e == [h[1]] && f == [];
    } else {
      assert e == [h[1]] + h[2..n] + [h[n]];
      assert f == [h[n]] + h[2..n];
    }
  }

  /** The new element at the end, before it is moved up. */
  lemma PutLast(h: seq<Node>, n: nat, g: seq<Node>, key: Node)
    requires Holds(h, n) && HeapOrder(h, n) && |g| == n + 2 && g[n + 1] == key
    requires forall k :: 1 <= k <= n ==> g[k] == h[k]
    ensures OrderAbove(g, n + 1, n + 1)
    ensures multiset(Elements(g, n + 1)) == multiset(Elements(h, n)) + multiset{key}
  {
    forall j | 2 <= j <= n
      ensures ParentFirst(g, j)
    {
      assert ParentFirst(h, j);
    }
    assert Elements(g, n + 1) == Elements(h, n) + [key];
  }

  /** A heap of the elements `all`, except that the element at `i` may have to move up. */
  ghost predicate Rising(h: seq<Node>, n: nat, i: nat, all: multiset<Node>)
  {
    Holds(h, n) && OrderAbove(h, n, i) && multiset(Elements(h, n)) == all
  }

  lemma SwapHole(h: seq<Node>, i: nat, key: Node)
    requires 1 < i < |h|
    ensures Swap(h[i := key], i, i / 2) == h[i := h[i / 2]][i / 2 := key]
  {
  }

  lemma RiseFilled(h: seq<Node>, n: nat, i: nat, all: multiset<Node>)
    requires Rising(h, n, i, all) && 1 < i <= n && h[i].time <= h[i / 2].time
    ensures Rising(Swap(h, i, i / 2), n, i / 2, all)
  {
    SiftUp(h, n, i);
    SwapElements(h, n, i, i / 2);
  }

  /** The hole at `i`, where `key` may go, moves to the parent of `i`. */
  lemma Rise(h: seq<Node>, n: nat, i: nat, key: Node, all: multiset<Node>)
    requires 1 < i <= n < |h| && Rising(h[i := key], n, i, all) && key.time <= h[i / 2].time
    ensures Rising(h[i := h[i / 2]][i / 2 := key], n, i / 2, all)
  {
    RiseFilled(h[i := key], n, i, all);
    SwapHole(h, i, key);
  }

  /** A heap of the elements `all`, except that the element at `c` may have to move down. */
  ghost predicate Sinking(h: seq<Node>, n: nat, c: nat, all: multiset<Node>)
  {
    Holds(h, n) && OrderBelow(h, n, c) && multiset(Elements(h, n)) == all
  }

  lemma Sink(h: seq<Node>, n: nat, c: nat, s: nat, all: multiset<Node>)
    requires Sinking(h, n, c, all) && 1 <= c <= n && FirstChild(h, n, c, s)
    ensures Sinking(Swap(h, c, s), n, s, all)
  {
    SiftDown(h, n, c, s);
    SwapElements(h, n, c, s);
  }

  // ---------- The heap ----------

  class Heap {
    var heap: seq<Node>
    var currentSize: nat

    ghost predicate Valid()
      reads this
    {
      Holds(heap, currentSize) && HeapOrder(heap, currentSize)
    }

    ghost function Contents(): multiset<Node>
      reads this
      requires Valid()
    {
      multiset(Elements(heap, currentSize))
    }

    constructor ()
      ensures Valid() && currentSize == 0 && Contents() == multiset{}
    {
      heap, currentSize := [], 0;
    }

    /** Grows or cuts the vector; slots that are new hold anything. */
    method SetSize(newSize: nat)
      modifies `heap
      ensures |heap| == newSize
      ensures forall k :: 0 <= k < newSize && k < |old(heap)| ==> heap[k] == old(heap)[k]
    {
      if newSize <= |heap| {
        heap := heap[..newSize];
      }
      while |heap| < newSize
        invariant |heap| <= newSize
        invariant forall k :: 0 <= k < newSize && k < |old(heap)| ==> k < |heap| && heap[k] == old(heap)[k]
      {
        var anything: Node := *;
        heap := heap + [anything];
      }
    }

    method Insert(key: Node)
      requires Valid()
      modifies this
      ensures Valid() && currentSize == old(currentSize) + 1
      ensures Contents() == old(Contents()) + multiset{key}
    {
      ghost var h0 := heap;
      currentSize := currentSize + 1;
      SetSize(currentSize + 1);
      if currentSize == 1 {
        heap := heap[0 := key];
      }
      PutLast(h0, currentSize - 1, heap[currentSize := key], key);
      MoveUp(key, multiset(Elements(h0, currentSize - 1)) + multiset{key});
    }

    /** Moves parents down from the last place on, until `key` has found its place. */
    method MoveUp(key: Node, ghost all: multiset<Node>)
      requires 1 <= currentSize < |heap| && Rising(heap[currentSize := key], currentSize, currentSize, all)
      modifies `heap
      ensures Valid() && Contents() == all
    {
      var i := currentSize;
      ghost var n := currentSize;
      while i > 1 && NodeLessEq(key, heap[i / 2])
        invariant 1 <= i <= n == currentSize < |heap|
        invariant Rising(heap[i := key], n, i, all)
      {
        Rise(heap, n, i, key, all);
        heap := heap[i := heap[i / 2]];
        i := i / 2;
      }
      SiftUpEnds(heap[i := key], n, i);
      heap := heap[i := key];
    }

    method PeekMin() returns (min: Node)
      requires Valid() && currentSize > 0
      ensures min in Contents() && forall x :: x in Contents() ==> min.time <= x.time
    {
      min := heap[1];
      RootComesFirst(heap, currentSize);
    }

    method ExtractMin() returns (min: Node)
      requires Valid() && currentSize > 0
      modifies this
      ensures Valid() && currentSize == old(currentSize) - 1
      ensures min in old(Contents()) && forall x :: x in old(Contents()) ==> min.time <= x.time
      ensures Contents() == old(Contents()) - multiset{min}
    {
      RootComesFirst(heap, currentSize);
      TakeRoot(heap, currentSize);
      min := heap[1];
      heap := heap[1 := heap[currentSize]];
      currentSize := currentSize - 1;
      Heapify();
    }

    /** Moves the first element down to its place. */
    method Heapify()
      requires Holds(heap, currentSize) && OrderBelow(heap, currentSize, 1)
      modifies `heap
      ensures Valid() && Contents() == old(multiset(Elements(heap, currentSize)))
    {
      var current := 1;
      ghost var n, all := currentSize, multiset(Elements(heap, currentSize));
      while true
        invariant 1 <= current && (current == 1 || current <= n) && n == currentSize
        invariant Sinking(heap, n, current, all)
        decreases n - current
      {
        var left, right := 2 * current, 2 * current + 1;
        var smallest := current;
        if left <= currentSize && NodeLessEq(heap[left], heap[current]) {
          smallest := left;
        }
        if right <= currentSize && NodeLessEq(heap[right], heap[smallest]) {
          smallest := right;
        }
        if smallest == current {
          SiftDownEnds(heap, n, current);
          break;
        }
        Sink(heap, n, current, smallest, all);
        heap := Swap(heap, current, smallest);
        current := smallest;
      }
    }

    /** Decides heap order. */
    method VerifyHeap() returns (ok: bool)
      requires Holds(heap, currentSize)
      ensures ok <==> HeapOrder(heap, currentSize)
    {
      ok := VerifyFrom(heap, currentSize, 1);
      VerifyRootDecides(heap, currentSize);
    }
  }

  lemma RootComesFirst(h: seq<Node>, n: nat)
    requires Holds(h, n) && HeapOrder(h, n) && n > 0
    ensures h[1] in Elements(h, n) && forall x :: x in Elements(h, n) ==> h[1].time <= x.time
  {
    assert Elements(h, n)[0] == h[1];
    forall x | x in Elements(h, n)
      ensures h[1].time <= x.time
    {
      var k :| 0 <= k < n && Elements(h, n)[k] == x;
      RootIsMinimum(h, n, k + 1);
    }
  }

  // ---------- Inserting everything, then extracting everything ----------

  ghost predicate InTimeOrder(s: seq<Node>)
  {
    forall i, j :: 0 <= i < j < |s| ==> s[i].time <= s[j].time
  }

  /** `output` is by time, and nothing in it comes after what is left. */
  ghost predicate Drained(output: seq<Node>, left: multiset<Node>)
  {
    InTimeOrder(output) && forall x, y :: x in output && y in left ==> x.time <= y.time
  }

  lemma DrainNext(output: seq<Node>, left: multiset<Node>, min: Node)
    requires Drained(output, left) && min in left && forall x :: x in left ==> min.time <= x.time
    ensures Drained(output + [min], left - multiset{min})
    ensures multiset(output + [min]) + (left - multiset{min}) == multiset(output) + left
  {
  }

  method InsertAll(input: seq<Node>) returns (h: Heap)
    ensures fresh(h) && h.Valid() && h.Contents() == multiset(input)
  {
    h := new Heap();
    for i := 0 to |input|
      invariant h.Valid() && fresh(h) && h.Contents() == multiset(input[..i])
    {
      h.Insert(input[i]);
      assert input[..i + 1] == input[..i] + [input[i]];
    }
    assert input[..|input|] == input;
  }

  /** As the address profiler and the cache recorder use the heap: the elements come out by time. */
  method DrainSorted(input: seq<Node>) returns (output: seq<Node>)
    ensures multiset(output) == multiset(input) && InTimeOrder(output)
  {
    var h := InsertAll(input);
    output := [];
    ghost var left := h.Contents();
    while h.currentSize > 0
      invariant h.Valid() && fresh(h) && left == h.Contents()
      invariant multiset(output) + left == multiset(input) && Drained(output, left)
      decreases h.currentSize
    {
      var min := h.ExtractMin();
      DrainNext(output, left, min);
      left := left - multiset{min};
      output := output + [min];
    }
  }
}
