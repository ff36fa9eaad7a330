/**
 Prescheduling (src/Core.cpp, findMinimum, preschedule and the placement part of
 block_preschedule): chains are put one after the other on the lane with the least
 load, and the result is within Graham's bound of the best assignment.
 */
module Greedy {
  import opened Sequences
  import opened Digraph
  import opened Levels
  import opened Lanes
  import opened Dispatch

  // ---------- The least loaded lane ----------

  /** `k` is the first position of the least value. */
  ghost predicate FirstMin(s: seq<int>, k: nat)
  {
    k < |s| && (forall i :: 0 <= i < |s| ==> s[k] <= s[i]) && (forall i :: 0 <= i < k ==> s[k] < s[i])
  }

  method FindMinimum(arr: array<int>, limit: nat) returns (index: nat)
    requires 0 < limit <= arr.Length
    ensures FirstMin(arr[..limit], index)
  {
    var min := arr[0];
    index := 0;
    for i := 1 to limit
      invariant index < i && min == arr[index]
      invariant forall k :: 0 <= k < i ==> min <= arr[k]
      invariant forall k :: 0 <= k < index ==> min < arr[k]
    {
      if min > arr[i] {
        min := arr[i];
        index := i;
      }
    }
  }

  // ---------- Assignments ----------

  ghost function Weight(prog: seq<seq<Instr>>, c: nat): nat
  {
    |CodeOf(prog, c)|
  }

  /** The load of lane `l` when chain `order[k]` is put on lane `at[k]`. */
  ghost function Load(prog: seq<seq<Instr>>, order: seq<nat>, at: seq<nat>, l: nat): nat
    requires |order| == |at|
  {
    if order == [] then 0
    else
      var n := |order| - 1;
      Load(prog, order[..n], at[..n], l) + if at[n] == l then Weight(prog, order[n]) else 0
  }

  ghost function LaneLoads(prog: seq<seq<Instr>>, order: seq<nat>, at: seq<nat>, lanes: nat): (r: seq<int>)
    requires |order| == |at|
    ensures |r| == lanes
  {
    seq(lanes, (l: nat) => Load(prog, order, at, l))
  }

  ghost predicate Assignment(order: seq<nat>, at: seq<nat>, lanes: nat)
  {
    |order| == |at| && forall k :: 0 <= k < |at| ==> at[k] < lanes
  }

  /** Every chain goes to the first least loaded lane. */
  ghost predicate IsGreedy(prog: seq<seq<Instr>>, order: seq<nat>, at: seq<nat>, lanes: nat)
  {
    |order| == |at| && forall k :: 0 <= k < |at| ==> FirstMin(LaneLoads(prog, order[..k], at[..k], lanes), at[k])
  }

  ghost function Total(prog: seq<seq<Instr>>, order: seq<nat>): nat
  {
    if order == [] then 0 else Total(prog, order[..|order| - 1]) + Weight(prog, order[|order| - 1])
  }

  /** No chain in the order is longer than `w`. */
  ghost predicate AtMost(prog: seq<seq<Instr>>, order: seq<nat>, w: nat)
  {
    forall k :: 0 <= k < |order| ==> Weight(prog, order[k]) <= w
  }

  ghost function Sum(s: seq<int>): int
  {
    if s == [] then 0 else Sum(s[..|s| - 1]) + s[|s| - 1]
  }

  // ---------- Loads stay close together ----------

  lemma LoadStep(prog: seq<seq<Instr>>, order: seq<nat>, at: seq<nat>, lanes: nat)
    requires |order| == |at| > 0 && at[|at| - 1] < lanes
    ensures var n := |order| - 1;
            var before := LaneLoads(prog, order[..n], at[..n], lanes);
            LaneLoads(prog, order, at, lanes) == before[at[n] := before[at[n]] + Weight(prog, order[n])]
  {
  }

  /** Under greedy placement, two loads never differ by more than the longest chain. */
  lemma {:induction false} GreedySpread(prog: seq<seq<Instr>>, order: seq<nat>, at: seq<nat>, lanes: nat, w: nat, i: nat, j: nat)
    requires IsGreedy(prog, order, at, lanes) && AtMost(prog, order, w) && i < lanes && j < lanes
    ensures Load(prog, order, at, i) <= Load(prog, order, at, j) + w
    decreases |order|
  {
    if order != [] {
      var n := |order| - 1;
      assert forall k :: 0 <= k < n ==> order[..n][..k] == order[..k] && at[..n][..k] == at[..k];
      GreedySpread(prog, order[..n], at[..n], lanes, w, i, j);
      var before := LaneLoads(prog, order[..n], at[..n], lanes);
      assert FirstMin(before, at[n]);
      assert before[at[n]] <= before[j];
      assert before[i] == Load(prog, order[..n], at[..n], i) && before[j] == Load(prog, order[..n], at[..n], j);
    }
  }

  lemma {:induction false} SumUpdate(s: seq<int>, i: nat, x: int)
    requires i < |s|
    ensures Sum(s[i := x]) == Sum(s) - s[i] + x
  {
    var n := |s| - 1;
    if i < n {
      SumUpdate(s[..n], i, x);
      assert s[i := x][..n] == s[..n][i := x];
    } else {
      assert s[i := x][..n] == s[..n];
    }
  }

  lemma {:induction false} SumOfZeros(s: seq<int>)
    requires forall i :: 0 <= i < |s| ==> s[i] == 0
    ensures Sum(s) == 0
  {
    if s != [] {
      SumOfZeros(s[..|s| - 1]);
    }
  }

  /** The loads of any assignment add up to the total length. */
  lemma {:induction false} LoadsAddUp(prog: seq<seq<Instr>>, order: seq<nat>, at: seq<nat>, lanes: nat)
    requires Assignment(order, at, lanes)
    ensures Sum(LaneLoads(prog, order, at, lanes)) == Total(prog, order)
    decreases |order|
  {
    if order == [] {
      SumOfZeros(LaneLoads(prog, order, at, lanes));
    } else {
      var n := |order| - 1;
      LoadsAddUp(prog, order[..n], at[..n], lanes);
      LoadStep(prog, order, at, lanes);
      SumUpdate(LaneLoads(prog, order[..n], at[..n], lanes), at[n],
                LaneLoads(prog, order[..n], at[..n], lanes)[at[n]] + Weight(prog, order[n]));
    }
  }

  lemma {:induction false} SumAtMost(s: seq<int>, m: int)
    requires forall i :: 0 <= i < |s| ==> s[i] <= m
    ensures Sum(s) <= |s| * m
  {
    if s != [] {
      SumAtMost(s[..|s| - 1], m);
    }
  }

  lemma {:induction false} SumAtLeast(s: seq<int>, m: int)
    requires forall i :: 0 <= i < |s| ==> s[i] >= m
    ensures Sum(s) >= |s| * m
  {
    if s != [] {
      SumAtLeast(s[..|s| - 1], m);
    }
  }

  /** One chain's length is on the lane that the chain is assigned to. */
  lemma {:induction false} LoadHolds(prog: seq<seq<Instr>>, order: seq<nat>, at: seq<nat>, k: nat)
    requires |order| == |at| && k < |order|
    ensures Load(prog, order, at, at[k]) >= Weight(prog, order[k])
    decreases |order|
  {
    var n := |order| - 1;
    if k < n {
      LoadHolds(prog, order[..n], at[..n], k);
    }
  }

  ghost predicate IsLargest(prog: seq<seq<Instr>>, order: seq<nat>, w: nat)
  {
    AtMost(prog, order, w) && if order == [] then w == 0 else exists k :: 0 <= k < |order| && Weight(prog, order[k]) == w
  }

  /** lanes * load <= total + (lanes - 1) * largest, for every lane of a greedy placement. */
  lemma GreedyBound(prog: seq<seq<Instr>>, order: seq<nat>, at: seq<nat>, lanes: nat, w: nat, l: nat)
    requires IsGreedy(prog, order, at, lanes) && IsLargest(prog, order, w) && l < lanes
    ensures lanes * Load(prog, order, at, l) <= Total(prog, order) + (lanes - 1) * w
  {
    var loads := LaneLoads(prog, order, at, lanes);
    LoadsAddUp(prog, order, at, lanes);
    forall j | 0 <= j < lanes
      ensures loads[j] >= loads[l] - w
    {
      GreedySpread(prog, order, at, lanes, w, l, j);
    }
    var rest := loads[l := loads[l] - w];
    SumUpdate(loads, l, loads[l] - w);
    SumAtLeast(rest, loads[l] - w);
    assert Sum(rest) == Total(prog, order) - w;
    MulOut(lanes, loads[l], w);
  }

  lemma MulOut(n: nat, a: int, w: nat)
    ensures n * (a - w) == n * a - n * w && (n - 1) * w == n * w - w
  {
  }

  /**
   Graham's bound: no lane of a greedy placement has more than (2 - 1/lanes) times the
   load of the fullest lane of any other assignment of the same chains.
   */
  lemma GrahamBound(prog: seq<seq<Instr>>, order: seq<nat>, at: seq<nat>, other: seq<nat>, lanes: nat, l: nat, m: nat)
    requires IsGreedy(prog, order, at, lanes) && Assignment(order, other, lanes) && l < lanes
    requires forall j :: 0 <= j < lanes ==> Load(prog, order, other, j) <= m
    ensures lanes * Load(prog, order, at, l) <= (2 * lanes - 1) * m
  {
    var w := Largest(prog, order);
    GreedyBound(prog, order, at, lanes, w, l);
    LoadsAddUp(prog, order, other, lanes);
    SumAtMost(LaneLoads(prog, order, other, lanes), m);
    if order != [] {
      var k :| 0 <= k < |order| && Weight(prog, order[k]) == w;
      LoadHolds(prog, order, other, k);
    }
    MulMono(lanes - 1, w, m);
    MulSplit(lanes, m);
  }

  lemma MulMono(n: nat, a: nat, b: nat)
    requires a <= b
    ensures n * a <= n * b
  {
  }

  lemma MulSplit(n: nat, m: nat)
    ensures n * m + (n - 1) * m == (2 * n - 1) * m
  {
  }

  lemma {:induction false} Largest(prog: seq<seq<Instr>>, order: seq<nat>) returns (w: nat)
    ensures IsLargest(prog, order, w)
  {
    w := 0;
    if order != [] {
      var n := |order| - 1;
      var v := Largest(prog, order[..n]);
      w := if v > Weight(prog, order[n]) then v else Weight(prog, order[n]);
      if v > Weight(prog, order[n]) {
        var k :| 0 <= k < |order[..n]| && Weight(prog, order[..n][k]) == v;
        assert Weight(prog, order[k]) == w;
      }
      assert forall k :: 0 <= k < |order| ==> order[k] == if k < n then order[..n][k] else order[n];
    }
  }

  // ---------- The order of placement ----------

  /** Levels are looked up as 32-bit unsigned numbers, so that -1 comes last. */
  function LevelKey(level: int): nat
  {
    if level >= 0 then level else level % 0x1_0000_0000
  }

  ghost predicate Comes(level: seq<int>, a: nat, b: nat)
    requires a < |level| && b < |level|
  {
    LevelKey(level[a]) < LevelKey(level[b]) || (LevelKey(level[a]) == LevelKey(level[b]) && a < b)
  }

  /** All chains, by level and within a level by id. */
  ghost predicate IsLevelOrder(level: seq<int>, order: seq<nat>)
  {
    && (forall k :: 0 <= k < |order| ==> order[k] < |level|)
    && (forall c: nat :: c < |level| ==> c in order)
    && (forall a, b :: 0 <= a < b < |order| ==> Comes(level, order[a], order[b]))
  }

  /** The chains of one level, in ascending order of their ids, among the first `n`. */
  ghost predicate IsBucket(level: seq<int>, n: nat, key: nat, bucket: seq<nat>)
    requires n <= |level|
  {
    && (forall k :: 0 <= k < |bucket| ==> bucket[k] < n && LevelKey(level[bucket[k]]) == key)
    && (forall c: nat :: c < n && LevelKey(level[c]) == key ==> c in bucket)
    && (forall a, b :: 0 <= a < b < |bucket| ==> bucket[a] < bucket[b])
  }

  lemma {:induction false} LeastKey(keys: set<nat>) returns (k: nat)
    requires |keys| > 0
    ensures k in keys && forall j :: j in keys ==> k <= j
    decreases |keys|
  {
    var x :| x in keys;
    var rest := keys - {x};
    k := x;
    if |rest| > 0 {
      var m := LeastKey(rest);
      k := if m < x then m else x;
    }
    assert forall j :: j in keys ==> j == x || j in rest;
  }

  /** The map holds the bucket of every level of the first `n` chains. */
  ghost predicate Buckets(level: seq<int>, n: nat, byLevel: map<nat, seq<nat>>)
    requires n <= |level|
  {
    && (forall key :: key in byLevel ==> IsBucket(level, n, key, byLevel[key]))
    && (forall c :: 0 <= c < n ==> LevelKey(level[c]) in byLevel)
  }

  function AddToBucket(byLevel: map<nat, seq<nat>>, key: nat, id: nat): map<nat, seq<nat>>
  {
    byLevel[key := (if key in byLevel then byLevel[key] else []) + [id]]
  }

  lemma BucketsStep(level: seq<int>, id: nat, byLevel: map<nat, seq<nat>>)
    requires id < |level| && Buckets(level, id, byLevel)
    ensures Buckets(level, id + 1, AddToBucket(byLevel, LevelKey(level[id]), id))
  {
    var key := LevelKey(level[id]);
    BucketAppend(level, id, key, if key in byLevel then byLevel[key] else []);
    forall other | other in byLevel && other != key
      ensures IsBucket(level, id + 1, other, byLevel[other])
    {
      BucketStays(level, id, other, byLevel[other]);
    }
  }

  /** The chains of every level. */
  method BuildChainLevel(level: seq<int>) returns (byLevel: map<nat, seq<nat>>)
    ensures Buckets(level, |level|, byLevel)
  {
    byLevel := map[];
    for id := 0 to |level|
      invariant Buckets(level, id, byLevel)
    {
      BucketsStep(level, id, byLevel);
      byLevel := AddToBucket(byLevel, LevelKey(level[id]), id);
    }
  }

  lemma BucketAppend(level: seq<int>, id: nat, key: nat, bucket: seq<nat>)
    requires id < |level| && key == LevelKey(level[id])
    requires IsBucket(level, id, key, bucket)
             || (bucket == [] && forall c :: 0 <= c < id ==> LevelKey(level[c]) != key)
    ensures IsBucket(level, id + 1, key, bucket + [id])
  {
    forall c: nat | c < id + 1 && LevelKey(level[c]) == key
      ensures c in bucket + [id]
    {
      assert c in bucket || c == id;
    }
  }

  lemma BucketStays(level: seq<int>, id: nat, key: nat, bucket: seq<nat>)
    requires id < |level| && key != LevelKey(level[id]) && IsBucket(level, id, key, bucket)
    ensures IsBucket(level, id + 1, key, bucket)
  {
  }

  /** The chains of the levels not in `keys`, in order. */
  ghost predicate Partial(level: seq<int>, keys: set<nat>, order: seq<nat>)
  {
    && (forall k :: 0 <= k < |order| ==> order[k] < |level| && LevelKey(level[order[k]]) !in keys)
    && (forall k, key :: 0 <= k < |order| && key in keys ==> LevelKey(level[order[k]]) < key)
    && (forall c: nat :: c < |level| && LevelKey(level[c]) !in keys ==> c in order)
    && (forall a, b :: 0 <= a < b < |order| ==> Comes(level, order[a], order[b]))
  }

  lemma PartialAppend(level: seq<int>, keys: set<nat>, order: seq<nat>, key: nat, bucket: seq<nat>)
    requires Partial(level, keys, order) && key in keys && forall j :: j in keys ==> key <= j
    requires IsBucket(level, |level|, key, bucket)
    ensures Partial(level, keys - {key}, order + bucket)
  {
    var all := order + bucket;
    forall k | 0 <= k < |all|
      ensures all[k] < |level| && LevelKey(level[all[k]]) <= key && LevelKey(level[all[k]]) !in keys - {key}
    {
      assert all[k] == if k < |order| then order[k] else bucket[k - |order|];
    }
    forall a, b | 0 <= a < b < |all|
      ensures Comes(level, all[a], all[b])
    {
      if b < |order| {
        assert Comes(level, order[a], order[b]);
      } else if |order| <= a {
        assert bucket[a - |order|] < bucket[b - |order|];
      }
    }
    forall c: nat | c < |level| && LevelKey(level[c]) !in keys - {key}
      ensures c in all
    {
      assert c in order || c in bucket;
    }
  }

  /** The order in which chains are placed. */
  method LevelOrder(level: seq<int>) returns (order: seq<nat>)
    ensures IsLevelOrder(level, order)
  {
    var byLevel := BuildChainLevel(level);
    order := [];
    var keys := byLevel.Keys;
    while keys != {}
      invariant keys <= byLevel.Keys && Partial(level, keys, order)
    {
      ghost var least := LeastKey(keys);
      var key :| key in keys && forall j :: j in keys ==> key <= j;
      PartialAppend(level, keys, order, key, byLevel[key]);
      order := order + byLevel[key];
      keys := keys - {key};
    }
  }

  /** When every chain has been reached, the order by levels respects the dependencies. */
  lemma LevelOrderIsTopological(e: Edges, level: seq<int>, order: seq<nat>, a: nat, b: nat)
    requires IsLevelOrder(level, order) && AllLevels(e, 0, level)
    requires forall c: nat :: c < |level| ==> Reaches(e, 0, c)
    requires a < b < |order|
    ensures (order[b], order[a]) !in e
  {
    assert Comes(level, order[a], order[b]);
    if (order[b], order[a]) in e {
      LevelRises(e, 0, level, order[b], order[a]);
    }
  }

  // ---------- From an assignment to prescheduled buffers ----------

  /** The chains of the order that are put on lane `l`. */
  ghost function BufferOf(order: seq<nat>, at: seq<nat>, l: nat): seq<nat>
    requires |order| == |at|
  {
    if order == [] then []
    else
      var n := |order| - 1;
      BufferOf(order[..n], at[..n], l) + if at[n] == l then [order[n]] else []
  }

  ghost function BuffersOf(order: seq<nat>, at: seq<nat>, lanes: nat): (r: seq<seq<nat>>)
    requires |order| == |at|
    ensures |r| == lanes
  {
    seq(lanes, (l: nat) => BufferOf(order, at, l))
  }

  lemma {:induction false} BufferMembers(order: seq<nat>, at: seq<nat>, l: nat, c: nat)
    requires |order| == |at|
    ensures c in BufferOf(order, at, l) <==> exists k :: 0 <= k < |order| && order[k] == c && at[k] == l
    decreases |order|
  {
    if order != [] {
      var n := |order| - 1;
      BufferMembers(order[..n], at[..n], l, c);
      if k :| 0 <= k < |order[..n]| && order[..n][k] == c && at[..n][k] == l {
        assert order[k] == c && at[k] == l;
      }
    }
  }

  lemma {:induction false} BufferDistinct(order: seq<nat>, at: seq<nat>, l: nat)
    requires |order| == |at| && NoRepeats(order)
    ensures NoRepeats(BufferOf(order, at, l))
    decreases |order|
  {
    if order != [] {
      var n := |order| - 1;
      BufferDistinct(order[..n], at[..n], l);
      BufferMembers(order[..n], at[..n], l, order[n]);
    }
  }

  lemma {:induction false} BufferSize(prog: seq<seq<Instr>>, order: seq<nat>, at: seq<nat>, l: nat)
    requires |order| == |at|
    ensures TotalSize(prog, BufferOf(order, at, l)) == Load(prog, order, at, l)
    decreases |order|
  {
    if order != [] {
      var n := |order| - 1;
      BufferSize(prog, order[..n], at[..n], l);
      var b := BufferOf(order[..n], at[..n], l);
      if at[n] == l {
        assert (b + [order[n]])[..|b|] == b;
      } else {
        assert b + [] == b;
      }
    }
  }

  /** Any placement of all chains, each once, prepares a run. */
  lemma AssignmentPreschedules(prog: seq<seq<Instr>>, order: seq<nat>, at: seq<nat>, lanes: nat) returns (home: seq<nat>)
    requires Assignment(order, at, lanes) && NoRepeats(order)
    requires forall c: nat :: c in order <==> c < |prog|
    ensures Prescheduled(prog, home, BuffersOf(order, at, lanes), LaneLoads(prog, order, at, lanes))
    ensures forall k :: 0 <= k < |order| ==> order[k] < |home| && home[order[k]] == at[k]
  {
    home := Homes(order, at, |prog|);
    forall k | 0 <= k < |order|
      ensures order[k] < |home| && home[order[k]] == at[k]
    {
      assert order[k] in order;
    }
    forall c | 0 <= c < |home|
      ensures home[c] < lanes && c in BufferOf(order, at, home[c])
    {
      assert c in order;
      var k :| 0 <= k < |order| && order[k] == c;
      BufferMembers(order, at, home[c], c);
    }
    forall l: nat | l < lanes
      ensures LanePlaced(prog, home, [], BufferOf(order, at, l), Load(prog, order, at, l), l)
    {
      BufferDistinct(order, at, l);
      BufferSize(prog, order, at, l);
      forall x | x in BufferOf(order, at, l)
        ensures x < |home| && home[x] == l
      {
        BufferMembers(order, at, l, x);
      }
    }
  }

  /** The lane of every chain below `n`. */
  lemma {:induction false} Homes(order: seq<nat>, at: seq<nat>, n: nat) returns (home: seq<nat>)
    requires |order| == |at| && NoRepeats(order) && forall c: nat :: c < n ==> c in order
    ensures |home| == n
    ensures forall k :: 0 <= k < |order| && order[k] < n ==> home[order[k]] == at[k]
    decreases n
  {
    home := [];
    if n > 0 {
      home := Homes(order, at, n - 1);
      assert n - 1 in order;
      var k :| 0 <= k < |order| && order[k] == n - 1;
      home := home + [at[k]];
    }
  }
}
