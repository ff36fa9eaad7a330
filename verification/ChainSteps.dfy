/**
 The steps of a decomposition: the pairs of vertices that follow each other in a chain.
 Together with the vertices they say what the chains are.
 */
module ChainSteps {
  import opened Digraph

  /** The pairs of consecutive vertices. */
  ghost function Steps(c: seq<nat>): Edges
  {
    if |c| <= 1 then {} else Steps(c[..|c| - 1]) + {(c[|c| - 2], c[|c| - 1])}
  }

  lemma {:induction false} StepsOf(c: seq<nat>, u: nat, v: nat)
    ensures (u, v) in Steps(c) <==> exists k :: 0 <= k < |c| - 1 && c[k] == u && c[k + 1] == v
  {
    if |c| > 1 {
      var n := |c| - 1;
      StepsOf(c[..n], u, v);
      if k :| 0 <= k < n && c[k] == u && c[k + 1] == v {
        if k < n - 1 {
          assert c[..n][k] == u && c[..n][k + 1] == v;
        }
      }
    }
  }

  ghost function AllSteps(chains: seq<seq<nat>>): Edges
  {
    if chains == [] then {} else AllSteps(chains[..|chains| - 1]) + Steps(chains[|chains| - 1])
  }

  lemma {:induction false} AllStepsOf(chains: seq<seq<nat>>, u: nat, v: nat)
    ensures (u, v) in AllSteps(chains) <==> exists i :: 0 <= i < |chains| && (u, v) in Steps(chains[i])
  {
    if chains != [] {
      AllStepsOf(chains[..|chains| - 1], u, v);
    }
  }

  lemma StepEnds(c: seq<nat>, u: nat, v: nat)
    requires (u, v) in Steps(c)
    ensures u in c && v in c
  {
    StepsOf(c, u, v);
  }

  lemma StepAt(chains: seq<seq<nat>>, u: nat, v: nat) returns (i: nat, k: nat)
    requires (u, v) in AllSteps(chains)
    ensures i < |chains| && k + 1 < |chains[i]| && chains[i][k] == u && chains[i][k + 1] == v
  {
    AllStepsOf(chains, u, v);
    i :| 0 <= i < |chains| && (u, v) in Steps(chains[i]);
    StepsOf(chains[i], u, v);
    k :| 0 <= k < |chains[i]| - 1 && chains[i][k] == u && chains[i][k + 1] == v;
  }

  lemma JoinedSteps(a: seq<nat>, b: seq<nat>, u: nat, v: nat)
    requires a != [] && b != []
    ensures (u, v) in Steps(a + b) <==>
            (u, v) in Steps(a) || (u, v) in Steps(b) || (u == a[|a| - 1] && v == b[0])
  {
    StepsOf(a + b, u, v);
    StepsOf(a, u, v);
    StepsOf(b, u, v);
    var c := a + b;
    if k :| 0 <= k < |a| - 1 && a[k] == u && a[k + 1] == v {
      assert c[k] == u && c[k + 1] == v;
    }
    if k :| 0 <= k < |b| - 1 && b[k] == u && b[k + 1] == v {
      assert c[|a| + k] == u && c[|a| + k + 1] == v;
    }
    if u == a[|a| - 1] && v == b[0] {
      assert c[|a| - 1] == u && c[|a| - 1 + 1] == v;
    }
    if k :| 0 <= k < |c| - 1 && c[k] == u && c[k + 1] == v {
      if k >= |a| {
        assert b[k - |a|] == u && b[k - |a| + 1] == v;
      } else if k < |a| - 1 {
        assert a[k] == u && a[k + 1] == v;
      }
    }
  }

  // ---------- Runs of a pass ----------

  ghost predicate Follows(trace: seq<seq<seq<nat>>>, m: nat)
  {
    m + 1 < |trace|
  }

  /** A trace of `n` rounds from one decomposition to another. */
  ghost predicate FromTo(trace: seq<seq<seq<nat>>>, chains: seq<seq<nat>>, result: seq<seq<nat>>, n: nat)
  {
    |trace| == n + 1 && trace[0] == chains && trace[n] == result
  }
}
