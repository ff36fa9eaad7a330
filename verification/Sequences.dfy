/** Sequences of numbers without repetitions, and repeated steps. */
module Sequences {

  ghost predicate NoRepeats(s: seq<nat>)
  {
    forall i, j :: 0 <= i < j < |s| ==> s[i] != s[j]
  }

  /** `f` applied `k` times. */
  ghost function Iterate<T>(f: T -> T, x: T, k: nat): T
  {
    if k == 0 then x else f(Iterate(f, x, k - 1))
  }

  lemma {:induction false} IterateSum<T>(f: T -> T, x: T, a: nat, b: nat)
    ensures Iterate(f, x, a + b) == Iterate(f, Iterate(f, x, a), b)
  {
    if b > 0 {
      IterateSum(f, x, a, b - 1);
    }
  }

  lemma {:induction false} IterateFirst<T>(f: T -> T, x: T, k: nat)
    requires k > 0
    ensures Iterate(f, x, k) == Iterate(f, f(x), k - 1)
  {
    if k > 1 {
      IterateFirst(f, x, k - 1);
    } else {
      assert Iterate(f, x, 0) == x;
    }
  }
}
