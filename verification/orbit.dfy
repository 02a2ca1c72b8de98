/**
 * Orbits of a one-to-one step on a finite set of ids: starting anywhere, repeated steps come back
 * to the start within as many steps as there are ids. This is why the validator's walk around a
 * vertex (`next`, then `twin`) ends on a well-formed mesh.
 */
module Orbits {
  import opened Sequences

  /** `step` maps its keys into its keys, and no two keys to the same id. */
  ghost predicate Permutes(step: map<nat, nat>) {
    && step.Values <= step.Keys
    && (forall x, y | x in step && y in step && step[x] == step[y] :: x == y)
  }

  /** `n` steps from `x`. */
  function Iterate(step: map<nat, nat>, x: nat, n: nat): (r: nat)
    requires x in step
    requires step.Values <= step.Keys
    ensures r in step
    decreases n
  {
    if n == 0 then x else step[Iterate(step, x, n - 1)]
  }

  /** Taking the first step up front reaches the same place. */
  lemma {:induction false} IterateFirst(step: map<nat, nat>, x: nat, n: nat)
    requires x in step && step.Values <= step.Keys
    requires n > 0
    ensures Iterate(step, x, n) == Iterate(step, step[x], n - 1)
    decreases n
  {
    if n > 1 {
      IterateFirst(step, x, n - 1);
    }
  }

  /** A repeat of the orbit can be moved back to the start, because the step is one-to-one. */
  lemma IterateCancel(step: map<nat, nat>, x: nat, i: nat, j: nat)
    requires Permutes(step) && x in step
    requires i <= j && Iterate(step, x, i) == Iterate(step, x, j)
    ensures Iterate(step, x, j - i) == x
  {
    var k: nat, m: nat := i, j;
    while k > 0
      invariant k <= m && m - k == j - i && Iterate(step, x, k) == Iterate(step, x, m)
    {
      CancelStep(step, x, k, m);
      k, m := k - 1, m - 1;
    }
  }

  /** Equal points of the orbit have equal predecessors. */
  lemma CancelStep(step: map<nat, nat>, x: nat, k: nat, m: nat)
    requires Permutes(step) && x in step
    requires 0 < k <= m && Iterate(step, x, k) == Iterate(step, x, m)
    ensures Iterate(step, x, k - 1) == Iterate(step, x, m - 1)
  {
    var a, b := Iterate(step, x, k - 1), Iterate(step, x, m - 1);
    assert Iterate(step, x, k) == step[a] && Iterate(step, x, m) == step[b];
    OneToOne(step, a, b);
  }

  lemma OneToOne(step: map<nat, nat>, a: nat, b: nat)
    requires Permutes(step) && a in step && b in step && step[a] == step[b]
    ensures a == b
  {
  }

  /** The first `n` points of the orbit of `x`. */
  function Orbit(step: map<nat, nat>, x: nat, n: nat): (s: seq<nat>)
    requires x in step && step.Values <= step.Keys
    ensures |s| == n
    ensures forall i | 0 <= i < n :: s[i] == Iterate(step, x, i)
  {
    seq(n, i requires 0 <= i < n => Iterate(step, x, i))
  }

  /** More orbit points than ids: some id repeats. */
  lemma OrbitRepeats(step: map<nat, nat>, x: nat, o: seq<nat>)
    requires x in step && step.Values <= step.Keys
    requires o == Orbit(step, x, |step| + 1)
    ensures !Distinct(o)
  {
    if Distinct(o) {
      DistinctKeysBound(o, step);
      assert false;
    }
  }

  lemma RepeatedPair(o: seq<nat>) returns (i: nat, j: nat)
    requires !Distinct(o)
    ensures i < j < |o| && o[i] == o[j]
  {
    i, j :| 0 <= i < j < |o| && o[i] == o[j];
  }

  /** Every orbit of a one-to-one step on a finite set comes back to its start. */
  lemma OrbitReturns(step: map<nat, nat>, x: nat)
    requires Permutes(step) && x in step
    ensures exists n | 1 <= n <= |step| :: Iterate(step, x, n) == x
  {
    var i, j := RepeatInOrbit(step, x);
    IterateCancel(step, x, i, j);
    ReturnWithin(step, x, i, j);
  }

  /** Two of the first `|step| + 1` points of the orbit of `x` coincide. */
  lemma RepeatInOrbit(step: map<nat, nat>, x: nat) returns (i: nat, j: nat)
    requires x in step && step.Values <= step.Keys
    ensures i < j <= |step| && Iterate(step, x, i) == Iterate(step, x, j)
  {
    var o := Orbit(step, x, |step| + 1);
    OrbitRepeats(step, x, o);
    i, j := RepeatedPair(o);
    assert o[i] == Iterate(step, x, i) && o[j] == Iterate(step, x, j);
  }

  lemma ReturnWithin(step: map<nat, nat>, x: nat, i: nat, j: nat)
    requires x in step && step.Values <= step.Keys
    requires i < j <= |step| && Iterate(step, x, j - i) == x
    ensures exists m | 1 <= m <= |step| :: Iterate(step, x, m) == x
  {
    var m := j - i;
    assert 1 <= m <= |step| && Iterate(step, x, m) == x;
  }
}
