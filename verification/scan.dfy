/**
 * The selection idiom shared by every search loop of the hull builder: walk the candidates in
 * order, keep a running best that starts at a threshold, and replace it only when a candidate
 * is STRICTLY greater. The winner is therefore the first candidate that attains the maximum,
 * and there is no winner when no candidate exceeds the threshold.
 */
module Scan {
  import opened Options

  /** `k` is the first position (outside `skip`) holding the maximum, and that maximum exceeds `t`. */
  ghost predicate IsFirstMaxAbove(xs: seq<real>, skip: set<nat>, t: real, k: nat) {
    && k < |xs|
    && k !in skip
    && xs[k] > t
    && (forall j | 0 <= j < |xs| && j !in skip :: xs[j] <= xs[k])
    && (forall j | 0 <= j < k && j !in skip :: xs[j] < xs[k])
  }

  /** No candidate outside `skip` exceeds `t`. */
  ghost predicate NoneAbove(xs: seq<real>, skip: set<nat>, t: real) {
    forall j | 0 <= j < |xs| && j !in skip :: xs[j] <= t
  }

  /** The loop itself: candidates from position `i` on, with running `best` and winner `arg`. */
  function ScanFrom(xs: seq<real>, skip: set<nat>, i: nat, best: real, arg: Option<nat>): Option<nat>
    requires i <= |xs|
    decreases |xs| - i
  {
    if i == |xs| then arg
    else if i !in skip && xs[i] > best then ScanFrom(xs, skip, i + 1, xs[i], Some(i))
    else ScanFrom(xs, skip, i + 1, best, arg)
  }

  /** What the running state of the loop knows after the candidates before `i`. */
  ghost predicate ScanState(xs: seq<real>, skip: set<nat>, t: real, i: nat, best: real, arg: Option<nat>)
    requires i <= |xs|
  {
    match arg
    case None => best == t && forall j | 0 <= j < i && j !in skip :: xs[j] <= t
    case Some(k) =>
      && k < i && k !in skip && best == xs[k] && xs[k] > t
      && (forall j | 0 <= j < i && j !in skip :: xs[j] <= xs[k])
      && (forall j | 0 <= j < k && j !in skip :: xs[j] < xs[k])
  }

  lemma {:induction false} ScanFromCorrect(xs: seq<real>, skip: set<nat>, t: real, i: nat, best: real, arg: Option<nat>)
    requires i <= |xs|
    requires ScanState(xs, skip, t, i, best, arg)
    ensures var r := ScanFrom(xs, skip, i, best, arg);
      (r.None? ==> NoneAbove(xs, skip, t)) && (r.Some? ==> IsFirstMaxAbove(xs, skip, t, r.value))
    decreases |xs| - i
  {
    if i < |xs| {
      if i !in skip && xs[i] > best {
        ScanFromCorrect(xs, skip, t, i + 1, xs[i], Some(i));
      } else {
        ScanFromCorrect(xs, skip, t, i + 1, best, arg);
      }
    }
  }

  /**
   * Index of the first maximal candidate outside `skip` whose value is strictly above `t`,
   * or None when every candidate is at most `t`.
   */
  function ArgMaxAbove(xs: seq<real>, skip: set<nat>, t: real): (r: Option<nat>)
    ensures r.None? <==> NoneAbove(xs, skip, t)
    ensures r.Some? ==> IsFirstMaxAbove(xs, skip, t, r.value)
  {
    ScanFromCorrect(xs, skip, t, 0, t, None);
    ScanFrom(xs, skip, 0, t, None)
  }

  /** The specification of `ArgMaxAbove` pins its result down: at most one index satisfies it. */
  lemma FirstMaxAboveUnique(xs: seq<real>, skip: set<nat>, t: real, k1: nat, k2: nat)
    requires IsFirstMaxAbove(xs, skip, t, k1) && IsFirstMaxAbove(xs, skip, t, k2)
    ensures k1 == k2
  {
  }

  /** Any index meeting the specification is the one the scan returns. */
  lemma ArgMaxAboveIsReference(xs: seq<real>, skip: set<nat>, t: real, k: nat)
    requires IsFirstMaxAbove(xs, skip, t, k)
    ensures ArgMaxAbove(xs, skip, t) == Some(k)
  {
    var r := ArgMaxAbove(xs, skip, t);
    assert !NoneAbove(xs, skip, t);
    FirstMaxAboveUnique(xs, skip, t, r.value, k);
  }
}
