/** Small facts about sequences, sets and maps used throughout the mesh model. */
module Sequences {

  predicate Distinct<T(==)>(s: seq<T>) {
    forall i, j | 0 <= i < j < |s| :: s[i] != s[j]
  }

  /** `s` with every occurrence of `x` taken out, in the original order. */
  function Without<T(==)>(s: seq<T>, x: T): (r: seq<T>)
    ensures x !in r
    ensures forall y | y in r :: y in s && y != x
    ensures forall y | y in s && y != x :: y in r
    ensures x !in s ==> r == s
    decreases |s|
  {
    if |s| == 0 then []
    else if s[0] == x then Without(s[1..], x)
    else [s[0]] + Without(s[1..], x)
  }

  /** The elements of `s`, as a set. */
  function Members<T>(s: seq<T>): set<T> {
    set x | x in s
  }

  lemma MembersAppend<T>(a: seq<T>, b: seq<T>)
    ensures Members(a + b) == Members(a) + Members(b)
  {
  }

  lemma DistinctTail<T>(s: seq<T>)
    requires |s| > 0 && Distinct(s)
    ensures Distinct(s[1..]) && s[0] !in s[1..]
  {
    forall k | 0 <= k < |s| - 1 ensures s[1..][k] != s[0] {
      assert s[1..][k] == s[k + 1];
    }
  }

  lemma {:induction false} WithoutDistinct<T>(s: seq<T>, x: T)
    requires Distinct(s)
    ensures Distinct(Without(s, x))
    ensures x in s ==> |Without(s, x)| == |s| - 1
    decreases |s|
  {
    if |s| > 0 {
      DistinctTail(s);
      WithoutDistinct(s[1..], x);
    }
  }

  function Reverse<T>(s: seq<T>): (r: seq<T>)
    ensures |r| == |s|
    ensures forall i | 0 <= i < |s| :: r[i] == s[|s| - 1 - i]
    decreases |s|
  {
    if |s| == 0 then [] else Reverse(s[1..]) + [s[0]]
  }

  lemma ReverseMembers<T>(s: seq<T>)
    ensures forall y :: y in Reverse(s) <==> y in s
  {
    var r := Reverse(s);
    forall y ensures y in r <==> y in s {
      if y in r {
        var i :| 0 <= i < |r| && r[i] == y;
        assert s[|s| - 1 - i] == y;
      }
      if y in s {
        var i :| 0 <= i < |s| && s[i] == y;
        assert r[|s| - 1 - i] == y;
      }
    }
  }

  lemma ReverseDistinct<T>(s: seq<T>)
    requires Distinct(s)
    ensures Distinct(Reverse(s))
  {
    var r := Reverse(s);
    forall i, j | 0 <= i < j < |r| ensures r[i] != r[j] {
      assert r[i] == s[|s| - 1 - i] && r[j] == s[|s| - 1 - j];
    }
  }

  /** Reversing a list with one more element in front puts that element at the back. */
  lemma ReverseCons<T>(x: T, s: seq<T>)
    ensures Reverse([x] + s) == Reverse(s) + [x]
  {
    assert ([x] + s)[1..] == s;
  }

  /** A set holding every number below `n` has at least `n` elements. */
  lemma {:induction false} PrefixCard(s: set<nat>, n: nat)
    requires forall j: nat | j < n :: j in s
    ensures n <= |s|
    decreases n
  {
    if n > 0 {
      PrefixCard(s - {n - 1}, n - 1);
    }
  }

  lemma SubsetCard<T>(a: set<T>, b: set<T>)
    requires a <= b
    ensures |a| <= |b|
    decreases |a|
  {
    if a != {} {
      var x :| x in a;
      SubsetCard(a - {x}, b - {x});
    }
  }

  /** A map whose keys include 0 .. n - 1 has at least n keys. */
  lemma PrefixKeysCard<T>(m: map<nat, T>, n: nat)
    requires forall j: nat | j < n :: j in m
    ensures n <= |m|
  {
    PrefixCard(m.Keys, n);
  }

  /** The elements of a duplicate-free sequence form a set of the same size. */
  lemma DistinctCard<T>(s: seq<T>)
    requires Distinct(s)
    ensures |set i | 0 <= i < |s| :: s[i]| == |s|
    decreases |s|
  {
    if |s| > 0 {
      var t := s[..|s| - 1];
      assert Distinct(t);
      DistinctCard(t);
      var st := set i | 0 <= i < |t| :: t[i];
      var ss := set i | 0 <= i < |s| :: s[i];
      assert ss == st + {s[|s| - 1]};
      assert s[|s| - 1] !in st;
    }
  }

  /** A duplicate-free sequence of keys of `m` is no longer than `m` is large. */
  lemma DistinctKeysBound<K, V>(s: seq<K>, m: map<K, V>)
    requires Distinct(s)
    requires forall i | 0 <= i < |s| :: s[i] in m
    ensures |s| <= |m|
  {
    DistinctCard(s);
    var r := set i | 0 <= i < |s| :: s[i];
    SubsetCard(r, m.Keys);
  }

  /** The lowest key at or above `k` that `m` does not use, given that it uses every key below `k`. */
  function LowestFreeFrom<T>(m: map<nat, T>, k: nat): (id: nat)
    requires forall j: nat | j < k :: j in m
    ensures id !in m && k <= id
    ensures forall j: nat | j < id :: j in m
    decreases |m| - k
  {
    PrefixKeysCard(m, k);
    if k !in m then k
    else
      PrefixKeysCard(m, k + 1);
      LowestFreeFrom(m, k + 1)
  }

  /** Allocation from a pool: the lowest id not in use. */
  function FreshId<T>(m: map<nat, T>): (id: nat)
    ensures id !in m
    ensures forall j: nat | j < id :: j in m
  {
    LowestFreeFrom(m, 0)
  }
}
