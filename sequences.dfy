/** Sequence helpers used to describe sample histories and per-second counts. */
module Sequences {

  function Last<T>(s: seq<T>): T
    requires s != []
  {
    s[|s| - 1]
  }

  /** `n` copies of `x`, built from the back so that one more copy is one more element. */
  function Repeat<T>(x: T, n: nat): (r: seq<T>)
    ensures |r| == n
  {
    if n == 0 then [] else Repeat(x, n - 1) + [x]
  }

  /** Sum of a sequence of counts, taken from the back. */
  function Sum(s: seq<nat>): nat
  {
    if s == [] then 0 else Sum(s[..|s| - 1]) + Last(s)
  }

  /** The distinct values occurring in `s`. */
  function Values(s: seq<int>): set<int>
  {
    set x | x in s
  }

  /** The whole numbers lo, lo+1, ..., lo+n-1. */
  function Interval(lo: int, n: nat): (r: set<int>)
    ensures |r| == n
    ensures forall k :: k in r <==> lo <= k < lo + n
  {
    if n == 0 then {} else Interval(lo, n - 1) + {lo + n - 1}
  }

  ghost predicate Sorted(s: seq<int>)
  {
    forall i, j :: 0 <= i <= j < |s| ==> s[i] <= s[j]
  }

  lemma {:induction false} SumAppend(a: seq<nat>, b: seq<nat>)
    ensures Sum(a + b) == Sum(a) + Sum(b)
    decreases |b|
  {
    if b == [] {
      assert a + b == a;
    } else {
      assert (a + b)[..|a + b| - 1] == a + b[..|b| - 1];
      SumAppend(a, b[..|b| - 1]);
    }
  }

  /** A sum of counts each at least m is at least m times their number. */
  lemma {:induction false} SumAtLeast(s: seq<nat>, m: nat)
    requires forall i :: 0 <= i < |s| ==> s[i] >= m
    ensures Sum(s) >= m * |s|
  {
    if s != [] {
      var n := |s|;
      assert forall i :: 0 <= i < n - 1 ==> s[..n - 1][i] == s[i];
      SumAtLeast(s[..n - 1], m);
      assert m * n == m * (n - 1) + m;
    }
  }

  /** A sum of counts each at most m is at most m times their number. */
  lemma {:induction false} SumAtMost(s: seq<nat>, m: nat)
    requires forall i :: 0 <= i < |s| ==> s[i] <= m
    ensures Sum(s) <= m * |s|
  {
    if s != [] {
      var n := |s|;
      assert forall i :: 0 <= i < n - 1 ==> s[..n - 1][i] == s[i];
      SumAtMost(s[..n - 1], m);
      assert m * n == m * (n - 1) + m;
    }
  }

  /** Counts each at most m, the last one below m, sum to less than m times their number. */
  lemma SumBelowWhenLastBelow(s: seq<nat>, m: nat)
    requires s != [] && Last(s) < m
    requires forall i :: 0 <= i < |s| ==> s[i] <= m
    ensures Sum(s) < m * |s|
  {
    var n := |s|;
    assert forall i :: 0 <= i < n - 1 ==> s[..n - 1][i] == s[i];
    SumAtMost(s[..n - 1], m);
    assert m * n == m * (n - 1) + m;
  }

  lemma {:induction false} SumRepeat(c: nat, n: nat)
    ensures Sum(Repeat(c, n)) == c * n
  {
    if n > 0 {
      assert Repeat(c, n)[..n - 1] == Repeat(c, n - 1);
      SumRepeat(c, n - 1);
    }
  }

  lemma {:induction false} RepeatElements<T>(x: T, n: nat)
    ensures forall i :: 0 <= i < n ==> Repeat(x, n)[i] == x
  {
    if n > 0 {
      RepeatElements(x, n - 1);
    }
  }

  /** One more copy appended after `prefix + Repeat(x, n)` is `prefix + Repeat(x, n + 1)`. */
  lemma RepeatAppend<T>(prefix: seq<T>, x: T, n: nat)
    ensures prefix + Repeat(x, n) + [x] == prefix + Repeat(x, n + 1)
  {
  }

  lemma RepeatSuffix<T>(x: T, n: nat, m: nat)
    requires m <= n
    ensures Repeat(x, n)[n - m..] == Repeat(x, m)
  {
    RepeatElements(x, n);
    RepeatElements(x, m);
  }

  /** A set of whole numbers inside an interval has at most as many members as the interval. */
  lemma SubsetOfIntervalSize(s: set<int>, lo: int, n: nat)
    requires forall k :: k in s ==> lo <= k < lo + n
    ensures |s| <= n
  {
    assert s <= Interval(lo, n);
    assert Interval(lo, n) == s + (Interval(lo, n) - s);
  }

  lemma ValuesAppend(a: seq<int>, b: seq<int>)
    ensures Values(a + b) == Values(a) + Values(b)
  {
    forall x | x in Values(a + b) ensures x in Values(a) + Values(b) {
      assert x in a + b;
    }
    forall x | x in Values(a) + Values(b) ensures x in Values(a + b) {
      if x in a { assert x in a + b; } else { assert x in b; assert x in a + b; }
    }
  }

  lemma ValuesRepeat(x: int, n: nat)
    requires n > 0
    ensures Values(Repeat(x, n)) == {x}
  {
    RepeatElements(x, n);
    assert Repeat(x, n)[0] == x;
  }
}
