/** Facts about sequences shared by the filter and the aggregations. */
module Seqs {
  import opened Wrappers

  /** No element occurs twice. */
  predicate NoDups<T(==)>(s: seq<T>) {
    forall i, j :: 0 <= i < j < |s| ==> s[i] != s[j]
  }

  /** A sequence headed by `x` is free of repeats exactly when its tail is and does not hold `x`. */
  lemma NoDupsCons<T>(x: T, s: seq<T>)
    ensures NoDups([x] + s) <==> x !in s && NoDups(s)
  {
    var xs := [x] + s;
    assert forall i :: 0 <= i < |s| ==> xs[i + 1] == s[i];
    if x !in s && NoDups(s) {
      forall i, j | 0 <= i < j < |xs| ensures xs[i] != xs[j] {
        if i > 0 { assert xs[i] == s[i - 1] && xs[j] == s[j - 1]; }
        else { assert xs[j] == s[j - 1]; }
      }
    }
    if NoDups(xs) {
      forall i, j | 0 <= i < j < |s| ensures s[i] != s[j] {
        assert xs[i + 1] != xs[j + 1];
      }
      forall k | 0 <= k < |s| ensures s[k] != x {
        assert xs[0] != xs[k + 1];
      }
    }
  }

  /** `sub` is `s` with some elements dropped and the others kept in their order. */
  predicate IsSubsequence<T(==)>(sub: seq<T>, s: seq<T>)
    decreases |s|
  {
    if sub == [] then true
    else if s == [] then false
    else (sub[0] == s[0] && IsSubsequence(sub[1..], s[1..])) || IsSubsequence(sub, s[1..])
  }

  /** How many times `x` occurs in `s`. */
  function Occurrences<T(==)>(s: seq<T>, x: T): nat {
    multiset(s)[x]
  }

  /** pandas `Series.unique()`: the distinct elements of `s`; the contract fixes which ones, not their order. */
  function Unique<T(==,!new)>(s: seq<T>): (r: seq<T>)
    ensures NoDups(r)
    ensures forall x :: x in r <==> x in s
    ensures |r| <= |s|
    decreases |s|
  {
    if s == [] then []
    else
      var prefix := Unique(s[..|s| - 1]);
      var last := s[|s| - 1];
      assert s == s[..|s| - 1] + [last];
      if last in prefix then prefix else prefix + [last]
  }

  /** Every element wrapped as a present cell. */
  function Somes<T>(s: seq<T>): seq<Option<T>> {
    seq(|s|, i requires 0 <= i < |s| => Some(s[i]))
  }

  /**
   * pandas `Series.dropna()`: the present values of a column, in their order
   * and with their repeats. Each value occurs as often as its present cells do.
   */
  function DropMissing<T(==,!new)>(s: seq<Option<T>>): (r: seq<T>)
    ensures |r| <= |s|
    ensures IsSubsequence(Somes(r), s)
    ensures forall x :: Occurrences(r, x) == Occurrences(s, Some(x))
    ensures forall x :: x in r <==> Some(x) in s
  {
    if s == [] then []
    else
      assert s == [s[0]] + s[1..];
      var rest := DropMissing(s[1..]);
      if s[0].Some? then
        assert Somes([s[0].value] + rest)[1..] == Somes(rest);
        [s[0].value] + rest
      else rest
  }

  /** The smallest element of a non-empty sequence (pandas `min()` over the present values). */
  function Min(s: seq<int>): (m: int)
    requires s != []
    ensures m in s
    ensures forall x :: x in s ==> m <= x
    decreases |s|
  {
    if |s| == 1 then s[0]
    else
      var rest := Min(s[1..]);
      assert forall x :: x in s ==> x == s[0] || x in s[1..];
      if s[0] <= rest then s[0] else rest
  }

  /** The largest element of a non-empty sequence (pandas `max()` over the present values). */
  function Max(s: seq<int>): (m: int)
    requires s != []
    ensures m in s
    ensures forall x :: x in s ==> x <= m
    decreases |s|
  {
    if |s| == 1 then s[0]
    else
      var rest := Max(s[1..]);
      assert forall x :: x in s ==> x == s[0] || x in s[1..];
      if s[0] >= rest then s[0] else rest
  }
}
