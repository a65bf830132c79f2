/**
 * Counting how often each value occurs, as pandas `value_counts()` and
 * `groupby().size()` do: a counter built in one pass, then a stable sort.
 */
module Tallies {
  import opened Seqs

  /** One line of a counts table: a value and the number of times it occurs. */
  datatype Tally<T> = Tally(value: T, count: nat)

  /** The value column of a counts table. */
  function Keys<T>(ts: seq<Tally<T>>): (r: seq<T>)
    ensures |r| == |ts|
    ensures forall i :: 0 <= i < |ts| ==> r[i] == ts[i].value
  {
    seq(|ts|, i requires 0 <= i < |ts| => ts[i].value)
  }

  /** The value column of a table headed by `t`. */
  lemma KeysCons<T>(t: Tally<T>, ts: seq<Tally<T>>)
    ensures Keys([t] + ts) == [t.value] + Keys(ts)
  {
  }

  /** The sum of the count column. */
  function Total<T>(ts: seq<Tally<T>>): nat {
    if ts == [] then 0 else ts[0].count + Total(ts[1..])
  }

  /** The count the table records for `x`: that of its first line for `x`, or 0 if it has none. */
  function CountOf<T(==)>(ts: seq<Tally<T>>, x: T): nat {
    if ts == [] then 0
    else if ts[0].value == x then ts[0].count
    else CountOf(ts[1..], x)
  }

  /** In a table without repeated values, every line holds the count recorded for its value. */
  lemma {:induction false} CountOfEntry<T(!new)>(ts: seq<Tally<T>>)
    requires NoDups(Keys(ts))
    ensures forall t :: t in ts ==> CountOf(ts, t.value) == t.count
  {
    if ts != [] {
      var tail := ts[1..];
      assert Keys(ts) == [ts[0].value] + Keys(tail);
      NoDupsCons(ts[0].value, Keys(tail));
      CountOfEntry(tail);
      forall t | t in ts ensures CountOf(ts, t.value) == t.count {
        if t != ts[0] {
          assert t in tail;
          var k :| 0 <= k < |tail| && tail[k] == t;
          assert Keys(tail)[k] == t.value;
        }
      }
    }
  }

  /** A table whose every count is positive has no more lines than its total. */
  lemma {:induction false} TotalBoundsLength<T>(ts: seq<Tally<T>>)
    requires forall t :: t in ts ==> t.count > 0
    ensures |ts| <= Total(ts)
  {
    if ts != [] {
      assert ts[0] in ts;
      assert forall t :: t in ts[1..] ==> t in ts;
      TotalBoundsLength(ts[1..]);
    }
  }

  /** Counting one more occurrence of `x`: its line goes up by one, or a new line `(x, 1)` is added at the end. */
  function Bump<T(==,!new)>(ts: seq<Tally<T>>, x: T): (r: seq<Tally<T>>)
    ensures Total(r) == Total(ts) + 1
    ensures forall y :: y in Keys(r) <==> y == x || y in Keys(ts)
    ensures NoDups(Keys(ts)) ==> NoDups(Keys(r))
    ensures forall y :: CountOf(r, y) == CountOf(ts, y) + (if y == x then 1 else 0)
  {
    if ts == [] then [Tally(x, 1)]
    else if ts[0].value == x then
      var r := [Tally(x, ts[0].count + 1)] + ts[1..];
      assert Keys(r) == Keys(ts);
      r
    else
      var rest := Bump(ts[1..], x);
      var r := [ts[0]] + rest;
      assert Keys(r) == [ts[0].value] + Keys(rest);
      assert Keys(ts) == [ts[0].value] + Keys(ts[1..]);
      NoDupsCons(ts[0].value, Keys(rest));
      NoDupsCons(ts[0].value, Keys(ts[1..]));
      r
  }

  /** The counter over `xs`: one line per distinct value, in order of first occurrence, counting every element once. */
  function Tallying<T(==,!new)>(xs: seq<T>): (r: seq<Tally<T>>)
    ensures Total(r) == |xs|
    ensures NoDups(Keys(r))
    ensures forall y :: y in Keys(r) <==> y in xs
    decreases |xs|
  {
    if xs == [] then [] else Bump(Tallying(xs[..|xs| - 1]), xs[|xs| - 1])
  }

  /** The counter holds each value of `xs` exactly once, with its number of occurrences, and its counts add up to `|xs|`. */
  lemma {:induction false} TallyingCounts<T(!new)>(xs: seq<T>)
    ensures NoDups(Keys(Tallying(xs)))
    ensures forall y :: y in Keys(Tallying(xs)) <==> y in xs
    ensures forall y :: CountOf(Tallying(xs), y) == Occurrences(xs, y)
    ensures forall t :: t in Tallying(xs) ==> t.count == Occurrences(xs, t.value)
    ensures Total(Tallying(xs)) == |xs|
    decreases |xs|
  {
    if xs != [] {
      var init := xs[..|xs| - 1];
      var last := xs[|xs| - 1];
      assert xs == init + [last];
      TallyingCounts(init);
      CountOfEntry(Tallying(xs));
    }
  }

  /** `ts` is in ascending order of `key`. */
  predicate SortedBy<T>(ts: seq<Tally<T>>, key: Tally<T> -> int) {
    forall i, j :: 0 <= i < j < |ts| ==> key(ts[i]) <= key(ts[j])
  }

  /** Sort key for ascending values. */
  function ByValue(t: Tally<int>): int {
    t.value
  }

  /** Sort key for descending counts. */
  function ByCountDescending<T>(t: Tally<T>): int {
    -(t.count as int)
  }

  /** A table sorted by value without repeated values is strictly ascending. */
  lemma StrictlyAscending(ts: seq<Tally<int>>)
    requires SortedBy(ts, ByValue) && NoDups(Keys(ts))
    ensures forall i, j :: 0 <= i < j < |ts| ==> ts[i].value < ts[j].value
  {
    forall i, j | 0 <= i < j < |ts| ensures ts[i].value < ts[j].value {
      assert ByValue(ts[i]) <= ByValue(ts[j]);
      assert Keys(ts)[i] != Keys(ts)[j];
    }
  }

  /** Every line of a table holds one of its keys. */
  lemma EntryKeys<T>(ts: seq<Tally<T>>)
    ensures forall t :: t in ts ==> t.value in Keys(ts)
  {
    forall t | t in ts ensures t.value in Keys(ts) {
      var i :| 0 <= i < |ts| && ts[i] == t;
      assert Keys(ts)[i] == t.value;
    }
  }

  /** Puts `t` in front of the first line whose key is not smaller, so equal keys keep their order. */
  function InsertBy<T>(t: Tally<T>, ts: seq<Tally<T>>, key: Tally<T> -> int): (r: seq<Tally<T>>)
    ensures multiset(r) == multiset(ts) + multiset{t}
    ensures |r| == |ts| + 1
    ensures r[0] == t || (ts != [] && r[0] == ts[0])
  {
    if ts == [] then [t]
    else if key(t) <= key(ts[0]) then [t] + ts
    else
      assert ts == [ts[0]] + ts[1..];
      [ts[0]] + InsertBy(t, ts[1..], key)
  }

  /** Inserting a line adds its value to the keys. */
  lemma {:induction false} InsertByKeys<T(!new)>(t: Tally<T>, ts: seq<Tally<T>>, key: Tally<T> -> int)
    ensures forall y :: y in Keys(InsertBy(t, ts, key)) <==> y == t.value || y in Keys(ts)
  {
    var r := InsertBy(t, ts, key);
    if ts == [] {
      assert Keys(r) == [t.value];
    } else if key(t) <= key(ts[0]) {
      assert Keys(r) == [t.value] + Keys(ts);
    } else {
      InsertByKeys(t, ts[1..], key);
      assert Keys(r) == [ts[0].value] + Keys(InsertBy(t, ts[1..], key));
      assert Keys(ts) == [ts[0].value] + Keys(ts[1..]);
    }
  }

  /** Inserting a line adds its count to the total. */
  lemma {:induction false} InsertByTotal<T>(t: Tally<T>, ts: seq<Tally<T>>, key: Tally<T> -> int)
    ensures Total(InsertBy(t, ts, key)) == Total(ts) + t.count
  {
    if ts != [] && key(t) > key(ts[0]) {
      InsertByTotal(t, ts[1..], key);
      assert InsertBy(t, ts, key)[1..] == InsertBy(t, ts[1..], key);
    }
  }

  /** Inserting a line for a new value keeps the keys distinct. */
  lemma {:induction false} InsertByDistinct<T(!new)>(t: Tally<T>, ts: seq<Tally<T>>, key: Tally<T> -> int)
    requires NoDups(Keys(ts)) && t.value !in Keys(ts)
    ensures NoDups(Keys(InsertBy(t, ts, key)))
  {
    if ts == [] {
      assert Keys(InsertBy(t, ts, key)) == [t.value];
    } else if key(t) <= key(ts[0]) {
      KeysCons(t, ts);
      NoDupsCons(t.value, Keys(ts));
    } else {
      var head, tail := ts[0], ts[1..];
      var rest := InsertBy(t, tail, key);
      assert ts == [head] + tail;
      KeysCons(head, tail);
      NoDupsCons(head.value, Keys(tail));
      assert t.value != head.value;
      InsertByDistinct(t, tail, key);
      InsertByKeys(t, tail, key);
      assert head.value !in Keys(rest);
      KeysCons(head, rest);
      NoDupsCons(head.value, Keys(rest));
    }
  }

  /** Inserting into a sorted table keeps it sorted. */
  lemma {:induction false} InsertBySorted<T>(t: Tally<T>, ts: seq<Tally<T>>, key: Tally<T> -> int)
    requires SortedBy(ts, key)
    ensures SortedBy(InsertBy(t, ts, key), key)
  {
    if ts != [] && key(t) > key(ts[0]) {
      InsertBySorted(t, ts[1..], key);
      var r := InsertBy(t, ts, key);
      var rest := InsertBy(t, ts[1..], key);
      assert r == [ts[0]] + rest;
      assert key(ts[0]) <= key(rest[0]) by {
        if rest[0] != t { assert rest[0] == ts[1]; }
      }
      forall i, j | 0 <= i < j < |r| ensures key(r[i]) <= key(r[j]) {
        if i == 0 && j > 1 { assert key(rest[0]) <= key(rest[j - 1]); }
      }
    }
  }

  /** Stable insertion sort of a table by ascending `key`: a permutation of its lines. */
  function SortBy<T>(ts: seq<Tally<T>>, key: Tally<T> -> int): (r: seq<Tally<T>>)
    ensures multiset(r) == multiset(ts)
  {
    if ts == [] then []
    else
      assert ts == [ts[0]] + ts[1..];
      InsertBy(ts[0], SortBy(ts[1..], key), key)
  }

  /** The sorted table is in key order. */
  lemma {:induction false} SortBySorted<T>(ts: seq<Tally<T>>, key: Tally<T> -> int)
    ensures SortedBy(SortBy(ts, key), key)
  {
    if ts != [] {
      SortBySorted(ts[1..], key);
      InsertBySorted(ts[0], SortBy(ts[1..], key), key);
    }
  }

  /** The sorted table has the same keys. */
  lemma {:induction false} SortByKeys<T(!new)>(ts: seq<Tally<T>>, key: Tally<T> -> int)
    ensures forall y :: y in Keys(SortBy(ts, key)) <==> y in Keys(ts)
  {
    if ts != [] {
      SortByKeys(ts[1..], key);
      InsertByKeys(ts[0], SortBy(ts[1..], key), key);
      assert Keys(ts) == [ts[0].value] + Keys(ts[1..]);
    }
  }

  /** The sorted table has the same total. */
  lemma {:induction false} SortByTotal<T>(ts: seq<Tally<T>>, key: Tally<T> -> int)
    ensures Total(SortBy(ts, key)) == Total(ts)
  {
    if ts != [] {
      SortByTotal(ts[1..], key);
      InsertByTotal(ts[0], SortBy(ts[1..], key), key);
    }
  }

  /** Sorting a table with distinct keys keeps them distinct. */
  lemma {:induction false} SortByDistinct<T(!new)>(ts: seq<Tally<T>>, key: Tally<T> -> int)
    requires NoDups(Keys(ts))
    ensures NoDups(Keys(SortBy(ts, key)))
  {
    if ts != [] {
      assert Keys(ts) == [ts[0].value] + Keys(ts[1..]);
      NoDupsCons(ts[0].value, Keys(ts[1..]));
      SortByDistinct(ts[1..], key);
      SortByKeys(ts[1..], key);
      InsertByDistinct(ts[0], SortBy(ts[1..], key), key);
    }
  }

  /** The counter sorted by any key: in key order, each value of `xs` once, the counts adding up to `|xs|`. */
  lemma SortedCounter<T(!new)>(xs: seq<T>, key: Tally<T> -> int)
    ensures SortedBy(SortBy(Tallying(xs), key), key)
    ensures NoDups(Keys(SortBy(Tallying(xs), key)))
    ensures forall y :: y in Keys(SortBy(Tallying(xs), key)) <==> y in xs
    ensures Total(SortBy(Tallying(xs), key)) == |xs|
  {
    var ts := Tallying(xs);
    TallyingCounts(xs);
    SortBySorted(ts, key);
    SortByKeys(ts, key);
    SortByTotal(ts, key);
    SortByDistinct(ts, key);
  }

  /** Every line of the sorted counter holds a value of `xs` and its positive number of occurrences. */
  lemma SortedCounterLines<T(!new)>(xs: seq<T>, key: Tally<T> -> int)
    ensures forall t :: t in SortBy(Tallying(xs), key) ==> t.value in xs && 0 < t.count == Occurrences(xs, t.value)
  {
    var ts := Tallying(xs);
    var r := SortBy(ts, key);
    forall t | t in r ensures t.value in xs && 0 < t.count == Occurrences(xs, t.value) {
      assert t in multiset(r);
      assert t in ts;
      TallyingCounts(xs);
      EntryKeys(ts);
    }
  }

  /**
   * `Series.value_counts()`: every distinct value of `xs` once, with its number
   * of occurrences, most frequent first. The order among equal counts is not
   * part of the contract.
   */
  function ValueCounts<T(==,!new)>(xs: seq<T>): (r: seq<Tally<T>>)
    ensures forall i, j :: 0 <= i < j < |r| ==> r[i].count >= r[j].count
    ensures NoDups(Keys(r))
    ensures forall v :: v in Keys(r) <==> v in xs
    ensures forall t :: t in r ==> t.value in xs && 0 < t.count == Occurrences(xs, t.value)
    ensures Total(r) == |xs|
    ensures |r| <= |xs|
  {
    var r := SortBy(Tallying(xs), ByCountDescending);
    SortedCounter(xs, ByCountDescending);
    SortedCounterLines(xs, ByCountDescending);
    assert forall i, j :: 0 <= i < j < |r| ==> ByCountDescending(r[i]) <= ByCountDescending(r[j]);
    TotalBoundsLength(r);
    r
  }

  /**
   * `value_counts().head(n)`: the first `n` lines of the ranking. No value left
   * out occurs more often than any value shown, and when fewer than `n` lines
   * are shown every value is.
   */
  function TopN<T(==,!new)>(xs: seq<T>, n: nat): (r: seq<Tally<T>>)
    ensures |r| <= n
    ensures r <= ValueCounts(xs)
    ensures |r| < n ==> forall v :: v in xs ==> v in Keys(r)
    ensures NoDups(Keys(r))
    ensures forall t :: t in r ==> t.value in xs && 0 < t.count == Occurrences(xs, t.value)
    ensures forall i, j :: 0 <= i < j < |r| ==> r[i].count >= r[j].count
  {
    var all := ValueCounts(xs);
    var r := all[..if n < |all| then n else |all|];
    HeadOfTable(all, |r|);
    r
  }

  /** The first `m` lines of a table keep its lines, its order and its distinct values. */
  lemma HeadOfTable<T>(ts: seq<Tally<T>>, m: nat)
    requires m <= |ts|
    ensures forall t :: t in ts[..m] ==> t in ts
    ensures forall i :: 0 <= i < m ==> Keys(ts[..m])[i] == Keys(ts)[i]
    ensures NoDups(Keys(ts)) ==> NoDups(Keys(ts[..m]))
    ensures m == |ts| ==> ts[..m] == ts
  {
  }

  /** No value left out of the head occurs more often than any value in it. */
  lemma TopNLeavesOutNoMoreFrequent<T(!new)>(xs: seq<T>, n: nat)
    ensures forall t, v :: t in TopN(xs, n) && v in xs && v !in Keys(TopN(xs, n)) ==> Occurrences(xs, v) <= t.count
  {
    var all, r := ValueCounts(xs), TopN(xs, n);
    forall t, v | t in r && v in xs && v !in Keys(r)
      ensures Occurrences(xs, v) <= t.count
    {
      var i :| 0 <= i < |r| && r[i] == t;
      var k :| 0 <= k < |all| && Keys(all)[k] == v;
      assert all[k] in all;
    }
  }

  /** A shorter head of the same ranking is a prefix of a longer one. */
  lemma TopNPrefix<T(!new)>(xs: seq<T>, m: nat, n: nat)
    requires m <= n
    ensures TopN(xs, m) <= TopN(xs, n)
  {
  }
}
