/** Occurrence statistics: each distinct value paired with how often it
    occurs (Python's `s.count(x)` for `x in set(s)`), ordered by that count,
    largest first, with Python's stable `sorted(..., reverse=True)`. */
module Tally {

  /** No value appears twice. */
  predicate NoDuplicates<T(==)>(s: seq<T>)
  {
    forall i, j :: 0 <= i < j < |s| ==> s[i] != s[j]
  }

  /** No two entries share a value. */
  predicate DistinctValues<T(==)>(r: seq<(T, nat)>)
  {
    forall i, j :: 0 <= i < j < |r| ==> r[i].0 != r[j].0
  }

  /** Counts never increase along the sequence. */
  predicate SortedByCount<T>(r: seq<(T, nat)>)
  {
    forall i, j :: 0 <= i < j < |r| ==> r[i].1 >= r[j].1
  }

  /** The distinct values of `s`. Python iterates over `set(s)` in an order
      of its own choosing; the model fixes first-occurrence order. */
  function Distinct<T(==)>(s: seq<T>): (d: seq<T>)
    ensures |d| <= |s|
    ensures NoDuplicates(d)
    ensures forall i :: 0 <= i < |d| ==> d[i] in s
    ensures forall i :: 0 <= i < |s| ==> s[i] in d
  {
    if s == [] then []
    else
      var d := Distinct(s[..|s| - 1]);
      assert forall i :: 0 <= i < |s| - 1 ==> s[..|s| - 1][i] == s[i];
      if s[|s| - 1] in d then d else d + [s[|s| - 1]]
  }

  /** Each value of `d` paired with its number of occurrences in `s`. */
  function Counts<T(==)>(d: seq<T>, s: seq<T>): (r: seq<(T, nat)>)
    ensures |r| == |d|
    ensures forall i :: 0 <= i < |r| ==> r[i] == (d[i], multiset(s)[d[i]])
  {
    if d == [] then [] else [(d[0], multiset(s)[d[0]])] + Counts(d[1..], s)
  }

  /** Insert `x` in front of the first entry whose count is not larger;
      entries with the same count keep their relative order. */
  function Insert<T>(x: (T, nat), ys: seq<(T, nat)>): (r: seq<(T, nat)>)
    ensures multiset(r) == multiset(ys) + multiset{x}
    ensures |r| == |ys| + 1
  {
    if ys == [] || x.1 >= ys[0].1 then [x] + ys
    else
      assert ys == [ys[0]] + ys[1..];
      [ys[0]] + Insert(x, ys[1..])
  }

  lemma {:induction false} InsertSorted<T>(x: (T, nat), ys: seq<(T, nat)>)
    requires SortedByCount(ys)
    ensures SortedByCount(Insert(x, ys))
  {
    if ys != [] && x.1 < ys[0].1 {
      var tail := Insert(x, ys[1..]);
      InsertSorted(x, ys[1..]);
      forall j | 0 <= j < |tail| ensures ys[0].1 >= tail[j].1 {
        assert tail[j] in multiset(ys[1..]) + multiset{x};
        if tail[j] != x {
          var k :| 0 <= k < |ys[1..]| && ys[1..][k] == tail[j];
          assert ys[k + 1] == tail[j];
        }
      }
    }
  }

  lemma {:induction false} InsertDistinct<T>(x: (T, nat), ys: seq<(T, nat)>)
    requires DistinctValues(ys)
    requires forall i :: 0 <= i < |ys| ==> ys[i].0 != x.0
    ensures DistinctValues(Insert(x, ys))
  {
    if ys != [] && x.1 < ys[0].1 {
      var tail := Insert(x, ys[1..]);
      InsertDistinct(x, ys[1..]);
      forall j | 0 <= j < |tail| ensures ys[0].0 != tail[j].0 {
        assert tail[j] in multiset(ys[1..]) + multiset{x};
        if tail[j] != x {
          var k :| 0 <= k < |ys[1..]| && ys[1..][k] == tail[j];
          assert ys[k + 1] == tail[j];
        }
      }
    }
  }

  lemma {:induction false} InsertSum<T>(x: (T, nat), ys: seq<(T, nat)>)
    ensures SumCounts(Insert(x, ys)) == x.1 + SumCounts(ys)
  {
    if ys != [] && x.1 < ys[0].1 {
      InsertSum(x, ys[1..]);
    }
  }

  /** Stable sort by count, largest first. */
  function SortByCount<T>(xs: seq<(T, nat)>): (r: seq<(T, nat)>)
    ensures multiset(r) == multiset(xs)
    ensures |r| == |xs|
  {
    if xs == [] then []
    else
      assert xs == [xs[0]] + xs[1..];
      Insert(xs[0], SortByCount(xs[1..]))
  }

  /** The sort orders by count and keeps the sum of the counts and the
      distinctness of the values. */
  lemma {:induction false} SortByCountFacts<T>(xs: seq<(T, nat)>)
    ensures SortedByCount(SortByCount(xs))
    ensures SumCounts(SortByCount(xs)) == SumCounts(xs)
    ensures DistinctValues(xs) ==> DistinctValues(SortByCount(xs))
  {
    if xs != [] {
      var rest := SortByCount(xs[1..]);
      SortByCountFacts(xs[1..]);
      InsertSorted(xs[0], rest);
      InsertSum(xs[0], rest);
      if DistinctValues(xs) {
        assert DistinctValues(xs[1..]) by {
          forall i, j | 0 <= i < j < |xs[1..]| ensures xs[1..][i].0 != xs[1..][j].0 {
            assert xs[1..][i] == xs[i + 1] && xs[1..][j] == xs[j + 1];
          }
        }
        forall i | 0 <= i < |rest| ensures rest[i].0 != xs[0].0 {
          assert rest[i] in multiset(xs[1..]);
          var k :| 0 <= k < |xs[1..]| && xs[1..][k] == rest[i];
          assert xs[k + 1] == rest[i];
        }
        InsertDistinct(xs[0], rest);
      }
    }
  }

  /** The sum of the counts. */
  function SumCounts<T>(r: seq<(T, nat)>): nat
  {
    if r == [] then 0 else r[0].1 + SumCounts(r[1..])
  }

  /** The occurrence table of `s`: one entry per distinct value with its
      count, sorted by count, largest first. */
  function WithUses<T(==)>(s: seq<T>): (r: seq<(T, nat)>)
    ensures |r| <= |s|
    ensures forall i :: 0 <= i < |r| ==> r[i].0 in s && r[i].1 == multiset(s)[r[i].0]
  {
    var c := Counts(Distinct(s), s);
    var r := SortByCount(c);
    assert forall i :: 0 <= i < |r| ==> r[i].0 in s && r[i].1 == multiset(s)[r[i].0] by {
      forall i | 0 <= i < |r|
        ensures r[i].0 in s && r[i].1 == multiset(s)[r[i].0]
      {
        assert r[i] in multiset(c);
      }
    }
    r
  }

  /** The values whose count is exactly 1, in table order. */
  function UsedOnce<T>(r: seq<(T, nat)>): (once: seq<T>)
    ensures |once| <= |r|
  {
    if r == [] then []
    else (if r[0].1 == 1 then [r[0].0] else []) + UsedOnce(r[1..])
  }

  lemma {:induction false} UsedOnceMembers<T>(r: seq<(T, nat)>, x: T)
    ensures x in UsedOnce(r) <==> exists i :: 0 <= i < |r| && r[i] == (x, 1)
  {
    if r != [] {
      UsedOnceMembers(r[1..], x);
      if x in UsedOnce(r[1..]) {
        var i :| 0 <= i < |r[1..]| && r[1..][i] == (x, 1);
        assert r[i + 1] == (x, 1);
      }
      if exists i :: 0 <= i < |r| && r[i] == (x, 1) {
        var i :| 0 <= i < |r| && r[i] == (x, 1);
        if i > 0 { assert r[1..][i - 1] == (x, 1); }
      }
    }
  }

  lemma {:induction false} SumCountsNoOccurrences<T>(d: seq<T>)
    ensures SumCounts(Counts(d, [])) == 0
  {
    if d != [] { SumCountsNoOccurrences(d[1..]); }
  }

  /** The first entry of a table of counts, then the rest. */
  lemma SumCountsUnfold<T>(d: seq<T>, s: seq<T>)
    requires d != []
    ensures SumCounts(Counts(d, s)) == multiset(s)[d[0]] + SumCounts(Counts(d[1..], s))
  {
    var c := Counts(d, s);
    assert c[1..] == Counts(d[1..], s);
  }

  /** Without duplicates, the tail keeps that property and misses the head. */
  lemma NoDuplicatesTail<T>(d: seq<T>)
    requires d != [] && NoDuplicates(d)
    ensures NoDuplicates(d[1..])
    ensures d[0] !in d[1..]
  {
    forall i, j | 0 <= i < j < |d[1..]| ensures d[1..][i] != d[1..][j] {
      assert d[1..][i] == d[i + 1] && d[1..][j] == d[j + 1];
    }
    forall j | 0 <= j < |d[1..]| ensures d[1..][j] != d[0] {
      assert d[1..][j] == d[j + 1];
    }
  }

  lemma CountAfterAppend<T>(s: seq<T>, x: T, y: T)
    ensures multiset(s + [x])[y] == multiset(s)[y] + (if x == y then 1 else 0)
  {
    assert multiset(s + [x]) == multiset(s) + multiset{x};
  }

  /** How many elements of `s` are among the values `d`, counted value by value. */
  ghost function Occurrences<T>(d: seq<T>, s: seq<T>): nat
  {
    if d == [] then 0 else multiset(s)[d[0]] + Occurrences(d[1..], s)
  }

  lemma {:induction false} SumCountsOccurrences<T>(d: seq<T>, s: seq<T>)
    ensures SumCounts(Counts(d, s)) == Occurrences(d, s)
  {
    if d != [] {
      SumCountsUnfold(d, s);
      SumCountsOccurrences(d[1..], s);
    }
  }

  lemma {:induction false} OccurrencesStep<T>(d: seq<T>, s: seq<T>, x: T)
    requires NoDuplicates(d)
    ensures Occurrences(d, s + [x]) == Occurrences(d, s) + (if x in d then 1 else 0)
  {
    if d != [] {
      NoDuplicatesTail(d);
      OccurrencesStep(d[1..], s, x);
      CountAfterAppend(s, x, d[0]);
      assert x in d <==> x == d[0] || x in d[1..] by { assert d == [d[0]] + d[1..]; }
    }
  }

  lemma SumCountsStep<T>(d: seq<T>, s: seq<T>, x: T)
    requires NoDuplicates(d)
    ensures SumCounts(Counts(d, s + [x])) == SumCounts(Counts(d, s)) + (if x in d then 1 else 0)
  {
    SumCountsOccurrences(d, s);
    SumCountsOccurrences(d, s + [x]);
    OccurrencesStep(d, s, x);
  }

  /** Counting over values that cover `s` accounts for every element once. */
  lemma {:induction false} SumCountsCovering<T>(d: seq<T>, s: seq<T>)
    requires NoDuplicates(d)
    requires forall i :: 0 <= i < |s| ==> s[i] in d
    ensures SumCounts(Counts(d, s)) == |s|
  {
    if s == [] {
      SumCountsNoOccurrences(d);
    } else {
      var init := s[..|s| - 1];
      assert s == init + [s[|s| - 1]];
      assert forall i :: 0 <= i < |init| ==> init[i] == s[i];
      SumCountsCovering(d, init);
      SumCountsStep(d, init, s[|s| - 1]);
    }
  }

  lemma {:induction false} CardinalityOfNoDuplicates<T>(d: seq<T>)
    requires NoDuplicates(d)
    ensures |set x | x in d| == |d|
  {
    if d != [] {
      var init := d[..|d| - 1];
      assert NoDuplicates(init) by {
        forall i, j | 0 <= i < j < |init| ensures init[i] != init[j] {
          assert init[i] == d[i] && init[j] == d[j];
        }
      }
      CardinalityOfNoDuplicates(init);
      assert (set x | x in d) == (set x | x in init) + {d[|d| - 1]} by {
        assert d == init + [d[|d| - 1]];
      }
      assert d[|d| - 1] !in init by {
        forall i | 0 <= i < |init| ensures init[i] != d[|d| - 1] {
          assert init[i] == d[i];
        }
      }
    }
  }

  /** Every value of `s` has an entry. */
  lemma WithUsesCovers<T>(s: seq<T>)
    ensures forall x :: x in s ==> exists i :: 0 <= i < |WithUses(s)| && WithUses(s)[i].0 == x
  {
    var d := Distinct(s);
    var c := Counts(d, s);
    var r := SortByCount(c);
    forall x | x in s
      ensures exists i :: 0 <= i < |r| && r[i].0 == x
    {
      var k :| 0 <= k < |d| && d[k] == x;
      assert c[k] in multiset(r);
      var i :| 0 <= i < |r| && r[i] == c[k];
      assert r[i].0 == x;
    }
    assert r == WithUses(s);
  }

  /** The table is ordered by count, largest first, holds each value once,
      its counts add up to `|s|`, and it has one entry per distinct value,
      so no more entries than `s` has elements. */
  lemma WithUsesShape<T>(s: seq<T>)
    ensures SortedByCount(WithUses(s))
    ensures DistinctValues(WithUses(s))
    ensures SumCounts(WithUses(s)) == |s|
    ensures |WithUses(s)| == |set x | x in s|
    ensures |UsedOnce(WithUses(s))| <= |WithUses(s)| <= |s|
  {
    var d := Distinct(s);
    var c := Counts(d, s);
    assert DistinctValues(c);
    SortByCountFacts(c);
    SumCountsCovering(d, s);
    CardinalityOfNoDuplicates(d);
    assert (set x | x in d) == (set x | x in s);
  }

  /** The used-once list holds exactly the values that occur once. */
  lemma WithUsesUsedOnce<T>(s: seq<T>, x: T)
    ensures x in UsedOnce(WithUses(s)) <==> x in s && multiset(s)[x] == 1
  {
    WithUsesCovers(s);
    UsedOnceMembers(WithUses(s), x);
  }
}
