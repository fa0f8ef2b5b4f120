/** Sequence helpers: filtering, distinctness, ordering by a key, sums and means. */
module Seqs {

  function Filter<T(==,!new)>(xs: seq<T>, p: T -> bool): (r: seq<T>)
    ensures |r| <= |xs|
    ensures forall x :: x in r <==> x in xs && p(x)
  {
    if xs == [] then []
    else (if p(xs[0]) then [xs[0]] else []) + Filter(xs[1..], p)
  }

  predicate Distinct<T(==)>(xs: seq<T>) {
    forall i, j :: 0 <= i < j < |xs| ==> xs[i] != xs[j]
  }

  function ToSet<T>(xs: seq<T>): set<T> {
    set x | x in xs
  }

  /** A sequence has as many distinct elements as positions exactly when no element repeats. */
  lemma {:induction false} ToSetCardinality<T>(xs: seq<T>)
    ensures |ToSet(xs)| <= |xs|
    ensures |ToSet(xs)| == |xs| <==> Distinct(xs)
  {
    if xs != [] {
      var init, last := xs[..|xs| - 1], xs[|xs| - 1];
      assert xs == init + [last];
      ToSetCardinality(init);
      assert ToSet(xs) == ToSet(init) + {last};
      if last in init {
        var i :| 0 <= i < |init| && init[i] == last;
        assert xs[i] == xs[|xs| - 1];
        assert ToSet(xs) == ToSet(init);
      } else {
        assert last !in ToSet(init);
        assert |ToSet(xs)| == |ToSet(init)| + 1;
        if Distinct(init) {
          forall i, j | 0 <= i < j < |xs|
            ensures xs[i] != xs[j]
          {
            if j == |xs| - 1 {
              assert xs[i] == init[i];
            } else {
              assert xs[i] == init[i] && xs[j] == init[j];
            }
          }
        } else {
          var i, j :| 0 <= i < j < |init| && init[i] == init[j];
          assert xs[i] == xs[j];
        }
      }
    }
  }

  /** A filter that selects nothing yields the empty sequence. */
  lemma {:induction false} FilterNone<T(!new)>(xs: seq<T>, p: T -> bool)
    requires forall x :: x in xs ==> !p(x)
    ensures Filter(xs, p) == []
  {
    if xs != [] {
      assert forall x :: x in xs[1..] ==> x in xs;
      FilterNone(xs[1..], p);
    }
  }

  /** Filters that agree on the sequence's elements select the same subsequence. */
  lemma {:induction false} FilterCongruent<T(!new)>(xs: seq<T>, p: T -> bool, q: T -> bool)
    requires forall x :: x in xs ==> p(x) == q(x)
    ensures Filter(xs, p) == Filter(xs, q)
  {
    if xs != [] {
      assert forall x :: x in xs[1..] ==> x in xs;
      FilterCongruent(xs[1..], p, q);
    }
  }

  /** Filtering keeps a duplicate-free sequence duplicate-free. */
  lemma {:induction false} FilterDistinct<T(!new)>(xs: seq<T>, p: T -> bool)
    requires Distinct(xs)
    ensures Distinct(Filter(xs, p))
  {
    if xs != [] {
      var tail := xs[1..];
      assert Distinct(tail) by {
        forall i, j | 0 <= i < j < |tail|
          ensures tail[i] != tail[j]
        {
          assert tail[i] == xs[i + 1] && tail[j] == xs[j + 1];
        }
      }
      FilterDistinct(tail, p);
      var rest := Filter(tail, p);
      if p(xs[0]) {
        assert xs[0] !in tail by {
          forall j | 0 <= j < |tail|
            ensures tail[j] != xs[0]
          {
            assert tail[j] == xs[j + 1];
          }
        }
        forall i, j | 0 <= i < j < |[xs[0]] + rest|
          ensures ([xs[0]] + rest)[i] != ([xs[0]] + rest)[j]
        {
          assert ([xs[0]] + rest)[j] == rest[j - 1];
          if i > 0 {
            assert ([xs[0]] + rest)[i] == rest[i - 1];
          } else {
            assert rest[j - 1] in rest;
          }
        }
      } else {
        assert Filter(xs, p) == rest;
      }
    }
  }

  /** A subset with as many elements as its superset is the superset. */
  lemma SubsetSameSize<T>(a: set<T>, b: set<T>)
    requires a <= b && |a| == |b|
    ensures a == b
  {
    assert b == a + (b - a) && a * (b - a) == {};
    assert b - a == {};
  }

  // ---------------------------------------------------------------- ordering

  /** Non-increasing by `key`: the order of an `orderBy: { key: "desc" }` query. */
  predicate SortedDesc<T>(xs: seq<T>, key: T -> real) {
    forall i, j :: 0 <= i < j < |xs| ==> key(xs[i]) >= key(xs[j])
  }

  /** An element that bounds every element of a sorted sequence can lead it. */
  lemma PrependDesc<T>(h: T, xs: seq<T>, key: T -> real)
    requires SortedDesc(xs, key)
    requires forall k :: 0 <= k < |xs| ==> key(h) >= key(xs[k])
    ensures SortedDesc([h] + xs, key)
  {
    forall i, j | 0 <= i < j < |[h] + xs|
      ensures key(([h] + xs)[i]) >= key(([h] + xs)[j])
    {
      assert ([h] + xs)[j] == xs[j - 1];
      if i > 0 {
        assert ([h] + xs)[i] == xs[i - 1];
      }
    }
  }

  function InsertDesc<T>(x: T, xs: seq<T>, key: T -> real): (r: seq<T>)
    requires SortedDesc(xs, key)
    ensures SortedDesc(r, key)
    ensures multiset(r) == multiset(xs) + multiset{x}
  {
    if xs == [] then [x]
    else if key(x) >= key(xs[0]) then
      PrependDesc(x, xs, key);
      [x] + xs
    else
      var tail := xs[1..];
      assert xs == [xs[0]] + tail;
      assert SortedDesc(tail, key) by {
        forall i, j | 0 <= i < j < |tail|
          ensures key(tail[i]) >= key(tail[j])
        {
          assert tail[i] == xs[i + 1] && tail[j] == xs[j + 1];
        }
      }
      var rest := InsertDesc(x, tail, key);
      forall k | 0 <= k < |rest|
        ensures key(xs[0]) >= key(rest[k])
      {
        assert rest[k] in multiset(rest);
        if rest[k] != x {
          assert rest[k] in multiset(tail);
          var j :| 0 <= j < |tail| && tail[j] == rest[k];
          assert tail[j] == xs[j + 1];
        }
      }
      PrependDesc(xs[0], rest, key);
      [xs[0]] + rest
  }

  /** Insertion sort into non-increasing key order; a permutation of its input. */
  function SortDesc<T>(xs: seq<T>, key: T -> real): (r: seq<T>)
    ensures SortedDesc(r, key)
    ensures multiset(r) == multiset(xs)
  {
    if xs == [] then []
    else
      assert xs == [xs[0]] + xs[1..];
      InsertDesc(xs[0], SortDesc(xs[1..], key), key)
  }

  /** Sorting a duplicate-free sequence keeps it duplicate-free and keeps its elements. */
  lemma SortDescKeepsElements<T>(xs: seq<T>, key: T -> real)
    requires Distinct(xs)
    ensures Distinct(SortDesc(xs, key))
    ensures forall y :: y in SortDesc(xs, key) <==> y in xs
  {
    PermutationKeepsElements(xs, SortDesc(xs, key));
  }

  /** A permutation of a duplicate-free sequence is duplicate-free and has the same elements. */
  lemma PermutationKeepsElements<T>(xs: seq<T>, ys: seq<T>)
    requires multiset(xs) == multiset(ys) && Distinct(xs)
    ensures Distinct(ys)
    ensures forall y :: y in ys <==> y in xs
  {
    forall y
      ensures y in ys <==> y in xs
    {
      assert y in ys <==> y in multiset(ys);
      assert y in xs <==> y in multiset(xs);
    }
    forall i, j | 0 <= i < j < |ys|
      ensures ys[i] != ys[j]
    {
      if ys[i] == ys[j] {
        MultiplicityAtLeastTwo(ys, i, j);
        MultiplicityAtMostOne(xs, ys[i]);
      }
    }
  }

  lemma {:induction false} MultiplicityAtLeastTwo<T>(xs: seq<T>, i: int, j: int)
    requires 0 <= i < j < |xs| && xs[i] == xs[j]
    ensures multiset(xs)[xs[i]] >= 2
  {
    var x := xs[i];
    assert xs == xs[..i] + [x] + xs[i + 1..j] + [x] + xs[j + 1..];
    assert multiset(xs) == multiset(xs[..i]) + multiset{x} + multiset(xs[i + 1..j]) + multiset{x} + multiset(xs[j + 1..]);
  }

  lemma {:induction false} MultiplicityAtMostOne<T>(xs: seq<T>, x: T)
    requires Distinct(xs)
    ensures multiset(xs)[x] <= 1
  {
    if xs != [] {
      assert xs == [xs[0]] + xs[1..];
      assert Distinct(xs[1..]) by {
        forall i, j | 0 <= i < j < |xs[1..]|
          ensures xs[1..][i] != xs[1..][j]
        {
          assert xs[1..][i] == xs[i + 1] && xs[1..][j] == xs[j + 1];
        }
      }
      MultiplicityAtMostOne(xs[1..], x);
      if x == xs[0] {
        assert x !in xs[1..];
        assert multiset(xs[1..])[x] == 0;
      }
    }
  }

  // ---------------------------------------------------------------- sums and means

  function Sum(xs: seq<real>): real {
    if xs == [] then 0.0 else Sum(xs[..|xs| - 1]) + xs[|xs| - 1]
  }

  /** Arithmetic mean, as SQL `AVG` computes it over a non-empty column. */
  function Mean(xs: seq<real>): real
    requires |xs| > 0
  {
    Sum(xs) / (|xs| as real)
  }

  lemma SumAppend(xs: seq<real>, x: real)
    ensures Sum(xs + [x]) == Sum(xs) + x
  {
    assert (xs + [x])[..|xs|] == xs;
  }

  /** Appending `x` to `xs` moves the mean to `(Sum(xs) + x) / (|xs| + 1)`. */
  lemma MeanOfAppended(ys: seq<real>, xs: seq<real>, x: real)
    requires ys == xs + [x]
    ensures Mean(ys) == (Sum(xs) + x) / ((|xs| + 1) as real)
  {
    SumAppend(xs, x);
  }

  /** The sum of values within `[lo, hi]` lies between `n * lo` and `n * hi`. */
  lemma {:induction false} SumBounds(xs: seq<real>, lo: real, hi: real)
    requires forall i :: 0 <= i < |xs| ==> lo <= xs[i] <= hi
    ensures (|xs| as real) * lo <= Sum(xs) <= (|xs| as real) * hi
  {
    if xs != [] {
      var init := xs[..|xs| - 1];
      assert forall i :: 0 <= i < |init| ==> init[i] == xs[i];
      SumBounds(init, lo, hi);
      var n := |init| as real;
      assert (|xs| as real) * lo == n * lo + lo;
      assert (|xs| as real) * hi == n * hi + hi;
    }
  }

  /** The mean of values within `[lo, hi]` lies within `[lo, hi]`. */
  lemma MeanBounds(xs: seq<real>, lo: real, hi: real)
    requires |xs| > 0
    requires forall i :: 0 <= i < |xs| ==> lo <= xs[i] <= hi
    ensures lo <= Mean(xs) <= hi
  {
    SumBounds(xs, lo, hi);
    var n := |xs| as real;
    var m := Mean(xs);
    assert m * n == Sum(xs);
  }

  // ---------------------------------------------------------------- case folding

  /** ASCII case folding; the database's case-insensitive comparison is modelled on ASCII letters only. */
  function LowerChar(c: char): char {
    if 'A' <= c <= 'Z' then (c as int + 32) as char else c
  }

  function Lower(s: string): (r: string)
    ensures |r| == |s|
  {
    seq(|s|, i requires 0 <= i < |s| => LowerChar(s[i]))
  }

  /** `title IN list` under `mode: "insensitive"`. */
  predicate InInsensitive(title: string, list: seq<string>) {
    exists t :: t in list && Lower(t) == Lower(title)
  }
}
