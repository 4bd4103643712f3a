/**
 Sorting in descending order of a string key, as `sorted(..., reverse=True)`
 and pandas' `sort_values(ascending=False)` do. The sort is an insertion sort
 that keeps equal keys in their input order.
 */
module Sorting {
  import opened Lex

  /** Every element's key is at least the key of every element after it. */
  predicate SortedDesc<T>(xs: seq<T>, key: T -> string) {
    forall i, j :: 0 <= i < j < |xs| ==> LessEq(key(xs[j]), key(xs[i]))
  }

  lemma SortedDescTail<T>(xs: seq<T>, key: T -> string)
    requires SortedDesc(xs, key) && |xs| > 0
    ensures SortedDesc(xs[1..], key)
  {
    forall i, j | 0 <= i < j < |xs| - 1
      ensures LessEq(key(xs[1..][j]), key(xs[1..][i]))
    {
      assert xs[1..][j] == xs[j + 1] && xs[1..][i] == xs[i + 1];
    }
  }

  /** A head that is at least every key of a sorted tail keeps it sorted. */
  lemma ConsSortedDesc<T>(x: T, xs: seq<T>, key: T -> string)
    requires SortedDesc(xs, key)
    requires forall k :: 0 <= k < |xs| ==> LessEq(key(xs[k]), key(x))
    ensures SortedDesc([x] + xs, key)
  {
    var r := [x] + xs;
    forall i, j | 0 <= i < j < |r|
      ensures LessEq(key(r[j]), key(r[i]))
    {
      if i == 0 {
        assert r[j] == xs[j - 1];
      } else {
        assert r[i] == xs[i - 1] && r[j] == xs[j - 1];
      }
    }
  }

  /** Puts `x` before the first element whose key is not greater than its own. */
  function Insert<T>(x: T, xs: seq<T>, key: T -> string): (r: seq<T>)
    requires SortedDesc(xs, key)
    ensures SortedDesc(r, key)
    ensures multiset(r) == multiset(xs) + multiset{x}
    ensures |r| == |xs| + 1
  {
    if |xs| == 0 then
      [x]
    else if !Less(key(x), key(xs[0])) then
      NotLessIsGreaterEq(key(x), key(xs[0]));
      forall k | 0 <= k < |xs|
        ensures LessEq(key(xs[k]), key(x))
      {
        if k > 0 {
          LessEqTransitive(key(xs[k]), key(xs[0]), key(x));
        }
      }
      ConsSortedDesc(x, xs, key);
      [x] + xs
    else
      SortedDescTail(xs, key);
      var rest := Insert(x, xs[1..], key);
      forall k | 0 <= k < |rest|
        ensures LessEq(key(rest[k]), key(xs[0]))
      {
        assert rest[k] in multiset(rest);
        if rest[k] != x {
          assert rest[k] in multiset(xs[1..]);
          var m :| 0 <= m < |xs[1..]| && xs[1..][m] == rest[k];
          assert xs[m + 1] == rest[k];
        }
      }
      ConsSortedDesc(xs[0], rest, key);
      assert xs == [xs[0]] + xs[1..];
      [xs[0]] + rest
  }

  /** The elements of `xs`, reordered so that keys descend. */
  function SortDesc<T>(xs: seq<T>, key: T -> string): (r: seq<T>)
    ensures SortedDesc(r, key)
    ensures multiset(r) == multiset(xs)
    ensures |r| == |xs|
  {
    if |xs| == 0 then
      []
    else
      assert xs == [xs[0]] + xs[1..];
      Insert(xs[0], SortDesc(xs[1..], key), key)
  }
}
