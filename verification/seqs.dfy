/**
 The generic sequence operations the program relies on: keeping the elements
 that satisfy a condition (a boolean mask over a frame), `np.argmin`, and
 collecting the values of the elements a step maps to Some.
 */
module Seqs {
  import opened Wrappers

  /** The elements of `xs` that satisfy `p`, in their original order. */
  function Filter<T>(xs: seq<T>, p: T -> bool): (r: seq<T>)
    ensures |r| <= |xs|
    ensures forall k :: 0 <= k < |r| ==> p(r[k]) && r[k] in xs
    ensures forall i :: 0 <= i < |xs| && p(xs[i]) ==> xs[i] in r
  {
    if |xs| == 0 then
      []
    else
      var rest := Filter(xs[1..], p);
      assert forall e :: e in xs[1..] ==> e in xs;
      if p(xs[0]) then [xs[0]] + rest else rest
  }

  /** Filtering keeps every copy of a satisfying element and no copy of any other. */
  lemma {:induction false} FilterCounts<T(!new)>(xs: seq<T>, p: T -> bool)
    ensures forall e :: multiset(Filter(xs, p))[e] == if p(e) then multiset(xs)[e] else 0
  {
    if |xs| > 0 {
      FilterCounts(xs[1..], p);
      assert xs == [xs[0]] + xs[1..];
    }
  }

  /** `np.argmin`: the index of the least cost, the first one among equals. */
  function ArgMin<T>(xs: seq<T>, cost: T -> real): (k: nat)
    requires |xs| > 0
    ensures k < |xs|
    ensures forall j :: 0 <= j < |xs| ==> cost(xs[k]) <= cost(xs[j])
    ensures forall j :: 0 <= j < k ==> cost(xs[j]) > cost(xs[k])
  {
    if |xs| == 1 then
      0
    else
      var k := ArgMin(xs[1..], cost);
      if cost(xs[0]) <= cost(xs[1..][k]) then 0 else k + 1
  }

  /**
   The least-cost element among those satisfying `p`, the first one among
   equals, or None when no element satisfies `p`.
   */
  function FirstMin<T>(xs: seq<T>, p: T -> bool, cost: T -> real): (r: Option<T>)
    ensures r.None? <==> forall i :: 0 <= i < |xs| ==> !p(xs[i])
    ensures r.Some? ==> r.value in xs && p(r.value)
    ensures r.Some? ==> forall i :: 0 <= i < |xs| && p(xs[i]) ==> cost(r.value) <= cost(xs[i])
  {
    var m := Filter(xs, p);
    if |m| == 0 then
      None
    else if |m| > 1 then
      Some(m[ArgMin(m, cost)])
    else
      Some(m[0])
  }

  /**
   Index `i` holds the least-cost element of `xs` among those satisfying `p`,
   and every earlier element satisfying `p` costs strictly more.
   */
  ghost predicate IsFirstMinWhere<T>(xs: seq<T>, p: T -> bool, cost: T -> real, i: int) {
    && 0 <= i < |xs|
    && p(xs[i])
    && (forall j :: 0 <= j < |xs| && p(xs[j]) ==> cost(xs[i]) <= cost(xs[j]))
    && (forall j :: 0 <= j < i && p(xs[j]) ==> cost(xs[j]) > cost(xs[i]))
  }

  /** A first minimum of the tail stays one when a costlier or excluded head is added. */
  lemma FirstMinWhereShift<T>(xs: seq<T>, p: T -> bool, cost: T -> real, i: int)
    requires |xs| > 0 && IsFirstMinWhere(xs[1..], p, cost, i)
    requires p(xs[0]) ==> cost(xs[0]) > cost(xs[1..][i])
    ensures IsFirstMinWhere(xs, p, cost, i + 1)
  {
    assert xs[i + 1] == xs[1..][i];
    forall j | 1 <= j < |xs| && p(xs[j])
      ensures cost(xs[i + 1]) <= cost(xs[j])
    {
      assert xs[j] == xs[1..][j - 1];
    }
    forall j | 1 <= j < i + 1 && p(xs[j])
      ensures cost(xs[j]) > cost(xs[i + 1])
    {
      assert xs[j] == xs[1..][j - 1];
    }
  }

  /** A head satisfying `p` that costs no more than the tail's first minimum is the first minimum. */
  lemma FirstMinWhereHead<T>(xs: seq<T>, p: T -> bool, cost: T -> real, i: int)
    requires |xs| > 0 && p(xs[0])
    requires IsFirstMinWhere(xs[1..], p, cost, i) && cost(xs[0]) <= cost(xs[1..][i])
    ensures IsFirstMinWhere(xs, p, cost, 0)
  {
    forall j | 1 <= j < |xs| && p(xs[j])
      ensures cost(xs[0]) <= cost(xs[j])
    {
      assert xs[j] == xs[1..][j - 1];
    }
  }

  /**
   Filtering and then taking the first minimum picks, in the unfiltered
   sequence, the first least-cost element satisfying the condition.
   */
  lemma {:induction false} ArgMinOfFilter<T>(xs: seq<T>, p: T -> bool, cost: T -> real)
    requires |Filter(xs, p)| > 0
    ensures var m := Filter(xs, p);
            exists i :: IsFirstMinWhere(xs, p, cost, i) && xs[i] == m[ArgMin(m, cost)]
    decreases |xs|
  {
    var m := Filter(xs, p);
    var mRest := Filter(xs[1..], p);
    if !p(xs[0]) {
      assert m == mRest;
      ArgMinOfFilter(xs[1..], p, cost);
      var i :| IsFirstMinWhere(xs[1..], p, cost, i) && xs[1..][i] == mRest[ArgMin(mRest, cost)];
      FirstMinWhereShift(xs, p, cost, i);
      assert xs[i + 1] == m[ArgMin(m, cost)];
    } else if |mRest| == 0 {
      assert m == [xs[0]];
      forall j | 1 <= j < |xs|
        ensures !p(xs[j])
      {
        assert xs[j] == xs[1..][j - 1];
      }
      assert IsFirstMinWhere(xs, p, cost, 0);
    } else {
      assert m == [xs[0]] + mRest;
      assert m[1..] == mRest;
      ArgMinOfFilter(xs[1..], p, cost);
      var kRest := ArgMin(mRest, cost);
      var i :| IsFirstMinWhere(xs[1..], p, cost, i) && xs[1..][i] == mRest[kRest];
      if cost(xs[0]) <= cost(mRest[kRest]) {
        FirstMinWhereHead(xs, p, cost, i);
        assert xs[0] == m[ArgMin(m, cost)];
      } else {
        FirstMinWhereShift(xs, p, cost, i);
        assert xs[i + 1] == m[ArgMin(m, cost)];
      }
    }
  }

  /**
   FirstMin returns the element at the first least-cost position among
   those satisfying `p`.
   */
  lemma FirstMinIsFirst<T>(xs: seq<T>, p: T -> bool, cost: T -> real)
    ensures FirstMin(xs, p, cost).Some? ==>
              exists i :: IsFirstMinWhere(xs, p, cost, i) && xs[i] == FirstMin(xs, p, cost).value
  {
    var m := Filter(xs, p);
    if |m| > 0 {
      ArgMinOfFilter(xs, p, cost);
      if |m| == 1 {
        assert ArgMin(m, cost) == 0;
      }
    }
  }

  /** At most one index is the first least-cost one: the choice is determined. */
  lemma FirstMinWhereIsUnique<T>(xs: seq<T>, p: T -> bool, cost: T -> real, i: int, j: int)
    ensures IsFirstMinWhere(xs, p, cost, i) && IsFirstMinWhere(xs, p, cost, j) ==> i == j
  {
  }

  /**
   Two costs that order the elements of `xs` alike have the same first
   minimum: only the order of the costs matters, not their values. Both
   indices are a first least-cost index under `c2`, and that index is unique.
   */
  lemma ArgMinOrderInvariant<T>(xs: seq<T>, c1: T -> real, c2: T -> real)
    requires |xs| > 0
    requires forall a, b :: a in xs && b in xs ==> (c1(a) <= c1(b) <==> c2(a) <= c2(b))
    ensures ArgMin(xs, c1) == ArgMin(xs, c2)
  {
  }

  /** `FirstMin` under two costs that order the elements alike picks the same element. */
  lemma FirstMinOrderInvariant<T>(xs: seq<T>, p: T -> bool, c1: T -> real, c2: T -> real)
    requires forall a, b :: a in xs && b in xs ==> (c1(a) <= c1(b) <==> c2(a) <= c2(b))
    ensures FirstMin(xs, p, c1) == FirstMin(xs, p, c2)
  {
    var m := Filter(xs, p);
    if |m| > 1 {
      ArgMinOrderInvariant(m, c1, c2);
    }
  }

  /**
   The values of the elements that `f` maps to Some, in order; the others are
   skipped. Built like a loop that appends one value per element.
   */
  function FilterMap<A, B(!new)>(xs: seq<A>, f: A -> Option<B>): (r: seq<B>)
    ensures |r| <= |xs|
    ensures |r| == |SomeIndices(xs, f)|
    ensures forall y :: multiset(r)[y] == Yields(xs, f, y)
  {
    if |xs| == 0 then
      []
    else
      var n := |xs| - 1;
      var init := xs[..n];
      var r := FilterMap(init, f);
      SomeIndicesSnoc(xs, f);
      var last := if f(xs[n]).Some? then [f(xs[n]).value] else [];
      assert forall y :: multiset(last)[y] == if f(xs[n]) == Some(y) then 1 else 0;
      r + last
  }

  /** The number of elements of `xs` that `f` maps to `Some(y)`. */
  ghost function Yields<A, B>(xs: seq<A>, f: A -> Option<B>, y: B): nat {
    if |xs| == 0 then 0
    else Yields(xs[..|xs| - 1], f, y) + (if f(xs[|xs| - 1]) == Some(y) then 1 else 0)
  }

  /** Some element yields `y` exactly when the count of `y` is positive. */
  lemma {:induction false} YieldsPositive<A, B>(xs: seq<A>, f: A -> Option<B>, y: B)
    ensures Yields(xs, f, y) > 0 <==> exists i :: 0 <= i < |xs| && f(xs[i]) == Some(y)
  {
    if |xs| > 0 {
      var n := |xs| - 1;
      var init := xs[..n];
      YieldsPositive(init, f, y);
      assert forall i :: 0 <= i < n ==> xs[i] == init[i];
      if Yields(xs, f, y) > 0 && f(xs[n]) != Some(y) {
        var i :| 0 <= i < n && f(init[i]) == Some(y);
        assert f(xs[i]) == Some(y);
      }
    }
  }

  /** A value is in the result exactly when some element maps to it. */
  lemma InFilterMap<A, B(!new)>(xs: seq<A>, f: A -> Option<B>, y: B)
    ensures y in FilterMap(xs, f) <==> exists i :: 0 <= i < |xs| && f(xs[i]) == Some(y)
  {
    YieldsPositive(xs, f, y);
    assert y in FilterMap(xs, f) <==> multiset(FilterMap(xs, f))[y] > 0;
  }

  /** Removing the last element removes at most its own position from SomeIndices. */
  lemma SomeIndicesSnoc<A, B>(xs: seq<A>, f: A -> Option<B>)
    requires |xs| > 0
    ensures var n := |xs| - 1;
            |SomeIndices(xs, f)| == |SomeIndices(xs[..n], f)| + (if f(xs[n]).Some? then 1 else 0)
  {
    var n := |xs| - 1;
    var init := xs[..n];
    assert forall i :: 0 <= i < n ==> xs[i] == init[i];
    assert n !in SomeIndices(init, f);
    assert SomeIndices(xs, f) == SomeIndices(init, f) + (if f(xs[n]).Some? then {n} else {});
  }

  /** The positions of the elements that `f` maps to Some. */
  ghost function SomeIndices<A, B>(xs: seq<A>, f: A -> Option<B>): set<int> {
    set i | 0 <= i < |xs| && f(xs[i]).Some?
  }
}
