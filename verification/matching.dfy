/**
 Picking one season's record for the target station: the rows whose
 normalised state and county equal the target's, and among several of those
 the first one nearest to the target's coordinates.
 */
module Matching {
  import opened Wrappers
  import opened Text
  import opened Records
  import opened Seqs
  import Reals

  /** The join condition: same state and same county once both are normalised. */
  predicate Matches(r: Record, target: Record) {
    && Normalize(r.state) == Normalize(target.state)
    && Normalize(r.county) == Normalize(target.county)
  }

  /** Matching is an equivalence between rows: reflexive, symmetric and transitive. */
  lemma MatchesIsEquivalence(a: Record, b: Record, c: Record)
    ensures Matches(a, a)
    ensures Matches(a, b) ==> Matches(b, a)
    ensures Matches(a, b) && Matches(b, c) ==> Matches(a, c)
  {
  }

  /** The target with its state and county replaced by their join keys. */
  function NormalizedTarget(target: Record): Record {
    target.(state := Normalize(target.state), county := Normalize(target.county))
  }

  /**
   Surrounding whitespace and ASCII lower-case letters in the target's names
   make no difference: a row matches the target exactly when it matches the
   target with normalised names.
   */
  lemma MatchesNormalizedTarget(r: Record, target: Record)
    ensures Matches(r, target) <==> Matches(r, NormalizedTarget(target))
  {
    NormalizeIdempotent(target.state);
    NormalizeIdempotent(target.county);
  }

  /** The join condition as a row mask. */
  function MatchesTarget(target: Record): Record -> bool {
    (r: Record) => Matches(r, target)
  }

  /** The distance to the target as a cost to minimise. */
  function DistanceTo(target: Record): Record -> real {
    (r: Record) => SqDistance(r, target)
  }

  /** The rows of a season that match the target, in sheet order. */
  function MatchingRecords(records: seq<Record>, target: Record): (m: seq<Record>)
    ensures |m| <= |records|
    ensures forall k :: 0 <= k < |m| ==> Matches(m[k], target) && m[k] in records
    ensures forall i :: 0 <= i < |records| && Matches(records[i], target) ==> records[i] in m
    ensures forall e :: multiset(m)[e] == if Matches(e, target) then multiset(records)[e] else 0
  {
    FilterCounts(records, MatchesTarget(target));
    Filter(records, MatchesTarget(target))
  }

  /**
   The record a season contributes for the target, or None when no row of
   the season matches it. A single match is taken as it is; among several,
   `np.argmin` over the distances picks the first nearest.
   */
  function SelectRecord(records: seq<Record>, target: Record): (r: Option<Record>)
    ensures r.None? <==> forall i :: 0 <= i < |records| ==> !Matches(records[i], target)
    ensures r.Some? ==> r.value in records && Matches(r.value, target)
    ensures r.Some? ==> forall i :: 0 <= i < |records| && Matches(records[i], target) ==>
                          SqDistance(r.value, target) <= SqDistance(records[i], target)
  {
    FirstMin(records, MatchesTarget(target), DistanceTo(target))
  }

  /**
   Row `i` matches the target and is nearest to it among the matching rows,
   and every matching row before it is strictly farther away.
   */
  ghost predicate IsFirstClosest(records: seq<Record>, target: Record, i: int) {
    IsFirstMinWhere(records, MatchesTarget(target), DistanceTo(target), i)
  }

  /** At most one row is the first nearest match: the choice is determined. */
  lemma FirstClosestIsUnique(records: seq<Record>, target: Record, i: int, j: int)
    ensures IsFirstClosest(records, target, i) && IsFirstClosest(records, target, j) ==> i == j
  {
    FirstMinWhereIsUnique(records, MatchesTarget(target), DistanceTo(target), i, j);
  }

  /**
   The chosen record is the earliest matching row, in sheet order, among
   those at the least distance from the target.
   */
  lemma SelectRecordIsFirstClosest(records: seq<Record>, target: Record)
    ensures SelectRecord(records, target).Some? ==>
              exists i :: IsFirstClosest(records, target, i) && records[i] == SelectRecord(records, target).value
  {
    FirstMinIsFirst(records, MatchesTarget(target), DistanceTo(target));
  }

  /**
   The program compares Euclidean distances, the non-negative square roots
   of the squared ones. Choosing by those picks the same record.
   */
  lemma SelectRecordByRootDistance(records: seq<Record>, target: Record, dist: Record -> real)
    requires forall i :: 0 <= i < |records| ==> dist(records[i]) >= 0.0 && dist(records[i]) * dist(records[i]) == SqDistance(records[i], target)
    ensures FirstMin(records, MatchesTarget(target), dist) == SelectRecord(records, target)
  {
    RootsOrderLikeSquares(records, DistanceTo(target), dist);
    FirstMinOrderInvariant(records, MatchesTarget(target), dist, DistanceTo(target));
  }

  /** Non-negative roots of the costs order the elements as the costs do. */
  lemma RootsOrderLikeSquares<T>(xs: seq<T>, sq: T -> real, root: T -> real)
    requires forall i :: 0 <= i < |xs| ==> root(xs[i]) >= 0.0 && root(xs[i]) * root(xs[i]) == sq(xs[i])
    ensures forall a, b :: a in xs && b in xs ==> (root(a) <= root(b) <==> sq(a) <= sq(b))
  {
    forall a, b | a in xs && b in xs
      ensures root(a) <= root(b) <==> sq(a) <= sq(b)
    {
      Reals.SquaresOrderLikeRoots(root(a), root(b));
    }
  }
}
