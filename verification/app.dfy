/**
 The pure decisions of the page around the analysis: which seasons are
 offered, and the damaging share shown in the analysis summary.
 */
module App {
  import opened Wrappers
  import opened Lex
  import opened Sorting
  import opened Stats
  import opened Aggregate
  import opened Variability

  /** A season label is its own sort key. */
  function Label(s: string): string {
    s
  }

  /** How many seasons the season selector offers; separate from the analysis window. */
  const OfferedSeasons: nat := 5

  /**
   The seasons offered: the five greatest labels, greatest first
   (`sorted(all, reverse=True)[:5]`). Every label left out, counting
   repeated labels one by one, is no greater than any label offered.
   */
  function RecentSeasons(all: seq<string>): (r: seq<string>)
    ensures |r| == Min(OfferedSeasons, |all|)
    ensures SortedDesc(r, Label)
    ensures multiset(r) <= multiset(all)
    ensures forall x, k :: x in multiset(all) - multiset(r) && 0 <= k < |r| ==> LessEq(x, r[k])
  {
    var sorted := SortDesc(all, Label);
    var w := Min(OfferedSeasons, |all|);
    PrefixIsTop(all, sorted, w);
    sorted[..w]
  }

  /**
   A prefix of a descending arrangement of `all` is drawn from `all`, and
   what it leaves out of `all` is no greater than anything it keeps.
   */
  lemma PrefixIsTop(all: seq<string>, sorted: seq<string>, w: nat)
    requires multiset(sorted) == multiset(all) && SortedDesc(sorted, Label)
    requires w <= |sorted|
    ensures multiset(sorted[..w]) <= multiset(all)
    ensures forall x, k :: x in multiset(all) - multiset(sorted[..w]) && 0 <= k < w ==> LessEq(x, sorted[k])
  {
    assert sorted == sorted[..w] + sorted[w..];
    assert multiset(all) - multiset(sorted[..w]) == multiset(sorted[w..]);
    forall x, k | x in multiset(all) - multiset(sorted[..w]) && 0 <= k < w
      ensures LessEq(x, sorted[k])
    {
      assert x in sorted[w..];
      var j :| w <= j < |sorted| && sorted[j] == x;
      assert Label(sorted[j]) == x && Label(sorted[k]) == sorted[k];
    }
  }

  /**
   The share of damaging cycles in percent, guarded against a non-positive
   total average.
   */
  function DamagePercentage(damaging: real, total: real): (p: real)
    ensures total > 0.0 ==> p * total == damaging * 100.0
    ensures total <= 0.0 ==> p == 0.0
    ensures 0.0 <= damaging <= total ==> 0.0 <= p <= 100.0
  {
    if total > 0.0 then damaging / total * 100.0 else 0.0
  }

  /** The two percentages of the analysis summary. */
  datatype Summary = Summary(allYears: real, recent: real)

  /**
   The analysis summary, shown only when at least two seasons contributed;
   each share compares the damaging and total averages of the same window.
   */
  function AnalysisSummary(st: Statistics): (r: Option<Summary>)
    ensures r.Some? <==> st.yearsAvailable >= 2
    ensures r.Some? ==> r.value.allYears * st.totalAllAvg == (if st.totalAllAvg > 0.0 then st.damagingAllAvg * 100.0 else 0.0)
    ensures r.Some? ==> r.value.recent * st.total5yrAvg == (if st.total5yrAvg > 0.0 then st.damaging5yrAvg * 100.0 else 0.0)
    ensures r.Some? && st.totalAllAvg <= 0.0 ==> r.value.allYears == 0.0
    ensures r.Some? && st.total5yrAvg <= 0.0 ==> r.value.recent == 0.0
  {
    if st.yearsAvailable >= 2 then
      Some(Summary(
        DamagePercentage(st.damagingAllAvg, st.totalAllAvg),
        DamagePercentage(st.damaging5yrAvg, st.total5yrAvg)))
    else
      None
  }

  /** A season whose damaging count lies between zero and its total count. */
  predicate Plausible(p: Point) {
    0 <= p.damagingCycles <= p.totalCycles
  }

  /**
   When every season has 0 <= damaging <= total, both shares of the
   summary are percentages between 0 and 100.
   */
  lemma SharesAreBounded(series: seq<Point>)
    requires |series| >= 2
    requires forall i :: 0 <= i < |series| ==> Plausible(series[i])
    ensures AnalysisSummary(Summarize(series)).Some?
    ensures var s := AnalysisSummary(Summarize(series)).value;
            0.0 <= s.allYears <= 100.0 && 0.0 <= s.recent <= 100.0
  {
    var st := Summarize(series);
    var w := Min(RecentYears, |series|);
    WindowShareBounded(Totals(series), Damaging(series));
    WindowShareBounded(Totals(series)[..w], Damaging(series)[..w]);
  }

  /** Over a window where 0 <= damaging <= total pointwise, 0 <= damaging mean <= total mean. */
  lemma WindowShareBounded(total: seq<real>, damaging: seq<real>)
    requires |total| == |damaging| > 0
    requires forall i :: 0 <= i < |total| ==> 0.0 <= damaging[i] <= total[i]
    ensures 0.0 <= Mean(damaging) <= Mean(total)
  {
    MeanNonNegative(damaging);
    MeanMonotone(damaging, total);
  }

  /**
   Two seasons with 60 and 50 total cycles: the all-years mean is 55 and the
   COV uses the population deviation (5), so its square is 25 * 100^2 / 55^2,
   a COV of about 9.09 percent, in the Low band. A sample deviation (ddof = 1)
   would have given about 12.86 percent, a square above 165.
   */
  lemma TwoSeasonExample()
    ensures var st := Summarize([Point("2023-2024", 60, 20), Point("2022-2023", 50, 10)]);
            && st.totalAllAvg == 55.0
            && st.totalAllCovSquared == 250000.0 / 3025.0
            && st.totalAllCovSquared < 100.0
            && ClassifySquared(st.totalAllCovSquared) == Low
            && AnalysisSummary(st).Some?
  {
    var series := [Point("2023-2024", 60, 20), Point("2022-2023", 50, 10)];
    var xs := Totals(series);
    assert xs == [60.0, 50.0];
    var tail := xs[1..];
    assert tail == [50.0] && tail[1..] == [];
    assert Sum(tail) == 50.0 + Sum(tail[1..]);
    assert Sum(xs) == 60.0 + Sum(tail);
    assert SquaredDeviations(tail, 55.0) == 25.0 + SquaredDeviations(tail[1..], 55.0);
    assert SquaredDeviations(xs, 55.0) == 25.0 + SquaredDeviations(tail, 55.0);
  }
}
