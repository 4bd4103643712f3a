/**
 The multi-season aggregation behind the historical analysis: one point per
 season in which the target station has a row, the series sorted with the
 most recent season first, and the all-years and last-five-years figures.
 */
module Aggregate {
  import opened Wrappers
  import opened Records
  import opened Matching
  import opened Sorting
  import opened Stats
  import opened Seqs

  /** What one season contributes: its label and the two cycle counts. */
  datatype Point = Point(season: string, totalCycles: int, damagingCycles: int)

  /** The sort key of the series. */
  function SeasonOf(p: Point): string {
    p.season
  }

  /** The loader of a season's sheet; None stands for a load that raised. */
  type Loader = string -> Option<seq<Record>>

  /**
   The point a season contributes for the target, or None when its sheet
   cannot be loaded or has no row for the target's state and county. The
   counts are those of the first nearest matching row.
   */
  function SeasonPoint(season: string, load: Loader, target: Record): (r: Option<Point>)
    ensures r.None? <==> load(season).None? || forall i :: 0 <= i < |load(season).value| ==> !Matches(load(season).value[i], target)
    ensures r.Some? ==> r.value.season == season
    ensures r.Some? ==> exists i :: IsFirstClosest(load(season).value, target, i)
                          && r.value.totalCycles == load(season).value[i].totalCycles
                          && r.value.damagingCycles == load(season).value[i].damagingCycles
  {
    match load(season)
    case None => None
    case Some(records) =>
      match SelectRecord(records, target)
      case None => None
      case Some(rec) =>
        SelectRecordIsFirstClosest(records, target);
        Some(Point(season, rec.totalCycles, rec.damagingCycles))
  }

  /** The per-season step: the point a season label contributes, if any. */
  type Step = string -> Option<Point>

  /** The program's per-season step for a target and a loader. */
  function PointOf(load: Loader, target: Record): Step {
    (season: string) => SeasonPoint(season, load, target)
  }

  /**
   The loop over the available seasons: every season is tried on its own, a
   season with no point is skipped without stopping the others, and each
   other season contributes exactly its point.
   */
  function Gather(seasons: seq<string>, step: Step): (ps: seq<Point>)
    ensures |ps| <= |seasons|
    ensures |ps| == |SomeIndices(seasons, step)|
    ensures forall k :: 0 <= k < |ps| ==> exists i :: 0 <= i < |seasons| && step(seasons[i]) == Some(ps[k])
    ensures forall i :: 0 <= i < |seasons| && step(seasons[i]).Some? ==> step(seasons[i]).value in ps
    ensures forall p :: multiset(ps)[p] == Yields(seasons, step, p)
  {
    var ps := FilterMap(seasons, step);
    forall k | 0 <= k < |ps|
      ensures exists i :: 0 <= i < |seasons| && step(seasons[i]) == Some(ps[k])
    {
      InFilterMap(seasons, step, ps[k]);
    }
    forall i | 0 <= i < |seasons| && step(seasons[i]).Some?
      ensures step(seasons[i]).value in ps
    {
      InFilterMap(seasons, step, step(seasons[i]).value);
    }
    ps
  }

  /**
   The result of the historical analysis. Each COV is held as its square
   (Stats.CovSquared); `series` is sorted with the most recent season first.
   */
  datatype Statistics = Statistics(
    series: seq<Point>,
    totalAllAvg: real,
    damagingAllAvg: real,
    totalAllCovSquared: real,
    damagingAllCovSquared: real,
    total5yrAvg: real,
    damaging5yrAvg: real,
    total5yrCovSquared: real,
    damaging5yrCovSquared: real,
    yearsAvailable: nat)

  /** The number of seasons in the recent window. */
  const RecentYears: nat := 5

  function Min(a: nat, b: nat): nat {
    if a <= b then a else b
  }

  /** The total cycle counts of the series, as reals. */
  function Totals(ps: seq<Point>): (xs: seq<real>)
    ensures |xs| == |ps|
    ensures forall i :: 0 <= i < |ps| ==> xs[i] == ps[i].totalCycles as real
  {
    seq(|ps|, i requires 0 <= i < |ps| => ps[i].totalCycles as real)
  }

  /** The damaging cycle counts of the series, as reals. */
  function Damaging(ps: seq<Point>): (xs: seq<real>)
    ensures |xs| == |ps|
    ensures forall i :: 0 <= i < |ps| ==> xs[i] == ps[i].damagingCycles as real
  {
    seq(|ps|, i requires 0 <= i < |ps| => ps[i].damagingCycles as real)
  }

  /** The recent window, as the program slices it: the first five values when there are five or more. */
  function Recent(xs: seq<real>): (r: seq<real>)
    ensures |r| == Min(RecentYears, |xs|)
    ensures r == xs[..|r|]
  {
    if |xs| >= RecentYears then xs[..RecentYears] else xs
  }

  /** The guarded mean: zero for an empty window. */
  function Average(xs: seq<real>): (a: real)
    ensures |xs| == 0 ==> a == 0.0
    ensures |xs| > 0 ==> a * |xs| as real == Sum(xs)
  {
    if |xs| > 0 then Mean(xs) else 0.0
  }

  /**
   The figures of a series already sorted most recent first. The recent
   window is the prefix of length min(5, n); every COV is non-negative and is
   zero when its window has fewer than two points or a non-positive mean.
   */
  function Summarize(series: seq<Point>): (st: Statistics)
    ensures st.series == series && st.yearsAvailable == |series|
    ensures |series| > 0 ==>
              && st.totalAllAvg == Mean(Totals(series))
              && st.damagingAllAvg == Mean(Damaging(series))
              && st.totalAllCovSquared == CovSquared(Totals(series))
              && st.damagingAllCovSquared == CovSquared(Damaging(series))
    ensures var w := Min(RecentYears, |series|);
            && st.total5yrAvg == Average(Totals(series)[..w])
            && st.damaging5yrAvg == Average(Damaging(series)[..w])
            && st.total5yrCovSquared == CovSquared(Totals(series)[..w])
            && st.damaging5yrCovSquared == CovSquared(Damaging(series)[..w])
    ensures st.totalAllCovSquared >= 0.0 && st.damagingAllCovSquared >= 0.0
    ensures st.total5yrCovSquared >= 0.0 && st.damaging5yrCovSquared >= 0.0
    ensures |series| < 2 ==> st.totalAllCovSquared == 0.0 && st.damagingAllCovSquared == 0.0
    ensures |series| < 2 ==> st.total5yrCovSquared == 0.0 && st.damaging5yrCovSquared == 0.0
  {
    var total := Totals(series);
    var damaging := Damaging(series);
    var recentTotal := Recent(total);
    var recentDamaging := Recent(damaging);
    assert recentTotal == total[..Min(RecentYears, |series|)];
    assert recentDamaging == damaging[..Min(RecentYears, |series|)];
    Statistics(
      series,
      Average(total),
      Average(damaging),
      CovSquared(total),
      CovSquared(damaging),
      Average(recentTotal),
      Average(recentDamaging),
      CovSquared(recentTotal),
      CovSquared(recentDamaging),
      |total|)
  }

  /**
   The historical analysis over the available seasons for any per-season
   step: None exactly when no season contributes a point; otherwise the
   figures of the contributed points sorted most recent first.
   */
  function Analyze(seasons: seq<string>, step: Step): (r: Option<Statistics>)
    ensures r.None? <==> forall i :: 0 <= i < |seasons| ==> step(seasons[i]).None?
    ensures r.Some? ==> 1 <= r.value.yearsAvailable <= |seasons|
    ensures r.Some? ==> r.value.yearsAvailable == |SomeIndices(seasons, step)|
    ensures r.Some? ==> SortedDesc(r.value.series, SeasonOf)
    ensures r.Some? ==> multiset(r.value.series) == multiset(Gather(seasons, step))
    ensures r.Some? ==> forall p :: multiset(r.value.series)[p] == Yields(seasons, step, p)
    ensures r.Some? ==> r.value == Summarize(r.value.series)
  {
    var points := Gather(seasons, step);
    if |points| == 0 then
      None
    else
      var series := SortDesc(points, SeasonOf);
      Some(Summarize(series))
  }

  /**
   `calculate_statistics` for a target station: None exactly when no
   season's sheet loads and has a row for the target's state and county;
   otherwise the analysis of the seasons' points.
   */
  function CalculateStatistics(target: Record, seasons: seq<string>, load: Loader): (r: Option<Statistics>)
    ensures r.None? <==> forall i :: 0 <= i < |seasons| ==> SeasonPoint(seasons[i], load, target).None?
    ensures r.Some? ==> SortedDesc(r.value.series, SeasonOf)
    ensures r.Some? ==> forall p :: multiset(r.value.series)[p] == Yields(seasons, PointOf(load, target), p)
    ensures r.Some? ==> r.value == Summarize(r.value.series)
  {
    Analyze(seasons, PointOf(load, target))
  }

  /**
   With at most five seasons the recent window is the whole series, so the
   last-five-years figures equal the all-years figures.
   */
  lemma FewSeasonsRecentIsAll(series: seq<Point>)
    requires |series| <= RecentYears
    ensures var st := Summarize(series);
            && st.total5yrAvg == st.totalAllAvg
            && st.damaging5yrAvg == st.damagingAllAvg
            && st.total5yrCovSquared == st.totalAllCovSquared
            && st.damaging5yrCovSquared == st.damagingAllCovSquared
  {
    assert Totals(series)[..|series|] == Totals(series);
    assert Damaging(series)[..|series|] == Damaging(series);
  }
}
