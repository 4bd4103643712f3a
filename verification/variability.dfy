/** The three variability bands shown next to every COV value. */
module Variability {
  import Reals

  datatype Band = Low | Moderate | High

  /** The band of a COV percentage: below 15, 15 to 40 inclusive, above 40. */
  function Classify(cov: real): (b: Band)
    ensures b == Low <==> cov < 15.0
    ensures b == Moderate <==> 15.0 <= cov <= 40.0
    ensures b == High <==> cov > 40.0
  {
    if cov < 15.0 then Low
    else if cov <= 40.0 then Moderate
    else High
  }

  /** The marker displayed with each band. */
  function Icon(b: Band): (r: string)
    ensures |r| == 1
  {
    match b
    case Low => "\U{1F7E2}"
    case Moderate => "\U{1F7E1}"
    case High => "\U{1F534}"
  }

  /** Each band has its own marker, so the marker shows the band. */
  lemma IconsDistinct(a: Band, b: Band)
    ensures Icon(a) == Icon(b) <==> a == b
  {
    if a != b {
      assert Icon(a)[0] != Icon(b)[0];
    }
  }

  /** The band of a COV given by its square (Stats.CovSquared): 15^2 = 225, 40^2 = 1600. */
  function ClassifySquared(covSquared: real): Band {
    if covSquared < 225.0 then Low
    else if covSquared <= 1600.0 then Moderate
    else High
  }

  /** Classifying a non-negative COV by its square gives the band of the COV itself. */
  lemma ClassifySquaredAgrees(cov: real)
    requires cov >= 0.0
    ensures ClassifySquared(cov * cov) == Classify(cov)
  {
    Reals.SquaresOrderLikeRoots(cov, 15.0);
    Reals.SquaresOrderLikeRoots(cov, 40.0);
  }

  /** The boundary values: 15 and 40 are both Moderate. */
  lemma Boundaries()
    ensures Classify(14.9) == Low
    ensures Classify(15.0) == Moderate
    ensures Classify(40.0) == Moderate
    ensures Classify(40.1) == High
  {
  }
}
