/** One row of a season's sheet: a monitoring station and its counts. */
module Records {
  import Reals

  datatype Record = Record(
    state: string,
    county: string,
    latitude: real,
    longitude: real,
    totalCycles: int,      // Total_Freeze_Thaw_Cycles
    damagingCycles: int)   // Damaging_Freeze_Thaw_Cycles

  /**
   The square of the Euclidean distance, in raw degrees, between a row and
   the target. The program compares square roots of these values; the square
   root is increasing on non-negative reals (Reals.SquaresOrderLikeRoots), so
   comparing the squares gives the same order and the same first minimum.
   */
  function SqDistance(r: Record, target: Record): (d: real)
    ensures d >= 0.0
  {
    var dLat := r.latitude - target.latitude;
    var dLon := r.longitude - target.longitude;
    Reals.SquareNonNegative(dLat);
    Reals.SquareNonNegative(dLon);
    dLat * dLat + dLon * dLon
  }
}
