/** The constants of `CONFIG`: travel speeds, the time-to-distance table, the amenity search
    radius and the default weights of the score. */
module Config {
  import opened Common

  const WalkingSpeed: real := 80.0   // meters per minute
  const BikingSpeed: real := 250.0   // meters per minute

  /** One row of `timeThresholds`: meters reachable on foot and by bike. */
  datatype Reach = Reach(walk: real, bike: real)

  const TimeThresholds: map<int, Reach> := map[
    5 := Reach(400.0, 1250.0),
    10 := Reach(800.0, 2500.0),
    15 := Reach(1200.0, 3750.0),
    30 := Reach(2400.0, 7500.0)
  ]

  /** Radius in meters within which parks and shops count as nearby. */
  const AmenityRadius: real := 500.0

  /** The weight of each criterion in the final score. */
  datatype Weights = Weights(distance: real, parks: real, grocery: real, bikeAccess: real, transit: real)

  const DefaultWeights: Weights := Weights(0.3, 0.2, 0.2, 0.15, 0.15)

  /** The speed `getThresholdDistance` reads: the bike column for 'bike', the walk column
      for every other mode. */
  function Speed(travelMode: string): real {
    if travelMode == "bike" then BikingSpeed else WalkingSpeed
  }

  /** `getThresholdDistance`: the table entry for the time and the mode; a time that is not in
      the table has no entry (the source then throws). */
  function ThresholdDistance(timeThreshold: int, travelMode: string): (r: Option<real>)
    ensures r.Some? <==> timeThreshold in {5, 10, 15, 30}
    ensures r.Some? ==> r.value == timeThreshold as real * Speed(travelMode)
    ensures r.Some? ==> r.value > 0.0
  {
    if timeThreshold in TimeThresholds then
      var row := TimeThresholds[timeThreshold];
      Some(if travelMode == "bike" then row.bike else row.walk)
    else None
  }

  /** A longer time never gives a shorter distance, and the bike distance is never shorter
      than the walking one. */
  lemma ThresholdMonotone(t1: int, t2: int, mode: string)
    requires ThresholdDistance(t1, mode).Some? && ThresholdDistance(t2, mode).Some? && t1 <= t2
    ensures ThresholdDistance(t1, mode).value <= ThresholdDistance(t2, mode).value
    ensures ThresholdDistance(t1, "walk").value <= ThresholdDistance(t1, "bike").value
  {
  }
}
