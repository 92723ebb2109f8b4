/**
 * The visibility gate shared by the standalone tracker and the web service:
 * both versions of `get_satellite_position` turn the topocentric
 * (elevation, azimuth) of the astronomy library into either "below the
 * horizon" or the pair (azimuth, elevation).
 */
module Horizon {
  import opened Wrappers

  /** One evaluation of the astronomy library: angles in degrees. */
  datatype Reading = Reading(azimuth: real, elevation: real)

  /** The horizon test: strictly negative elevation is below the horizon. */
  predicate BelowHorizon(r: Reading)
  {
    r.elevation < 0.0
  }

  /**
   * `get_satellite_position`: `None` stands for the pair `(None, None)`,
   * `Some((az, el))` for `(az.degrees, alt.degrees)`.
   */
  function SatellitePosition(r: Reading): (p: Option<(real, real)>)
    ensures p.None? <==> r.elevation < 0.0
    ensures p.Some? ==> p.value.0 == r.azimuth && p.value.1 == r.elevation
    ensures p.Some? ==> p.value.1 >= 0.0
  {
    if r.elevation < 0.0 then None else Some((r.azimuth, r.elevation))
  }

  /** Exactly 0 degrees is on the visible side; anything below it is not. */
  lemma HorizonBoundary(az: real, el: real)
    ensures SatellitePosition(Reading(az, 0.0)) == Some((az, 0.0))
    ensures el < 0.0 ==> SatellitePosition(Reading(az, el)) == None
    ensures SatellitePosition(Reading(az, -0.001)) == None
  {
  }
}
