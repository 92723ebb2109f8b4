/**
 * The web service's `get_satellite_data`: find the requested satellite in
 * the catalog, compute its position, pass it through the horizon gate and
 * choose the JSON payload.
 */
module WebApp {
  import opened Wrappers
  import opened Horizon
  import opened Rounding

  /** One entry of the catalog: a display name and its two-line element set. */
  datatype SatelliteRecord = SatelliteRecord(name: string, tleLine1: string, tleLine2: string)

  /** The JSON body: an `error` object (with or without a timestamp) or a position. */
  datatype Payload =
    | Error(error: string, stamp: Option<string>)
    | Position(azimuth: real, elevation: real, timestamp: string)

  datatype Response = Response(status: int, payload: Payload)

  const NotFoundMessage: string := "Satellite not found"
  const BelowHorizonMessage: string := "Satellite is below horizon"

  /**
   * The index of the first record, from `start` on, whose name equals the
   * query. A query of `None` (no `satellite_name` in the request) matches
   * no record.
   */
  function FindFrom(catalog: seq<SatelliteRecord>, query: Option<string>, start: nat): (r: Option<nat>)
    requires start <= |catalog|
    ensures r.Some? ==> start <= r.value < |catalog| && Some(catalog[r.value].name) == query
    ensures r.Some? ==> forall k :: start <= k < r.value ==> Some(catalog[k].name) != query
    ensures r.None? ==> forall k :: start <= k < |catalog| ==> Some(catalog[k].name) != query
    decreases |catalog| - start
  {
    if start == |catalog| then None
    else if Some(catalog[start].name) == query then Some(start)
    else FindFrom(catalog, query, start + 1)
  }

  /** The lookup `next((sat for sat in ... if sat['name'] == name), None)`. */
  function FindSatellite(catalog: seq<SatelliteRecord>, query: Option<string>): (r: Option<nat>)
    ensures r.Some? ==> r.value < |catalog| && Some(catalog[r.value].name) == query
    ensures r.Some? ==> forall k :: 0 <= k < r.value ==> Some(catalog[k].name) != query
    ensures r.None? <==> forall k :: 0 <= k < |catalog| ==> Some(catalog[k].name) != query
  {
    FindFrom(catalog, query, 0)
  }

  /**
   * The handler. `position` stands for building the satellite from the
   * record's element set and asking the astronomy library for its angles
   * now; `timestamp` for the formatted wall-clock time.
   */
  function GetSatelliteData(catalog: seq<SatelliteRecord>, query: Option<string>,
                            position: SatelliteRecord -> Reading, timestamp: string): (resp: Response)
    ensures FindSatellite(catalog, query).None? <==> resp.status == 404
    ensures resp.status == 404 ==> resp.payload == Error(NotFoundMessage, None)
    ensures resp.status != 404 ==> resp.status == 200
    ensures FindSatellite(catalog, query).Some? ==>
      var r := position(catalog[FindSatellite(catalog, query).value]);
      && (resp.payload.Error? <==> BelowHorizon(r))
      && (resp.payload.Error? ==> resp.payload == Error(BelowHorizonMessage, Some(timestamp)))
      && (resp.payload.Position? ==>
            && resp.payload.azimuth == RoundToHundredths(r.azimuth)
            && resp.payload.elevation == RoundToHundredths(r.elevation)
            && resp.payload.timestamp == timestamp)
  {
    match FindSatellite(catalog, query)
    case None => Response(404, Error(NotFoundMessage, None))
    case Some(i) =>
      match SatellitePosition(position(catalog[i]))
      case None => Response(200, Error(BelowHorizonMessage, Some(timestamp)))
      case Some((az, el)) => Response(200, Position(RoundToHundredths(az), RoundToHundredths(el), timestamp))
  }

  /** An unknown name never reaches the astronomy library: the position function is not consulted. */
  lemma NotFoundComputesNothing(catalog: seq<SatelliteRecord>, query: Option<string>,
                                p1: SatelliteRecord -> Reading, p2: SatelliteRecord -> Reading, timestamp: string)
    requires FindSatellite(catalog, query).None?
    ensures GetSatelliteData(catalog, query, p1, timestamp) == GetSatelliteData(catalog, query, p2, timestamp)
    ensures GetSatelliteData(catalog, query, p1, timestamp) == Response(404, Error(NotFoundMessage, None))
  {
  }

  /** When two records share a name, the one earlier in the catalog is used. */
  lemma FirstMatchWins(catalog: seq<SatelliteRecord>, i: nat, j: nat)
    requires i < j < |catalog| && catalog[i].name == catalog[j].name
    requires forall k :: 0 <= k < i ==> catalog[k].name != catalog[i].name
    ensures FindSatellite(catalog, Some(catalog[j].name)) == Some(i)
  {
  }

  /**
   * The gate inside the handler: exactly 0 degrees of elevation yields a
   * position payload, anything below it the below-horizon error.
   */
  lemma HandlerHorizonBoundary(rec: SatelliteRecord, az: real, el: real, timestamp: string)
    ensures GetSatelliteData([rec], Some(rec.name), _ => Reading(az, 0.0), timestamp).payload.Position?
    ensures el < 0.0 ==>
      GetSatelliteData([rec], Some(rec.name), _ => Reading(az, el), timestamp)
        == Response(200, Error(BelowHorizonMessage, Some(timestamp)))
  {
  }

  /** The space station at azimuth 118.4 and elevation 32.7 is reported as such. */
  lemma IssExample(rec: SatelliteRecord, timestamp: string)
    requires rec.name == "ISS (ZARYA)"
    ensures GetSatelliteData([rec], Some("ISS (ZARYA)"), _ => Reading(118.4, 32.7), timestamp)
      == Response(200, Position(118.4, 32.7, timestamp))
  {
    RoundingExamples();
  }
}
