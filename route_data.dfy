/**
 * The records the route code reads from a driving-route answer and the
 * records it builds. A key that may be missing, `None` or empty is modelled
 * as the empty string where the code treats all three alike (`not ad`,
 * `nm or ad`, `if poly`).
 */
module RouteData {
  import opened Common

  /** One entry of a step's `cities` list. */
  datatype CityEntry = CityEntry(adcode: string, city: string)

  /** One step of the route's first path: its polyline, its duration in seconds, its cities. */
  datatype Step = Step(polyline: string, duration: int, cities: seq<CityEntry>)

  /** A city the route crosses, as `extract_cross_cities_v5` reports it. */
  datatype CrossCity = CrossCity(adcode: string, name: string)

  /** The live-weather record, passed through as the provider gives it. */
  datatype Weather = Weather(fields: map<string, string>)

  /** A waypoint of the response; times are whole minutes, `etaTime` counts from the same origin as the departure. */
  datatype Waypoint = Waypoint(
    name: string,
    location: string,
    etaMinutes: int,
    etaTime: int,
    adcode: Option<string>,
    weather: Option<Weather>)

  /** Waypoints whose ETAs never decrease along the sequence. */
  ghost predicate EtaSorted(wps: seq<Waypoint>)
  {
    forall a, b :: 0 <= a < b < |wps| ==> wps[a].etaMinutes <= wps[b].etaMinutes
  }

  /** Every waypoint's absolute ETA is the departure plus its ETA in minutes. */
  ghost predicate EtaTimesFrom(wps: seq<Waypoint>, departAt: int)
  {
    forall k :: 0 <= k < |wps| ==> wps[k].etaTime == departAt + wps[k].etaMinutes
  }
}
