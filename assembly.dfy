/**
 * `route_weather`: geocode both ends, fetch the route, join its polyline and
 * build one waypoint per crossed city, or, when no city entry of the route
 * has a non-empty adcode, one per sampled point. The providers are parameters: `geocode` answers an
 * address, `route` answers an origin, a destination and a strategy code,
 * `regeo` answers a location and `live` answers an adcode or a city name.
 */
module Assembly {
  import opened Common
  import opened RouteData
  import opened Text
  import opened Arith
  import opened Dedup
  import opened Provider
  import opened Strategy
  import opened CrossCities
  import opened Sampling

  /** How many points the fallback path asks `pick_waypoint_points` for. */
  const FallbackPoints: int := 12

  /** Why a request fails: a provider answer that is an error, or a strategy with no code. */
  datatype RequestError = ProviderFailed(cause: ProviderError) | StrategyFailed(reason: StrategyError)

  /** The response of a route request. */
  datatype RouteResponse = RouteResponse(
    origin: GeocodeResult,
    destination: GeocodeResult,
    distanceM: int,
    durationS: int,
    polyline: string,
    waypoints: seq<Waypoint>)

  // ---------------------------------------------------------------- polyline

  /** The non-empty polylines of the steps, in step order. */
  function Polylines(steps: seq<Step>): (ps: seq<string>)
    ensures forall k :: 0 <= k < |ps| ==> ps[k] != ""
  {
    if |steps| == 0 then []
    else
      var prev := Polylines(steps[..|steps| - 1]);
      var p := steps[|steps| - 1].polyline;
      if p != "" then prev + [p] else prev
  }

  /** The route's polyline: the non-empty step polylines joined by the separator. */
  function FullPolyline(steps: seq<Step>): (line: string)
    ensures line == "" <==> forall k :: 0 <= k < |steps| ==> steps[k].polyline == ""
  {
    PolylinesEmpty(steps);
    JoinEmpty(Polylines(steps));
    Join(Polylines(steps))
  }

  /** There are no polylines to join exactly when no step has one. */
  lemma {:induction false} PolylinesEmpty(steps: seq<Step>)
    ensures Polylines(steps) == [] <==> forall k :: 0 <= k < |steps| ==> steps[k].polyline == ""
  {
    if |steps| > 0 {
      var init := steps[..|steps| - 1];
      PolylinesEmpty(init);
      assert forall k :: 0 <= k < |init| ==> init[k] == steps[k];
    }
  }

  /** The points of all segments, one segment after the other. */
  function AllPoints(segs: seq<Segment>): seq<string>
  {
    if |segs| == 0 then [] else segs[0].points + AllPoints(segs[1..])
  }

  /** The sampler's segments are the non-empty polylines, split into points. */
  lemma {:induction false} PolylinesSegments(steps: seq<Step>)
    ensures |Segments(steps)| == |Polylines(steps)|
    ensures forall k :: 0 <= k < |Segments(steps)| ==> Segments(steps)[k].points == Split(Polylines(steps)[k])
  {
    if |steps| > 0 {
      PolylinesSegments(steps[..|steps| - 1]);
    }
  }

  lemma {:induction false} AllPointsSplitAll(segs: seq<Segment>, ps: seq<string>)
    requires |segs| == |ps|
    requires forall k :: 0 <= k < |segs| ==> segs[k].points == Split(ps[k])
    ensures AllPoints(segs) == SplitAll(ps)
  {
    if |segs| > 0 {
      AllPointsSplitAll(segs[1..], ps[1..]);
    }
  }

  /**
   * The joined polyline is empty exactly when no step has a polyline, and
   * otherwise splits back into the points of the steps, in order: the same
   * points the fallback samples from.
   */
  lemma {:induction false} FullPolylinePoints(steps: seq<Step>)
    ensures FullPolyline(steps) == "" <==> Segments(steps) == []
    ensures Segments(steps) != [] ==> Split(FullPolyline(steps)) == AllPoints(Segments(steps))
  {
    PolylinesSegments(steps);
    JoinEmpty(Polylines(steps));
    if Segments(steps) != [] {
      SplitJoinAll(Polylines(steps));
      AllPointsSplitAll(Segments(steps), Polylines(steps));
    }
  }

  // ------------------------------------------------------- cross-city ETAs

  /**
   * The ETA of the i-th of n crossed cities: the fraction (i + 1) / (n + 1)
   * of the route's duration, in whole minutes, or 0 when the duration is not
   * positive.
   */
  function CrossCityEta(i: nat, n: nat, durationS: int): (eta: int)
    ensures 0 <= eta
    ensures i < n && durationS > 0 ==> eta <= durationS / 60
    ensures durationS <= 0 ==> eta == 0
  {
    if durationS > 0 then
      MulMonotone(durationS, 0, i + 1);
      DivMonotone(0, durationS * (i + 1), (n + 1) * 60);
      if i < n then
        ScaledDivBound(durationS, i + 1, n + 1, 60);
        (durationS * (i + 1)) / ((n + 1) * 60)
      else
        (durationS * (i + 1)) / ((n + 1) * 60)
    else 0
  }

  /** A later city's ETA is not earlier. */
  lemma {:induction false} CrossCityEtaMonotone(i: nat, j: nat, n: nat, durationS: int)
    requires i <= j
    ensures CrossCityEta(i, n, durationS) <= CrossCityEta(j, n, durationS)
  {
    if durationS > 0 {
      MulMonotone(durationS, i + 1, j + 1);
      DivMonotone(durationS * (i + 1), durationS * (j + 1), (n + 1) * 60);
    }
  }

  // -------------------------------------------------- cross-city waypoints

  /**
   * The waypoint of the i-th of n crossed cities: placed at the location
   * geocoding the city's name gives, and named by its formatted address.
   * There is none when geocoding fails or gives an empty location.
   */
  function CityWaypoint(city: CrossCity, i: nat, n: nat, durationS: int, departAt: int,
                        geocode: string -> Result<GeocodeResult, ProviderError>,
                        live: string -> Option<Weather>): (w: Option<Waypoint>)
    ensures w.Some? <==> geocode(city.name).Success? && geocode(city.name).value.location != ""
    ensures w.Some? ==> w.value.location == geocode(city.name).value.location
    ensures w.Some? ==> w.value.adcode == Some(city.adcode) && w.value.weather == live(city.adcode)
    ensures w.Some? ==> w.value.name == geocode(city.name).value.formatted
    ensures w.Some? ==> w.value.etaMinutes == CrossCityEta(i, n, durationS)
    ensures w.Some? ==> w.value.etaTime == departAt + w.value.etaMinutes
  {
    match geocode(city.name)
    case Failure(_) => None
    case Success(g) =>
      if g.location == "" then None
      else
        var eta := CrossCityEta(i, n, durationS);
        Some(Waypoint(g.formatted, g.location, eta, departAt + eta, Some(city.adcode), live(city.adcode)))
  }

  /** The waypoints of the first k of the crossed cities, in city order. */
  function CrossCityWaypoints(cities: seq<CrossCity>, k: nat, durationS: int, departAt: int,
                              geocode: string -> Result<GeocodeResult, ProviderError>,
                              live: string -> Option<Weather>): (wps: seq<Waypoint>)
    requires k <= |cities|
    ensures |wps| <= k
  {
    if k == 0 then []
    else
      CrossCityWaypoints(cities, k - 1, durationS, departAt, geocode, live) +
      Emitted(CityWaypoint(cities[k - 1], k - 1, |cities|, durationS, departAt, geocode, live))
  }

  /** Every waypoint in wps is the waypoint of one of the first k cities. */
  ghost predicate FromCities(cities: seq<CrossCity>, k: nat, durationS: int, departAt: int,
                             geocode: string -> Result<GeocodeResult, ProviderError>,
                             live: string -> Option<Weather>, wps: seq<Waypoint>)
    requires k <= |cities|
  {
    forall j :: 0 <= j < |wps| ==>
      exists i :: 0 <= i < k && CityWaypoint(cities[i], i, |cities|, durationS, departAt, geocode, live) == Some(wps[j])
  }

  /** Every waypoint of waypoints comes from a city whose name geocodes to a non-empty location. */
  lemma {:induction false} CrossCityWaypointsFrom(cities: seq<CrossCity>, k: nat, durationS: int, departAt: int,
                                                  geocode: string -> Result<GeocodeResult, ProviderError>,
                                                  live: string -> Option<Weather>)
    requires k <= |cities|
    ensures FromCities(cities, k, durationS, departAt, geocode, live,
                       CrossCityWaypoints(cities, k, durationS, departAt, geocode, live))
  {
    if k > 0 {
      CrossCityWaypointsFrom(cities, k - 1, durationS, departAt, geocode, live);
      var prev := CrossCityWaypoints(cities, k - 1, durationS, departAt, geocode, live);
      var wps := CrossCityWaypoints(cities, k, durationS, departAt, geocode, live);
      assert FromCities(cities, k - 1, durationS, departAt, geocode, live, prev);
      forall j | 0 <= j < |wps|
        ensures exists i :: 0 <= i < k && CityWaypoint(cities[i], i, |cities|, durationS, departAt, geocode, live) == Some(wps[j])
      {
        if j < |prev| {
          assert wps[j] == prev[j];
          var i :| 0 <= i < k - 1 && CityWaypoint(cities[i], i, |cities|, durationS, departAt, geocode, live) == Some(prev[j]);
        } else {
          assert CityWaypoint(cities[k - 1], k - 1, |cities|, durationS, departAt, geocode, live) == Some(wps[j]);
        }
      }
    }
  }

  /** Every city among the first k whose name geocodes to a non-empty location has its waypoint in the result. */
  lemma {:induction false} CrossCityWaypointsComplete(cities: seq<CrossCity>, k: nat, durationS: int, departAt: int,
                                                      geocode: string -> Result<GeocodeResult, ProviderError>,
                                                      live: string -> Option<Weather>, i: nat)
    requires i < k <= |cities|
    requires geocode(cities[i].name).Success? && geocode(cities[i].name).value.location != ""
    ensures CityWaypoint(cities[i], i, |cities|, durationS, departAt, geocode, live).value
            in CrossCityWaypoints(cities, k, durationS, departAt, geocode, live)
  {
    var w := CityWaypoint(cities[i], i, |cities|, durationS, departAt, geocode, live);
    var prev := CrossCityWaypoints(cities, k - 1, durationS, departAt, geocode, live);
    var wps := CrossCityWaypoints(cities, k, durationS, departAt, geocode, live);
    if i < k - 1 {
      CrossCityWaypointsComplete(cities, k - 1, durationS, departAt, geocode, live, i);
      assert w.value in prev;
    } else {
      assert wps == prev + [w.value];
    }
  }

  /**
   * Along the cross-city waypoints ETAs never decrease, each lies between 0
   * and the duration in minutes, and each absolute ETA is the departure plus
   * the ETA.
   */
  lemma {:induction false} CrossCityWaypointsEtas(cities: seq<CrossCity>, k: nat, durationS: int, departAt: int,
                                                  geocode: string -> Result<GeocodeResult, ProviderError>,
                                                  live: string -> Option<Weather>)
    requires k <= |cities|
    ensures EtaSorted(CrossCityWaypoints(cities, k, durationS, departAt, geocode, live))
    ensures EtaTimesFrom(CrossCityWaypoints(cities, k, durationS, departAt, geocode, live), departAt)
    ensures EtasBetween(CrossCityWaypoints(cities, k, durationS, departAt, geocode, live),
                        if durationS > 0 then durationS / 60 else 0)
  {
    var n := |cities|;
    var wps := CrossCityWaypoints(cities, k, durationS, departAt, geocode, live);
    var bound := if durationS > 0 then durationS / 60 else 0;
    if k > 0 {
      CrossCityWaypointsEtas(cities, k - 1, durationS, departAt, geocode, live);
      CrossCityWaypointsFrom(cities, k - 1, durationS, departAt, geocode, live);
      var prev := CrossCityWaypoints(cities, k - 1, durationS, departAt, geocode, live);
      var c := CityWaypoint(cities[k - 1], k - 1, n, durationS, departAt, geocode, live);
      assert EtaSorted(prev) && EtaTimesFrom(prev, departAt) && EtasBetween(prev, bound);
      assert FromCities(cities, k - 1, durationS, departAt, geocode, live, prev);
      if c.Some? {
        assert wps == prev + [c.value];
        assert c.value.etaTime == departAt + c.value.etaMinutes;
        forall j | 0 <= j < |prev| ensures prev[j].etaMinutes <= c.value.etaMinutes {
          var i :| 0 <= i < k - 1 && CityWaypoint(cities[i], i, n, durationS, departAt, geocode, live) == Some(prev[j]);
          CrossCityEtaMonotone(i, k - 1, n, durationS);
        }
        forall a, b | 0 <= a < b < |wps| ensures wps[a].etaMinutes <= wps[b].etaMinutes {
          if b < |prev| {
            assert wps[a] == prev[a] && wps[b] == prev[b];
          } else {
            assert wps[a] == prev[a];
          }
        }
        forall j | 0 <= j < |wps| ensures wps[j].etaTime == departAt + wps[j].etaMinutes
          && 0 <= wps[j].etaMinutes <= bound
        {
          if j < |prev| {
            assert wps[j] == prev[j];
          }
        }
      } else {
        assert wps == prev;
      }
    }
  }

  /** When the crossed cities have distinct adcodes, so do their waypoints. */
  lemma {:induction false} CrossCityWaypointsDistinct(cities: seq<CrossCity>, k: nat, durationS: int, departAt: int,
                                                      geocode: string -> Result<GeocodeResult, ProviderError>,
                                                      live: string -> Option<Weather>)
    requires k <= |cities| && DistinctAdcodes(cities)
    ensures DistinctWaypointAdcodes(CrossCityWaypoints(cities, k, durationS, departAt, geocode, live))
  {
    var n := |cities|;
    var wps := CrossCityWaypoints(cities, k, durationS, departAt, geocode, live);
    if k > 0 {
      CrossCityWaypointsDistinct(cities, k - 1, durationS, departAt, geocode, live);
      CrossCityWaypointsFrom(cities, k - 1, durationS, departAt, geocode, live);
      var prev := CrossCityWaypoints(cities, k - 1, durationS, departAt, geocode, live);
      var c := CityWaypoint(cities[k - 1], k - 1, n, durationS, departAt, geocode, live);
      assert DistinctWaypointAdcodes(prev);
      assert FromCities(cities, k - 1, durationS, departAt, geocode, live, prev);
      if c.Some? {
        assert wps == prev + [c.value];
        forall j | 0 <= j < |prev| ensures prev[j].adcode != c.value.adcode {
          var i :| 0 <= i < k - 1 && CityWaypoint(cities[i], i, n, durationS, departAt, geocode, live) == Some(prev[j]);
          assert cities[i].adcode != cities[k - 1].adcode;
        }
        forall a, b | 0 <= a < b < |wps| ensures wps[a].adcode != wps[b].adcode {
          if b < |prev| {
            assert wps[a] == prev[a] && wps[b] == prev[b];
          } else {
            assert wps[a] == prev[a];
          }
        }
      } else {
        assert wps == prev;
      }
    }
  }

  /** Every ETA of wps lies in [0, bound]. */
  ghost predicate EtasBetween(wps: seq<Waypoint>, bound: int)
  {
    forall k :: 0 <= k < |wps| ==> 0 <= wps[k].etaMinutes <= bound
  }

  /** No two waypoints of wps share an adcode. */
  ghost predicate DistinctWaypointAdcodes(wps: seq<Waypoint>)
  {
    forall a, b :: 0 <= a < b < |wps| ==> wps[a].adcode != wps[b].adcode
  }

  /** No two waypoints of wps share a location. */
  ghost predicate DistinctLocations(wps: seq<Waypoint>)
  {
    forall a, b :: 0 <= a < b < |wps| ==> wps[a].location != wps[b].location
  }

  /**
   * The cross-city loop of `route_weather`: geocode each city's name, compute
   * its ETA, fetch live weather by its adcode, and add a waypoint only when
   * the geocoded location is not empty.
   */
  method AssembleCrossCity(cities: seq<CrossCity>, durationS: int, departAt: int,
                           geocode: string -> Result<GeocodeResult, ProviderError>,
                           live: string -> Option<Weather>) returns (wps: seq<Waypoint>)
    ensures wps == CrossCityWaypoints(cities, |cities|, durationS, departAt, geocode, live)
  {
    var n := |cities|;
    wps := [];
    for i := 0 to n
      invariant wps == CrossCityWaypoints(cities, i, durationS, departAt, geocode, live)
    {
      var city := cities[i];
      var loc, name;
      match geocode(city.name) {
        case Failure(_) =>
          loc, name := "", city.name;
        case Success(g) =>
          loc, name := g.location, g.formatted;
      }
      var etaMin := CrossCityEta(i, n, durationS);
      var etaTime := departAt + etaMin;
      var weather := live(city.adcode);
      if loc != "" {
        wps := wps + [Waypoint(name, loc, etaMin, etaTime, Some(city.adcode), weather)];
      }
    }
  }

  // ---------------------------------------------------- fallback waypoints

  /** The name of the idx-th sampled point when reverse geocoding gives nothing. */
  function PlaceholderName(idx: nat): (name: string)
    ensures |name| > 9 && name[..9] == "Waypoint " && IsDecimal(name[9..])
    ensures DecimalToNat(name[9..]) == idx
    ensures name[9] != '0' || name == "Waypoint 0"
  {
    var name := "Waypoint " + NatToDecimal(idx);
    assert name[9..] == NatToDecimal(idx);
    DecimalRoundTrip(idx);
    name
  }

  /** Different indices give different placeholder names. */
  lemma {:induction false} PlaceholderNamesDistinct(i: nat, j: nat)
    requires i != j
    ensures PlaceholderName(i) != PlaceholderName(j)
  {
  }


  /** The key live weather is asked for: the adcode when it is not empty, else the city when it is not empty. */
  function CityKey(r: Regeo): (key: Option<string>)
    ensures key.Some? <==> (r.adcode.Some? && r.adcode.value != "") || r.city != ""
    ensures key.Some? ==> key.value != ""
    ensures r.adcode.Some? && r.adcode.value != "" ==> key == r.adcode
    ensures key.Some? && key != r.adcode ==> key.value == r.city
  {
    match r.adcode
    case Some(a) =>
      if a != "" then Some(a) else if r.city != "" then Some(r.city) else None
    case None =>
      if r.city != "" then Some(r.city) else None
  }

  /**
   * The waypoint of the idx-th sampled point: reverse geocoding names it and
   * gives its adcode; when that gives nothing it is named by its index and
   * has no adcode and no weather.
   */
  function FallbackWaypoint(p: Sample, idx: nat, departAt: int,
                            regeo: string -> Option<Regeo>, live: string -> Option<Weather>): (w: Waypoint)
    ensures w.location == p.location && w.etaMinutes == p.etaMinutes
    ensures regeo(p.location).None? ==> w.name == PlaceholderName(idx) && w.adcode.None? && w.weather.None?
    ensures regeo(p.location).Some? ==>
      w.name == regeo(p.location).value.city && w.adcode == regeo(p.location).value.adcode
    ensures w.weather ==
      if regeo(p.location).Some? && CityKey(regeo(p.location).value).Some?
      then live(CityKey(regeo(p.location).value).value) else None
    ensures w.etaTime == departAt + p.etaMinutes
  {
    match regeo(p.location)
    case None =>
      Waypoint(PlaceholderName(idx), p.location, p.etaMinutes, departAt + p.etaMinutes, None, None)
    case Some(r) =>
      var weather := match CityKey(r) case None => None case Some(key) => live(key);
      Waypoint(r.city, p.location, p.etaMinutes, departAt + p.etaMinutes, r.adcode, weather)
  }

  /** One waypoint per sampled point, numbered from 1. */
  function FallbackWaypoints(points: seq<Sample>, departAt: int,
                             regeo: string -> Option<Regeo>, live: string -> Option<Weather>): (wps: seq<Waypoint>)
    ensures |wps| == |points|
  {
    seq(|points|, k requires 0 <= k < |points| => FallbackWaypoint(points[k], k + 1, departAt, regeo, live))
  }

  /**
   * The fallback keeps every sampled point's location and ETA, in order;
   * each absolute ETA is the departure plus the ETA; a point reverse
   * geocoding does not answer for is named by its position from 1, with no
   * adcode and no weather, and such names never repeat.
   */
  lemma {:induction false} FallbackWaypointsShape(points: seq<Sample>, departAt: int,
                                                  regeo: string -> Option<Regeo>, live: string -> Option<Weather>)
    ensures var wps := FallbackWaypoints(points, departAt, regeo, live);
      forall k :: 0 <= k < |points| ==>
        wps[k].location == points[k].location && wps[k].etaMinutes == points[k].etaMinutes
    ensures EtaTimesFrom(FallbackWaypoints(points, departAt, regeo, live), departAt)
    ensures forall k :: 0 <= k < |points| && regeo(points[k].location).None? ==>
      FallbackWaypoints(points, departAt, regeo, live)[k] ==
        Waypoint(PlaceholderName(k + 1), points[k].location, points[k].etaMinutes,
                 departAt + points[k].etaMinutes, None, None)
    ensures forall a, b ::
      (0 <= a < |points| && 0 <= b < |points| && a != b &&
       regeo(points[a].location).None? && regeo(points[b].location).None?) ==>
      FallbackWaypoints(points, departAt, regeo, live)[a].name != FallbackWaypoints(points, departAt, regeo, live)[b].name
  {
    var wps := FallbackWaypoints(points, departAt, regeo, live);
    forall a, b | 0 <= a < |points| && 0 <= b < |points| && a != b &&
      regeo(points[a].location).None? && regeo(points[b].location).None?
      ensures wps[a].name != wps[b].name
    {
      PlaceholderNamesDistinct(a + 1, b + 1);
    }
  }

  /**
   * The fallback loop of `route_weather`: reverse geocode each sampled point,
   * name it, fetch live weather when there is a key to ask by, and add one
   * waypoint per point.
   */
  method AssembleFallback(points: seq<Sample>, departAt: int,
                          regeo: string -> Option<Regeo>, live: string -> Option<Weather>) returns (wps: seq<Waypoint>)
    ensures wps == FallbackWaypoints(points, departAt, regeo, live)
  {
    wps := [];
    for k := 0 to |points|
      invariant |wps| == k
      invariant forall j :: 0 <= j < k ==> wps[j] == FallbackWaypoint(points[j], j + 1, departAt, regeo, live)
    {
      var idx := k + 1;
      var loc, etaMin := points[k].location, points[k].etaMinutes;
      var r := regeo(loc);
      var weather: Option<Weather> := None;
      var name, adcode;
      match r {
        case None =>
          name, adcode := PlaceholderName(idx), None;
        case Some(rg) =>
          name, adcode := rg.city, rg.adcode;
          match CityKey(rg) {
            case None =>
            case Some(key) =>
              weather := live(key);
          }
      }
      var etaTime := departAt + etaMin;
      wps := wps + [Waypoint(name, loc, etaMin, etaTime, adcode, weather)];
    }
  }

  // ----------------------------------------------------------- the request

  /** The waypoints of a route: one per crossed city with a location, or else one per sampled point. */
  function Waypoints(steps: seq<Step>, durationS: int, departAt: int,
                     geocode: string -> Result<GeocodeResult, ProviderError>,
                     regeo: string -> Option<Regeo>, live: string -> Option<Weather>): (wps: seq<Waypoint>)
    ensures |Extract(AllCities(steps))| > 0 ==> |wps| <= |Extract(AllCities(steps))|
    ensures |Extract(AllCities(steps))| == 0 ==> |wps| == |Pick(steps, FallbackPoints)| <= FallbackPoints
  {
    var cities := Extract(AllCities(steps));
    if |cities| > 0 then CrossCityWaypoints(cities, |cities|, durationS, departAt, geocode, live)
    else FallbackWaypoints(Pick(steps, FallbackPoints), departAt, regeo, live)
  }

  /**
   * Whichever path builds them, the waypoints' ETAs never decrease, each
   * absolute ETA is the departure plus the ETA, and no ETA is negative.
   * On the cross-city path no ETA exceeds the route's duration in minutes,
   * and their adcodes are distinct; on the fallback path no ETA exceeds the
   * steps' summed duration in minutes, and their locations are distinct.
   */
  lemma {:induction false} WaypointsProperties(steps: seq<Step>, durationS: int, departAt: int,
                                               geocode: string -> Result<GeocodeResult, ProviderError>,
                                               regeo: string -> Option<Regeo>, live: string -> Option<Weather>)
    ensures EtaSorted(Waypoints(steps, durationS, departAt, geocode, regeo, live))
    ensures EtaTimesFrom(Waypoints(steps, durationS, departAt, geocode, regeo, live), departAt)
    ensures |Extract(AllCities(steps))| > 0 ==>
      var wps := Waypoints(steps, durationS, departAt, geocode, regeo, live);
      EtasBetween(wps, if durationS > 0 then durationS / 60 else 0) &&
      DistinctWaypointAdcodes(wps)
    ensures |Extract(AllCities(steps))| == 0 ==>
      var wps := Waypoints(steps, durationS, departAt, geocode, regeo, live);
      EtasBetween(wps, TotalDuration(steps) / 60) && DistinctLocations(wps)
  {
    var cities := Extract(AllCities(steps));
    var wps := Waypoints(steps, durationS, departAt, geocode, regeo, live);
    if |cities| > 0 {
      CrossCityWaypointsEtas(cities, |cities|, durationS, departAt, geocode, live);
      CrossCityWaypointsDistinct(cities, |cities|, durationS, departAt, geocode, live);
    } else {
      var points := Pick(steps, FallbackPoints);
      PickEtas(steps, FallbackPoints);
      FallbackWaypointsShape(points, departAt, regeo, live);
      assert EtasSorted(points) && EtasWithin(points, TotalDuration(steps) / 60);
      assert DistinctKeys(points, Location);
      forall a, b | 0 <= a < b < |wps| ensures wps[a].location != wps[b].location {
        assert Location(points[a]) != Location(points[b]);
      }
      forall a, b | 0 <= a < b < |wps| ensures wps[a].etaMinutes <= wps[b].etaMinutes {
        assert points[a].etaMinutes <= points[b].etaMinutes;
      }
    }
  }

  /**
   * `route_weather` on the providers' answers: geocode the origin, then the
   * destination, then map the strategy, then ask for the route, failing at
   * the first of these that fails; otherwise answer with both ends, the first
   * path's distance and duration, the joined polyline and the waypoints.
   */
  function Respond(originAddress: string, destinationAddress: string, strategy: string, departAt: int,
                   geocode: string -> Result<GeocodeResult, ProviderError>,
                   route: (string, string, string) -> Result<RoutePath, ProviderError>,
                   regeo: string -> Option<Regeo>, live: string -> Option<Weather>)
    : (r: Result<RouteResponse, RequestError>)
    ensures geocode(originAddress).Failure? ==> r == Failure(ProviderFailed(geocode(originAddress).error))
    ensures (geocode(originAddress).Success? && geocode(destinationAddress).Failure?) ==>
      r == Failure(ProviderFailed(geocode(destinationAddress).error))
    ensures (geocode(originAddress).Success? && geocode(destinationAddress).Success? &&
             StrategyToAmap(strategy).Failure?) ==>
      r == Failure(StrategyFailed(UnknownStrategy(strategy)))
    ensures (geocode(originAddress).Success? && geocode(destinationAddress).Success? &&
             StrategyToAmap(strategy).Success? &&
             route(geocode(originAddress).value.location, geocode(destinationAddress).value.location,
                   StrategyToAmap(strategy).value).Failure?) ==>
      r == Failure(ProviderFailed(route(geocode(originAddress).value.location,
                                        geocode(destinationAddress).value.location,
                                        StrategyToAmap(strategy).value).error))
    ensures r.Success? <==>
      geocode(originAddress).Success? && geocode(destinationAddress).Success? &&
      StrategyToAmap(strategy).Success? &&
      route(geocode(originAddress).value.location, geocode(destinationAddress).value.location,
            StrategyToAmap(strategy).value).Success?
    ensures r.Success? ==>
      r.value.origin == geocode(originAddress).value && r.value.destination == geocode(destinationAddress).value
  {
    match geocode(originAddress)
    case Failure(e) => Failure(ProviderFailed(e))
    case Success(origin) =>
      match geocode(destinationAddress)
      case Failure(e) => Failure(ProviderFailed(e))
      case Success(dest) =>
        match StrategyToAmap(strategy)
        case Failure(e) => Failure(StrategyFailed(e))
        case Success(code) =>
          match route(origin.location, dest.location, code)
          case Failure(e) => Failure(ProviderFailed(e))
          case Success(path) =>
            Success(RouteResponse(origin, dest, path.distance, path.duration, FullPolyline(path.steps),
                                  Waypoints(path.steps, path.duration, departAt, geocode, regeo, live)))
  }

  /**
   * A successful response carries the first path's distance and duration, a
   * polyline that splits back into the points of its steps, and the route's
   * waypoints: their ETAs never decrease and count from the departure; on the
   * cross-city path at most one per crossed city, with distinct adcodes and
   * ETAs within the duration; on the fallback path one per sampled point, at
   * most twelve, with distinct locations and ETAs within the summed step
   * duration.
   */
  lemma {:induction false} RespondSuccess(originAddress: string, destinationAddress: string, strategy: string, departAt: int,
                                          geocode: string -> Result<GeocodeResult, ProviderError>,
                                          route: (string, string, string) -> Result<RoutePath, ProviderError>,
                                          regeo: string -> Option<Regeo>, live: string -> Option<Weather>)
    requires Respond(originAddress, destinationAddress, strategy, departAt, geocode, route, regeo, live).Success?
    ensures var resp := Respond(originAddress, destinationAddress, strategy, departAt, geocode, route, regeo, live).value;
      var path := route(geocode(originAddress).value.location, geocode(destinationAddress).value.location,
                        StrategyToAmap(strategy).value).value;
      resp.distanceM == path.distance && resp.durationS == path.duration &&
      (resp.polyline == "" <==> Segments(path.steps) == []) &&
      (Segments(path.steps) != [] ==> Split(resp.polyline) == AllPoints(Segments(path.steps))) &&
      resp.waypoints == Waypoints(path.steps, path.duration, departAt, geocode, regeo, live) &&
      EtaSorted(resp.waypoints) && EtaTimesFrom(resp.waypoints, departAt)
    ensures var resp := Respond(originAddress, destinationAddress, strategy, departAt, geocode, route, regeo, live).value;
      var path := route(geocode(originAddress).value.location, geocode(destinationAddress).value.location,
                        StrategyToAmap(strategy).value).value;
      var cities := Extract(AllCities(path.steps));
      (|cities| > 0 ==>
         |resp.waypoints| <= |cities| && DistinctWaypointAdcodes(resp.waypoints) &&
         EtasBetween(resp.waypoints, if path.duration > 0 then path.duration / 60 else 0)) &&
      (|cities| == 0 ==>
         |resp.waypoints| == |Pick(path.steps, FallbackPoints)| <= FallbackPoints &&
         DistinctLocations(resp.waypoints) && EtasBetween(resp.waypoints, TotalDuration(path.steps) / 60))
  {
    var path := route(geocode(originAddress).value.location, geocode(destinationAddress).value.location,
                      StrategyToAmap(strategy).value).value;
    FullPolylinePoints(path.steps);
    WaypointsProperties(path.steps, path.duration, departAt, geocode, regeo, live);
  }

  /**
   * `route_weather`: the same steps as Respond, with the waypoint loops run
   * by the methods that model them.
   */
  method RouteWeather(originAddress: string, destinationAddress: string, strategy: string, departAt: int,
                      geocode: string -> Result<GeocodeResult, ProviderError>,
                      route: (string, string, string) -> Result<RoutePath, ProviderError>,
                      regeo: string -> Option<Regeo>, live: string -> Option<Weather>)
    returns (r: Result<RouteResponse, RequestError>)
    ensures r == Respond(originAddress, destinationAddress, strategy, departAt, geocode, route, regeo, live)
  {
    var origin := geocode(originAddress);
    if origin.Failure? {
      return Failure(ProviderFailed(origin.error));
    }
    var dest := geocode(destinationAddress);
    if dest.Failure? {
      return Failure(ProviderFailed(dest.error));
    }
    var code := StrategyToAmap(strategy);
    if code.Failure? {
      return Failure(StrategyFailed(code.error));
    }
    var answer := route(origin.value.location, dest.value.location, code.value);
    if answer.Failure? {
      return Failure(ProviderFailed(answer.error));
    }
    var path := answer.value;
    var polyline := FullPolyline(path.steps);
    var cities := ExtractCrossCities(path.steps);
    var waypoints;
    if |cities| > 0 {
      waypoints := AssembleCrossCity(cities, path.duration, departAt, geocode, live);
    } else {
      var points := PickWaypointPoints(path.steps, FallbackPoints);
      waypoints := AssembleFallback(points, departAt, regeo, live);
    }
    r := Success(RouteResponse(origin.value, dest.value, path.distance, path.duration, polyline, waypoints));
  }
}
