# Route weather: a Dafny model of the route and waypoint logic

The backend takes an origin, a destination, a driving strategy and an
optional departure time, and asks a map provider for a driving route. Its
answer holds the route's joined polyline and a list of waypoints. Each
waypoint has a name, a location, an ETA in minutes and as an absolute time,
an adcode (administrative area code) and the live weather there.

Waypoints come from one of two paths:

- **Cross-city path.** The route's steps name the cities they pass through.
  Each distinct city, keyed by adcode, becomes a waypoint when geocoding
  its name gives a non-empty location, and is placed there. A city whose
  geocode fails or gives an empty location has no waypoint. Its ETA is an
  even share of the route's duration.
- **Fallback path.** When no city entry of any step has a non-empty adcode
  (so the cross-city extraction yields nothing), up to twelve points are
  sampled along the polyline at evenly spaced elapsed times and reverse
  geocoded. A point reverse geocoding gives nothing for is named
  "Waypoint *k*".

The model covers these parts, one Dafny module each:

- `Strategy`: the strategy-name lookup.
- `Provider`: the status and payload checks on each provider answer.
- `CrossCities`: the city-extraction loops.
- `Sampling`: the sampling algorithm, with its three loops.
- `Assembly`: the assembly of the response (polyline join, cross-city ETAs,
  both waypoint loops, and the request as a whole).

Shared pieces:

- `Dedup`: the "keep the first element per key" loop, which appears twice.
- `Text`: splitting and joining on `;`, and decimal rendering of an index.
- `Arith`: floor-division facts.
- `RouteData` and `Common`: the records.

The source's loops are written as Dafny methods with loop invariants. Each
method is proved equal to a specification function. The properties are
lemmas about those functions.

Conventions:

- A step, city or answer is a datatype.
- A key that is missing, `None` or empty is the empty string wherever the
  code treats the three alike (it tests `not ad`, `nm or ad`, `if poly`).
- The reverse-geocode adcode is an `Option`, because `None` reaches the
  response.
- Times are whole seconds. ETAs and the departure are whole minutes.
- Each provider is a function parameter: `geocode` (address to result or
  error), `route` (origin, destination and strategy code to first path or
  error), `regeo` (location to optional city) and `live` (adcode or city to
  optional weather record). These stand for the answer checks of the
  `Provider` module applied to the decoded provider payloads:
  `GeocodeAnswer`, `RouteAnswer`, `RegeoAnswer` and `LiveAnswer`. The
  assembly accepts any such functions, so its properties hold whatever the
  providers answer.

Points of the code a reader might not expect, which the model follows:

- `total` sums the durations of all steps, including steps without a
  polyline (`backend/app/main.py:166-172`), not only those that give a
  segment.
- A target time whose covering segment has a non-positive duration is
  consumed without a sample: `continue` moves to the next target time
  (`backend/app/main.py:190-191`), so that segment is not skipped in favour
  of a later one.
- The request model restricts the strategy to the four known names
  (`backend/app/main.py:26`), so an unknown strategy is refused before the
  lookup runs. The model still carries the lookup's failure.

## Model

| member | source | states |
|---|---|---|
| `Strategy.StrategyToAmap` | backend/app/main.py:77-85 | each of the four names maps to its code ("0" to "3") and only that name does; any other name fails with that name as the error |
| `Provider.GeocodeAnswer` | backend/app/main.py:71-74 | succeeds exactly when the status is "1" and there is a candidate; location from the first candidate; name is its formatted address, or the queried address when that is empty; failure names the address |
| `Provider.RouteAnswer` | backend/app/main.py:103-104 | succeeds exactly when the status is "1" and there is a path; the first path is returned |
| `Provider.LiveAnswer` | backend/app/main.py:135-137 | a reading exactly when the status is "1" and there is one; the first reading |
| `Provider.RegeoAnswer` | backend/app/main.py:148-153 | a result exactly when the status is "1"; adcode passed through; city is the component's city, or its province when the city is empty |
| `CrossCities.ExtractCrossCities` | backend/app/main.py:108-124 | the nested loops with the `seen` set compute the first entry of each non-empty adcode, in order, named by city or by adcode |
| `CrossCities.AllCities` | backend/app/main.py:116-117 | the entries the nested iteration visits: every entry of every step, and nothing else |
| `CrossCities.DisplayName` | backend/app/main.py:123 | a cross city is named by its city, or by its adcode when the city is empty; the name is empty only when both are |
| `CrossCities.ToCrossCities` | backend/app/main.py:123 | one cross city per kept entry, in order, each with that entry's adcode and display name |
| `CrossCities.AddStepCities` | backend/app/main.py:116-124 | after the inner loop over one step's cities, the output is the cross cities of all entries so far and `seen` is exactly their non-empty adcodes |
| `CrossCities.ExtractStep` | backend/app/main.py:119-124 | one entry is skipped when its adcode is empty or already seen, and otherwise appended with its adcode added to `seen` |
| `CrossCities.Extract` | backend/app/main.py:108-124 | at most one cross city per entry; the cross cities' adcodes are pairwise distinct and none is empty |
| `CrossCities.ExtractAdcodes` | backend/app/main.py:114-124 | the set of output adcodes is exactly the set of non-empty input adcodes |
| `CrossCities.ExtractExactlyOnce` | backend/app/main.py:114-124 | every non-empty input adcode appears in the output exactly once |
| `CrossCities.ExtractFirstSeen` | backend/app/main.py:119-123 | each output city is named by its adcode's first entry (its city, or the adcode when the city is empty); outputs are in the order of first appearance |
| `CrossCities.ExtractExample` | backend/app/main.py:114-124 | entries A, B, A, C with distinct non-empty adcodes give A, B, C |
| `Dedup.KeepFirstOccurrences` | backend/app/main.py:199-205 | each kept element is the first admitted element with its key, and kept elements follow the order of those first occurrences |
| `Dedup.KeepFirstDistinct` | backend/app/main.py:199-205 | no two kept elements share a key |
| `Dedup.KeepFirstKeys` | backend/app/main.py:119-122 | the kept keys are exactly the keys of the admitted elements |
| `Dedup.KeepFirst` | backend/app/main.py:199-205 | no more elements are kept than given, and every kept element is admitted |
| `Text.Split` | backend/app/main.py:170 | splitting gives at least one part and no part holds the separator |
| `Text.JoinSplit` | backend/app/main.py:225 | joining the parts of a split gives back the string |
| `Text.Join` | backend/app/main.py:225 | the joined string starts with the first part, and with two or more parts a separator follows it |
| `Text.SplitJoinAll` | backend/app/main.py:225 | splitting a join of strings gives the concatenated splits of the strings |
| `Sampling.Segments` | backend/app/main.py:164-172 | exactly one segment per step with a non-empty polyline, in step order, holding that polyline's points split on `;` and that step's duration; each segment has at least one point |
| `Sampling.StepsWithPolyline` | backend/app/main.py:168-171 | the steps kept for segments are steps of the route, at most as many; each has a non-empty polyline, and every step with a non-empty polyline is kept |
| `Sampling.StepsWithPolylinePrefix` | backend/app/main.py:165-171 | the kept steps of any prefix of the route are a prefix of the kept steps of the whole route, so the filter keeps step order |
| `Sampling.TotalDuration` | backend/app/main.py:165-167 | the sum of all step durations, never negative when no step duration is |
| `Sampling.BuildSegments` | backend/app/main.py:164-172 | the first loop yields exactly those segments and the sum of all step durations |
| `Sampling.TargetTimesSorted` | backend/app/main.py:178 | for a non-negative total the target times never decrease |
| `Sampling.TargetMonotone` | backend/app/main.py:178 | a later target index gives a target that is not earlier |
| `Sampling.Target` | backend/app/main.py:178 | for a non-negative total, the i-th target time lies between 0 and the total |
| `Sampling.TargetTimes` | backend/app/main.py:178 | one target time per point wanted, none when max_points is not positive; for a non-negative total all lie in [0, total] |
| `Sampling.Cover` | backend/app/main.py:184-186 | the first segment whose end time is at or after the target: all earlier ones end before it; no segment at all if every segment ends before it |
| `Sampling.SkipEnded` | backend/app/main.py:184-186 | the inner cursor loop stops exactly at the covering segment, never moves back, and the point at the target's position there is the target's sample |
| `Sampling.PointIndex` | backend/app/main.py:192-193 | the interpolated index is in range; clamped to the first point at or before the segment start and to the last at or after its end |
| `Sampling.SampleAt` | backend/app/main.py:184-196 | a sample exists only if a covering segment with positive duration exists; its location is a point of that segment; its ETA is the target's whole minutes |
| `Sampling.CursorSample` | backend/app/main.py:184-194 | where the cursor stops after the inner loop is the covering segment, and the point taken there is the sample of the target |
| `Sampling.RawSamplesPastEnd` | backend/app/main.py:187-188 | once a target lies past the last segment no later target yields a sample, so breaking out loses nothing |
| `Sampling.SampleTargets` | backend/app/main.py:180-196 | the cursor loop, with its `break` and `continue`, computes the samples of all target times in order |
| `Sampling.DedupByLocation` | backend/app/main.py:199-205 | the last loop keeps exactly the first sample at each location, in order |
| `Sampling.PickWaypointPoints` | backend/app/main.py:156-206 | the whole function returns exactly `Sampling.Pick` of the steps and max_points |
| `Sampling.RawSamples` | backend/app/main.py:180-196 | the samples the cursor loop collects for the first n target times: at most one per target time |
| `Sampling.RawSamplesFromTargets` | backend/app/main.py:183-196 | every sample is the sample of one of the target times |
| `Sampling.RawSamplesEtasWithin` | backend/app/main.py:195 | no sample's ETA exceeds the last target's whole minutes, and none is negative |
| `Sampling.RawSamplesEtasSorted` | backend/app/main.py:178-196 | sample ETAs never decrease |
| `Sampling.PickEmpty` | backend/app/main.py:174-175 | nothing is picked when the summed duration is not positive or no step has a polyline |
| `Sampling.Pick` | backend/app/main.py:156-206 | at most max_points points are picked, and their locations are pairwise distinct |
| `Sampling.PickFromSegments` | backend/app/main.py:183-196 | every picked point is the sample of a target time: a point of the covering segment, with that target's minutes as ETA |
| `Sampling.PickEtas` | backend/app/main.py:178-205 | picked ETAs never decrease and each lies between 0 and the summed duration in minutes |
| `Sampling.DedupEtas` | backend/app/main.py:199-205 | dropping repeated locations keeps ETAs sorted and within their bound |
| `Sampling.PickExample` | backend/app/main.py:164-206 | steps of 60 s and 120 s with one point wanted: the target 90 s lies a quarter into the second segment, so its second point is picked at minute 1 |
| `Assembly.Polylines` | backend/app/main.py:225 | only non-empty step polylines are joined |
| `Assembly.FullPolyline` | backend/app/main.py:225 | the joined polyline is empty exactly when no step has a polyline |
| `Assembly.PolylinesSegments` | backend/app/main.py:225 | the joined polylines are the sampler's segments before splitting, one for one |
| `Assembly.FullPolylinePoints` | backend/app/main.py:225 | the joined polyline is empty exactly when no step has a polyline, and otherwise splits into the points of all segments in order |
| `Assembly.CrossCityEta` | backend/app/main.py:250 | the ETA of the i-th of n crossed cities is never negative, at most the duration in whole minutes, and 0 when the duration is not positive |
| `Assembly.CrossCityEtaMonotone` | backend/app/main.py:250 | a later city's ETA is not earlier |
| `Assembly.CityWaypoint` | backend/app/main.py:242-264 | a city has a waypoint exactly when geocoding its name succeeds with a non-empty location; it is named by the geocoded formatted address and sits at that location, with the city's adcode, its live weather, the city's ETA and the departure plus that ETA as absolute time |
| `Assembly.CrossCityWaypointsFrom` | backend/app/main.py:254-264 | every cross-city waypoint is the waypoint of one of the cities |
| `Assembly.CrossCityWaypointsComplete` | backend/app/main.py:254-264 | every city whose name geocodes to a non-empty location has its waypoint among the results |
| `Assembly.CrossCityWaypointsEtas` | backend/app/main.py:239-264 | cross-city ETAs never decrease, lie in [0, duration in minutes], and each absolute ETA is the departure plus the ETA |
| `Assembly.CrossCityWaypointsDistinct` | backend/app/main.py:239-264 | cities with distinct adcodes give waypoints with distinct adcodes |
| `Assembly.CrossCityWaypoints` | backend/app/main.py:239-264 | at most one waypoint per city |
| `Assembly.AssembleCrossCity` | backend/app/main.py:239-264 | the cross-city loop computes exactly that list of waypoints |
| `Assembly.PlaceholderNamesDistinct` | backend/app/main.py:271 | different indices give different "Waypoint k" names |
| `Assembly.PlaceholderName` | backend/app/main.py:271 | the name is "Waypoint " followed by a decimal numeral without a leading zero that reads back as the index |
| `Text.NatToDecimalInjective` | backend/app/main.py:271 | different indices render as different decimal strings |
| `Text.NatToDecimal` | backend/app/main.py:271 | the index is written in decimal digits, with no leading zero except for 0 itself |
| `Assembly.CityKey` | backend/app/main.py:273-275 | weather is asked for exactly when the adcode or the city is non-empty; the key is the adcode when it is non-empty, and the city otherwise |
| `Assembly.FallbackWaypoint` | backend/app/main.py:268-287 | a fallback waypoint keeps its point's location and ETA, with the departure plus that ETA as absolute time; without a reverse-geocode answer it is "Waypoint k" with no adcode or weather; otherwise it takes the answer's city and adcode, and its weather is the live answer for the city key when there is a key and none otherwise |
| `Assembly.FallbackWaypoints` | backend/app/main.py:268-287 | exactly one waypoint per sampled point |
| `Assembly.FallbackWaypointsShape` | backend/app/main.py:268-287 | locations and ETAs match the points in order; absolute ETA is departure plus ETA; a point without a reverse-geocode answer is "Waypoint k" (k counted from 1) with no adcode or weather; such names never repeat |
| `Assembly.AssembleFallback` | backend/app/main.py:266-287 | the fallback loop computes exactly those waypoints |
| `Assembly.WaypointsProperties` | backend/app/main.py:233-287 | on both paths ETAs never decrease and absolute ETAs count from the departure. Cross-city path: ETAs within the duration, distinct adcodes. Fallback path: ETAs within the summed step duration, distinct locations |
| `Assembly.Waypoints` | backend/app/main.py:231-287 | on the cross-city path at most one waypoint per crossed city; on the fallback path exactly one per sampled point, so at most twelve |
| `Assembly.Respond` | backend/app/main.py:209-296 | the first failing step decides the error: origin geocode, destination geocode, strategy lookup, then route, each failure carried as it is; it succeeds exactly when all four succeed, answering with both geocoded ends |
| `Assembly.RespondSuccess` | backend/app/main.py:219-296 | a response carries the first path's distance and duration; its polyline is empty exactly when no step has one and otherwise splits into the steps' points; its waypoints are exactly `Assembly.Waypoints` of the path's steps, with ETAs that never decrease and count from the departure; cross-city: at most one per city, distinct adcodes, ETAs within the duration; fallback: one per sampled point, at most twelve, distinct locations, ETAs within the summed step duration |
| `Assembly.RouteWeather` | backend/app/main.py:209-296 | the handler, run with the loop methods, answers exactly as `Assembly.Respond` |

## Left out

- HTTP requests, response decoding and the FastAPI wiring (CORS, pydantic
  models, environment variables) are not modelled. Each provider is a
  function parameter, and each answer check is a function on the decoded
  status and payload.
- An exception the transport raises inside `amap_weather_live` or
  `amap_regeo_citycode` is not caught and would abort the request. It is
  not modelled: `live` and `regeo` always answer. A failed city geocode is
  caught by the code, and the model treats it, like any geocode error, as a
  `Failure`.
- `datetime.now` and time zones are left out. The departure is a parameter
  counting whole minutes, so `depart_at + timedelta(minutes=m)` is an
  integer addition.
- Floating point: `int(float(...))` on durations, the `frac` interpolation,
  `int(tt / 60)` and the cross-city ETA are exact floor divisions on
  integers. Rounding at IEEE boundaries is not reproduced.
- Assembly.FallbackWaypoint: when reverse geocoding answers with neither a
  city nor a province, the code gives the waypoint the name `None`, which
  the response model would refuse. The model uses the empty string, because
  a missing city is the empty string throughout.
- A provider field holding an empty list where a string is expected (a city
  given as `[]`) is treated as the empty string.
- The async structure is not modelled. The handler runs its awaits strictly
  in sequence.
