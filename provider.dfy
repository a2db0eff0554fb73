/**
 * The checks the provider client makes on each answer before handing its
 * payload on. The HTTP exchange itself is not modelled: each function takes
 * the decoded status field and payload of one answer.
 */
module Provider {
  import opened Common
  import opened RouteData

  datatype ProviderError = GeocodeFailed(address: string) | RouteFailed

  /** One element of a geocode answer's `geocodes` array. */
  datatype GeocodeCandidate = GeocodeCandidate(formattedAddress: string, location: string)

  /** What `amap_geocode` returns: a display name and a "lon,lat" location. */
  datatype GeocodeResult = GeocodeResult(formatted: string, location: string)

  /** The `addressComponent` of a reverse-geocode answer. */
  datatype AddressComponent = AddressComponent(adcode: Option<string>, city: string, province: string)

  /** What `amap_regeo_citycode` returns. */
  datatype Regeo = Regeo(adcode: Option<string>, city: string)

  /** The first path of a route answer. */
  datatype RoutePath = RoutePath(distance: int, duration: int, steps: seq<Step>)

  /**
   * A geocode answer succeeds exactly when its status is "1" and it has a
   * candidate; the first candidate gives the location, and its formatted
   * address, or the queried address when that is empty, gives the name.
   */
  function GeocodeAnswer(address: string, status: string, geocodes: seq<GeocodeCandidate>)
    : (r: Result<GeocodeResult, ProviderError>)
    ensures r.Success? <==> status == "1" && |geocodes| > 0
    ensures r.Failure? ==> r.error == GeocodeFailed(address)
    ensures r.Success? ==> r.value.location == geocodes[0].location
    ensures r.Success? && geocodes[0].formattedAddress != "" ==>
      r.value.formatted == geocodes[0].formattedAddress
    ensures r.Success? && geocodes[0].formattedAddress == "" ==> r.value.formatted == address
  {
    if status != "1" || |geocodes| == 0 then Failure(GeocodeFailed(address))
    else
      var g := geocodes[0];
      Success(GeocodeResult(if g.formattedAddress != "" then g.formattedAddress else address, g.location))
  }

  /** A route answer succeeds exactly when its status is "1" and it has a path; the first path is used. */
  function RouteAnswer(status: string, paths: seq<RoutePath>): (r: Result<RoutePath, ProviderError>)
    ensures r.Success? <==> status == "1" && |paths| > 0
    ensures r.Success? ==> r.value == paths[0]
    ensures r.Failure? ==> r.error == RouteFailed
  {
    if status != "1" || |paths| == 0 then Failure(RouteFailed) else Success(paths[0])
  }

  /** A live-weather answer gives its first reading when its status is "1" and it has one, and nothing otherwise. */
  function LiveAnswer(status: string, lives: seq<Weather>): (r: Option<Weather>)
    ensures r.Some? <==> status == "1" && |lives| > 0
    ensures r.Some? ==> r.value == lives[0]
  {
    if status != "1" || |lives| == 0 then None else Some(lives[0])
  }

  /**
   * A reverse-geocode answer gives a result exactly when its status is "1";
   * the city is the component's city, or its province when the city is empty.
   */
  function RegeoAnswer(status: string, comp: AddressComponent): (r: Option<Regeo>)
    ensures r.Some? <==> status == "1"
    ensures r.Some? ==> r.value.adcode == comp.adcode
    ensures r.Some? && comp.city != "" ==> r.value.city == comp.city
    ensures r.Some? && comp.city == "" ==> r.value.city == comp.province
  {
    if status != "1" then None
    else Some(Regeo(comp.adcode, if comp.city != "" then comp.city else comp.province))
  }
}
