/**
 * The geolocation DTO of src/dto/geolocalizationResponse.js: the API payload
 * with `||` defaults, the getters that fall back to the "not available"
 * constants, and the usability test the city service relies on.
 */
module GeolocationResponse {
  import opened JsValues

  const CityNotAvailable := "Ciudad no disponible"
  const CountryNotAvailable := "País no disponible"
  const TimezoneNotAvailable := "Zona horaria no disponible"

  /** The four fields the constructor keeps. */
  datatype GeoResponse = GeoResponse(ip: Value, isp: Value, location: Value, risk: Value)

  /** `{ city, country, timezone, connectionTime, coordinates }` as `getLocationData` builds it. */
  datatype LocationData = LocationData(city: Value, country: Value, timezone: Value, connectionTime: Value, coordinates: Value)

  /**
   * `new GeolocalizationResponse(data)`, which is all `fromApiResponse` does:
   * each field of the payload, or '' / {} when it is falsy or missing.
   */
  function FromApiResponse(data: Value): (r: GeoResponse)
    ensures Truthy(Get(data, "ip")) ==> r.ip == Get(data, "ip")
    ensures !Truthy(Get(data, "ip")) ==> r.ip == Str("")
    ensures Truthy(Get(data, "location")) ==> r.location == Get(data, "location")
    ensures !Truthy(Get(data, "location")) ==> r.location == Obj(map[])
    ensures Truthy(Get(data, "isp")) ==> r.isp == Get(data, "isp")
    ensures !Truthy(Get(data, "isp")) ==> r.isp == Obj(map[])
    ensures Truthy(Get(data, "risk")) ==> r.risk == Get(data, "risk")
    ensures !Truthy(Get(data, "risk")) ==> r.risk == Obj(map[])
    ensures Truthy(r.isp) && Truthy(r.location) && Truthy(r.risk)
  {
    GeoResponse(
      Or(Get(data, "ip"), Str("")),
      Or(Get(data, "isp"), Obj(map[])),
      Or(Get(data, "location"), Obj(map[])),
      Or(Get(data, "risk"), Obj(map[])))
  }

  /** `getCity`: the location's city when truthy, else the not-available constant. */
  function GetCity(r: GeoResponse): (city: Value)
    ensures Truthy(city)
    ensures Truthy(Get(r.location, "city")) ==> city == Get(r.location, "city")
    ensures !Truthy(Get(r.location, "city")) ==> city == Str(CityNotAvailable)
  {
    Or(Get(r.location, "city"), Str(CityNotAvailable))
  }

  function GetCountry(r: GeoResponse): (country: Value)
    ensures Truthy(country)
    ensures Truthy(Get(r.location, "country")) ==> country == Get(r.location, "country")
    ensures !Truthy(Get(r.location, "country")) ==> country == Str(CountryNotAvailable)
  {
    Or(Get(r.location, "country"), Str(CountryNotAvailable))
  }

  function GetTimezone(r: GeoResponse): (timezone: Value)
    ensures Truthy(timezone)
    ensures Truthy(Get(r.location, "timezone")) ==> timezone == Get(r.location, "timezone")
    ensures !Truthy(Get(r.location, "timezone")) ==> timezone == Str(TimezoneNotAvailable)
  {
    Or(Get(r.location, "timezone"), Str(TimezoneNotAvailable))
  }

  /** `getConnectionTime`: the location's local time, else the current instant `now`. */
  function GetConnectionTime(r: GeoResponse, now: string): (time: Value)
    ensures Truthy(Get(r.location, "localtime")) ==> time == Get(r.location, "localtime")
    ensures !Truthy(Get(r.location, "localtime")) ==> time == Str(now)
  {
    Or(Get(r.location, "localtime"), Str(now))
  }

  /** `{ latitude, longitude }` */
  function Coordinates(latitude: Value, longitude: Value): Value {
    Obj(map["latitude" := latitude, "longitude" := longitude])
  }

  /** `getCoordinates`: each coordinate defaults to 0 on its own. */
  function GetCoordinates(r: GeoResponse): (c: Value)
    ensures Get(c, "latitude") == if Truthy(Get(r.location, "latitude")) then Get(r.location, "latitude") else Num(0.0)
    ensures Get(c, "longitude") == if Truthy(Get(r.location, "longitude")) then Get(r.location, "longitude") else Num(0.0)
  {
    Coordinates(Or(Get(r.location, "latitude"), Num(0.0)), Or(Get(r.location, "longitude"), Num(0.0)))
  }

  /**
   * `isValid`: an ip and a location with at least one key. `Object.keys`
   * of a truthy value has keys only for an object or a string.
   */
  predicate IsValid(r: GeoResponse)
    ensures IsValid(r) ==>
      && Truthy(r.ip)
      && ((r.location.Obj? && r.location.fields != map[]) || (r.location.Str? && r.location.s != []))
  {
    Truthy(r.ip) && Truthy(r.location) && KeyCount(r.location) > 0
  }

  /** `getLocationData`: the five getters together; the three names are never falsy. */
  function GetLocationData(r: GeoResponse, now: string): (d: LocationData)
    ensures Truthy(d.city) && Truthy(d.country) && Truthy(d.timezone)
    ensures d.connectionTime == Get(r.location, "localtime") || d.connectionTime == Str(now)
    ensures Truthy(Get(d.coordinates, "latitude")) <==> Truthy(Get(r.location, "latitude"))
    ensures Truthy(Get(d.coordinates, "longitude")) <==> Truthy(Get(r.location, "longitude"))
  {
    LocationData(GetCity(r), GetCountry(r), GetTimezone(r), GetConnectionTime(r, now), GetCoordinates(r))
  }

  /**
   * `toJSON`: the four fields under their own names, so the constructor
   * rebuilds every DTO it can have built from it.
   */
  function ToJSON(r: GeoResponse): (json: Value)
    ensures (Truthy(r.ip) || r.ip == Str("")) && Truthy(r.isp) && Truthy(r.location) && Truthy(r.risk)
            ==> FromApiResponse(json) == r
  {
    Obj(map["ip" := r.ip, "isp" := r.isp, "location" := r.location, "risk" := r.risk])
  }

  /** `isUsingProxy`: the first truthy one of `is_vpn`, `is_proxy`, `is_tor`, else the last of them. */
  function IsUsingProxy(r: GeoResponse): (v: Value)
    ensures v == Get(r.risk, "is_vpn") || v == Get(r.risk, "is_proxy") || v == Get(r.risk, "is_tor")
  {
    Or(Or(Get(r.risk, "is_vpn"), Get(r.risk, "is_proxy")), Get(r.risk, "is_tor"))
  }

  /** `isFromDatacenter` */
  function IsFromDatacenter(r: GeoResponse): (v: Value)
    ensures Truthy(v) <==> Truthy(Get(r.risk, "is_datacenter"))
  {
    Or(Get(r.risk, "is_datacenter"), Bool(false))
  }

  /** A payload is usable exactly when it has a truthy ip and a non-empty location. */
  lemma IsValidFromPayload(data: Value)
    ensures IsValid(FromApiResponse(data))
            <==> Truthy(Get(data, "ip")) && Truthy(Get(data, "location")) && KeyCount(Get(data, "location")) > 0
  {
  }

  /** A missing or null payload gives a DTO that is not usable. */
  lemma NoPayloadIsInvalid()
    ensures !IsValid(FromApiResponse(Undefined))
    ensures !IsValid(FromApiResponse(Null))
  {
    var empty: map<string, Value> := map[];
    assert |empty| == 0;
  }

  /** `toJSON` loses nothing: rebuilding a DTO from its own JSON gives the same DTO. */
  lemma ToJSONRoundTrip(data: Value)
    ensures FromApiResponse(ToJSON(FromApiResponse(data))) == FromApiResponse(data)
  {
  }

  /** Proxy use is reported exactly when one of the three flags is set. */
  lemma IsUsingProxyIff(r: GeoResponse)
    ensures Truthy(IsUsingProxy(r))
            <==> Truthy(Get(r.risk, "is_vpn")) || Truthy(Get(r.risk, "is_proxy")) || Truthy(Get(r.risk, "is_tor"))
  {
  }

  /** With no risk information every flag is absent: neither a proxy nor a datacenter. */
  lemma NoRiskNoFlags(data: Value)
    requires !Truthy(Get(data, "risk"))
    ensures !Truthy(IsUsingProxy(FromApiResponse(data)))
    ensures IsFromDatacenter(FromApiResponse(data)) == Bool(false)
  {
  }

  /** A location with every field set is passed through unchanged. */
  lemma FullLocationKept(r: GeoResponse, now: string)
    requires var l := r.location;
      && Truthy(Get(l, "city")) && Truthy(Get(l, "country")) && Truthy(Get(l, "timezone"))
      && Truthy(Get(l, "localtime")) && Truthy(Get(l, "latitude")) && Truthy(Get(l, "longitude"))
    ensures var l := r.location;
      GetLocationData(r, now)
      == LocationData(Get(l, "city"), Get(l, "country"), Get(l, "timezone"), Get(l, "localtime"),
                      Coordinates(Get(l, "latitude"), Get(l, "longitude")))
  {
  }

  /** The getters of an empty location give the not-available constants, (0, 0) and `now`. */
  lemma EmptyLocationDefaults(r: GeoResponse, now: string)
    requires r.location == Obj(map[])
    ensures GetLocationData(r, now)
            == LocationData(Str(CityNotAvailable), Str(CountryNotAvailable), Str(TimezoneNotAvailable), Str(now),
                            Coordinates(Num(0.0), Num(0.0)))
  {
  }
}
