/**
 * `getLocationInfo`, `getGeolocalizationResponse` and `_getDefaultLocationInfo`
 * of src/services/cityService.js. The HTTP request is replaced by an oracle:
 * `upstream(i)` is what the request of attempt i+1 yields.
 */
module CityService {
  import opened Wrappers
  import opened JsValues
  import opened InputValidators
  import opened GeolocationResponse
  import opened Retry

  /** What one geolocation request yields: a thrown error, or the parsed response body. */
  datatype Reply = Threw(message: string) | Answered(data: Value)

  /** A reply that `getLocationInfo` accepts. */
  predicate Usable(reply: Reply) {
    reply.Answered? && IsValid(FromApiResponse(reply.data))
  }

  function UsableAt(upstream: nat -> Reply): nat -> bool {
    (i: nat) => Usable(upstream(i))
  }

  /** `_getDefaultLocationInfo` */
  function DefaultLocationInfo(now: string): (info: LocationData)
    ensures info.city == Str(CityNotAvailable) && info.country == Str(CountryNotAvailable)
    ensures info.timezone == Str(TimezoneNotAvailable) && info.connectionTime == Str(now)
    ensures Get(info.coordinates, "latitude") == Num(0.0) && Get(info.coordinates, "longitude") == Num(0.0)
  {
    LocationData(Str(CityNotAvailable), Str(CountryNotAvailable), Str(TimezoneNotAvailable), Str(now),
                 Coordinates(Num(0.0), Num(0.0)))
  }

  /**
   * What `getLocationInfo` returns and how many requests it makes: the
   * location data of the first usable reply among the first four, else the
   * default after four requests.
   */
  function LocationInfoOutcome(upstream: nat -> Reply, now: string): (r: (LocationData, nat))
    ensures 1 <= r.1 <= MaxRequests
    ensures forall i :: 0 <= i < r.1 - 1 ==> !Usable(upstream(i))
    ensures Usable(upstream(r.1 - 1)) ==> r.0 == GetLocationData(FromApiResponse(upstream(r.1 - 1).data), now)
    ensures !Usable(upstream(r.1 - 1)) ==> r == (DefaultLocationInfo(now), MaxRequests)
  {
    var k := FirstHit(UsableAt(upstream), 0, MaxRequests);
    assert k < MaxRequests ==> Usable(upstream(k)) by {
      if k < MaxRequests { assert UsableAt(upstream)(k); }
    }
    assert forall i :: 0 <= i < k ==> !Usable(upstream(i)) by {
      forall i | 0 <= i < k ensures !Usable(upstream(i)) { assert !UsableAt(upstream)(i); }
    }
    if k < MaxRequests then (GetLocationData(FromApiResponse(upstream(k).data), now), k + 1)
    else (DefaultLocationInfo(now), MaxRequests)
  }

  /**
   * `getLocationInfo`: up to four attempts; a thrown request and an unusable
   * payload each use up one attempt; the first usable payload is returned.
   * It never throws: on the last attempt `handleError` only builds an error,
   * which is dropped.
   */
  method GetLocationInfo(upstream: nat -> Reply, now: string) returns (info: LocationData, requests: nat)
    ensures (info, requests) == LocationInfoOutcome(upstream, now)
    ensures 1 <= requests <= MaxRequests
  {
    var attempts := 0;
    while attempts <= MaxRetryAttempts
      invariant attempts <= MaxRequests
      invariant forall i :: 0 <= i < attempts ==> !UsableAt(upstream)(i)
    {
      attempts := attempts + 1;
      var reply := upstream(attempts - 1);
      match reply {
        case Answered(data) =>
          var geoResponse := FromApiResponse(data);
          if IsValid(geoResponse) {
            FirstHitIs(UsableAt(upstream), MaxRequests, attempts - 1);
            return GetLocationData(geoResponse, now), attempts;
          }
        case Threw(message) =>
          if attempts > MaxRetryAttempts {
            var _ := HandleError("getLocationInfo", message);
          }
      }
    }
    FirstHitIs(UsableAt(upstream), MaxRequests, MaxRequests);
    return DefaultLocationInfo(now), attempts;
  }

  /** `getGeolocalizationResponse`: one request; the DTO when it is usable, else null. */
  function GetGeolocalizationResponse(reply: Reply): (r: Option<GeoResponse>)
    ensures r.Some? <==> Usable(reply)
    ensures r.Some? ==> IsValid(r.value) && r.value == FromApiResponse(reply.data)
  {
    match reply
    case Threw(_) => None
    case Answered(data) =>
      var geoResponse := FromApiResponse(data);
      if IsValid(geoResponse) then Some(geoResponse) else None
  }

  /** The first usable reply wins: later replies are never requested. */
  lemma FirstUsableWins(upstream: nat -> Reply, now: string, k: nat)
    requires k < MaxRequests && Usable(upstream(k))
    requires forall i :: 0 <= i < k ==> !Usable(upstream(i))
    ensures LocationInfoOutcome(upstream, now) == (GetLocationData(FromApiResponse(upstream(k).data), now), k + 1)
  {
    FirstHitIs(UsableAt(upstream), MaxRequests, k);
  }

  /** Two failures (a thrown request, then an incomplete payload) followed by a usable reply give the third reply. */
  lemma SuccessOnThirdAttempt(upstream: nat -> Reply, now: string)
    requires upstream(0).Threw? && upstream(1).Answered? && !IsValid(FromApiResponse(upstream(1).data))
    requires Usable(upstream(2))
    ensures LocationInfoOutcome(upstream, now) == (GetLocationData(FromApiResponse(upstream(2).data), now), 3)
  {
    FirstUsableWins(upstream, now, 2);
  }

  /** When every attempt fails the result is the default location, after exactly four requests. */
  lemma AllAttemptsFail(upstream: nat -> Reply, now: string)
    requires forall i :: 0 <= i < MaxRequests ==> !Usable(upstream(i))
    ensures LocationInfoOutcome(upstream, now) == (DefaultLocationInfo(now), MaxRequests)
  {
  }

  /** The result depends only on the replies actually requested. */
  lemma OutcomeDependsOnRequestedReplies(u1: nat -> Reply, u2: nat -> Reply, now: string)
    requires forall i :: 0 <= i < LocationInfoOutcome(u1, now).1 ==> u1(i) == u2(i)
    ensures LocationInfoOutcome(u1, now) == LocationInfoOutcome(u2, now)
  {
    FirstHitDependsOnPrefix(UsableAt(u1), UsableAt(u2), 0, MaxRequests);
  }

  /** The default is what the DTO's own getters give for a missing payload. */
  lemma DefaultIsEmptyPayload(now: string)
    ensures DefaultLocationInfo(now) == GetLocationData(FromApiResponse(Undefined), now)
  {
    EmptyLocationDefaults(FromApiResponse(Undefined), now);
  }

  /** Both services agree on the first reply: when it is usable, `getLocationInfo` returns the location data of the DTO `getGeolocalizationResponse` returns. */
  lemma ServicesAgreeOnFirstReply(upstream: nat -> Reply, now: string)
    requires GetGeolocalizationResponse(upstream(0)).Some?
    ensures LocationInfoOutcome(upstream, now) == (GetLocationData(GetGeolocalizationResponse(upstream(0)).value, now), 1)
  {
    FirstUsableWins(upstream, now, 0);
  }
}
