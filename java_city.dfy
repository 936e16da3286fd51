/**
 * The two Java `City.getCity` loops: `session/service/City.java`, which
 * sends its own HTTP request and checks the status code, and
 * `savesession/service/City.java`, which asks a REST client for the body.
 * Both try at most four times, return the city of the first reply whose
 * `status` is "success", and give up on the first exception.
 */
module JavaCity {
  import opened Wrappers
  import opened Text
  import opened JavaHelpers
  import opened Retry

  const CityNotAvailable := "Ciudad no disponible"

  /** What one attempt comes to: an exception that ends the loop, a city, or another try. */
  datatype Step = Aborted | Settled(city: string) | Retried

  /**
   * Reading a reply body: text Jackson cannot parse (`None`) throws, a
   * missing `status` throws a NullPointerException at `asText`, status
   * "success" settles with the `city` field or the not-available constant,
   * and any other status is logged and retried.
   */
  function ReadBody(body: Option<Json>): Step {
    match body
    case None => Aborted
    case Some(node) =>
      match Field(node, "status")
      case None => Aborted
      case Some(status) =>
        ReadStatus(node, AsText(status))
  }

  /** The step of a parsed body whose `status` field reads `status`. */
  function ReadStatus(node: Json, status: string): Step {
    if status == "success" then Settled(GetStringFromJson(node, "city").GetOr(CityNotAvailable))
    else Retried
  }

  /** A reply settles on a visible city name or on the not-available constant, never on a blank one. */
  lemma ReadBodyCity(body: Option<Json>)
    ensures ReadBody(body).Aborted? <==> body.None? || Field(body.value, "status").None?
    ensures ReadBody(body).Settled? ==>
      && !JavaIsBlank(ReadBody(body).city)
      && ReadBody(body).city == GetStringFromJson(body.value, "city").GetOr(CityNotAvailable)
  {
    assert !IsJavaWhitespace(CityNotAvailable[0]);
    if body.Some? {
      GetStringFromJsonSpec(body.value, "city");
    }
  }

  function DecisiveAt(steps: nat -> Step): nat -> bool {
    (i: nat) => !steps(i).Retried?
  }

  /**
   * The city `getCity` returns and the number of requests it makes: the
   * first attempt among four that does not retry decides, an exception
   * giving the not-available constant; four retries give it too.
   */
  function CityOutcome(steps: nat -> Step): (r: (string, nat))
    ensures 1 <= r.1 <= MaxRequests
    ensures forall i :: 0 <= i < r.1 - 1 ==> steps(i).Retried?
    ensures r.0 == CityNotAvailable || (steps(r.1 - 1).Settled? && r.0 == steps(r.1 - 1).city)
  {
    var k := FirstHit(DecisiveAt(steps), 0, MaxRequests);
    assert forall i :: 0 <= i < k ==> steps(i).Retried? by {
      forall i | 0 <= i < k ensures steps(i).Retried? {
        assert !DecisiveAt(steps)(i);
      }
    }
    if k < MaxRequests then
      (if steps(k).Settled? then steps(k).city else CityNotAvailable, k + 1)
    else (CityNotAvailable, MaxRequests)
  }

  // ---------------------------------------------------------------------
  // session/service/City.java: own HTTP request, status code checked
  // ---------------------------------------------------------------------

  /** One HTTP exchange: the request throws, or a response with its status code and its parsed body (`None` if it does not parse). */
  datatype HttpReply = HttpFailed | HttpResponse(statusCode: int, body: Option<Json>)

  /** Only a 200 response is read; any other status code is retried. */
  function HttpStep(reply: HttpReply): (step: Step)
    ensures reply.HttpResponse? && reply.statusCode != 200 ==> step.Retried?
    ensures reply.HttpFailed? ==> step.Aborted?
  {
    match reply
    case HttpFailed => Aborted
    case HttpResponse(statusCode, body) => if statusCode == 200 then ReadBody(body) else Retried
  }

  function HttpSteps(replies: nat -> HttpReply): nat -> Step {
    (i: nat) => HttpStep(replies(i))
  }

  /** `getCity` of the `session` revision; `replies(i)` answers the request of attempt i+1. */
  method GetCityOverHttp(replies: nat -> HttpReply) returns (city: string, requests: nat)
    ensures (city, requests) == CityOutcome(HttpSteps(replies))
  {
    var attempts := 0;
    while attempts <= 3
      invariant attempts <= MaxRequests
      invariant forall i :: 0 <= i < attempts ==> HttpSteps(replies)(i).Retried?
    {
      attempts := attempts + 1;
      var response := replies(attempts - 1);
      assert HttpSteps(replies)(attempts - 1) == HttpStep(response);
      if response.HttpFailed? {
        ExceptionStopsRetrying(HttpSteps(replies), attempts - 1);
        return CityNotAvailable, attempts;
      }
      if response.statusCode == 200 {
        assert HttpStep(response) == ReadBody(response.body);
        if response.body.None? || Field(response.body.value, "status").None? {
          ExceptionStopsRetrying(HttpSteps(replies), attempts - 1);
          return CityNotAvailable, attempts;
        }
        var responseJsonNode := response.body.value;
        var status := AsText(Field(responseJsonNode, "status").value);
        assert ReadBody(response.body) == ReadStatus(responseJsonNode, status);
        if status == "success" {
          FirstSuccessWins(HttpSteps(replies), attempts - 1);
          return GetStringFromJson(responseJsonNode, "city").GetOr(CityNotAvailable), attempts;
        }
      }
    }
    FourRetriesGiveNotAvailable(HttpSteps(replies));
    return CityNotAvailable, attempts;
  }

  // ---------------------------------------------------------------------
  // savesession/service/City.java: REST client, every body parsed
  // ---------------------------------------------------------------------

  /** One REST call: the client throws (including for an HTTP error status), or the body it returns, parsed. */
  datatype RestReply = RestFailed | RestBody(body: Option<Json>)

  function RestStep(reply: RestReply): (step: Step)
    ensures reply.RestFailed? ==> step.Aborted?
  {
    match reply
    case RestFailed => Aborted
    case RestBody(body) => ReadBody(body)
  }

  function RestSteps(replies: nat -> RestReply): nat -> Step {
    (i: nat) => RestStep(replies(i))
  }

  /** `getCity` of the `savesession` revision; `replies(i)` answers the call of attempt i+1. */
  method GetCityOverRestClient(replies: nat -> RestReply) returns (city: string, requests: nat)
    ensures (city, requests) == CityOutcome(RestSteps(replies))
  {
    var attempts := 0;
    while attempts <= 3
      invariant attempts <= MaxRequests
      invariant forall i :: 0 <= i < attempts ==> RestSteps(replies)(i).Retried?
    {
      attempts := attempts + 1;
      var response := replies(attempts - 1);
      assert RestSteps(replies)(attempts - 1) == RestStep(response);
      if response.RestFailed? {
        ExceptionStopsRetrying(RestSteps(replies), attempts - 1);
        return CityNotAvailable, attempts;
      }
      if response.body.None? || Field(response.body.value, "status").None? {
        ExceptionStopsRetrying(RestSteps(replies), attempts - 1);
        return CityNotAvailable, attempts;
      }
      var responseJsonNode := response.body.value;
      var status := AsText(Field(responseJsonNode, "status").value);
      assert RestStep(response) == ReadStatus(responseJsonNode, status);
      if status == "success" {
        FirstSuccessWins(RestSteps(replies), attempts - 1);
        return GetStringFromJson(responseJsonNode, "city").GetOr(CityNotAvailable), attempts;
      }
    }
    FourRetriesGiveNotAvailable(RestSteps(replies));
    return CityNotAvailable, attempts;
  }

  // ---------------------------------------------------------------------
  // Properties
  // ---------------------------------------------------------------------

  /** The first successful reply wins, after exactly as many requests as attempts used. */
  lemma FirstSuccessWins(steps: nat -> Step, k: nat)
    requires k < MaxRequests && steps(k).Settled?
    requires forall i :: 0 <= i < k ==> steps(i).Retried?
    ensures CityOutcome(steps) == (steps(k).city, k + 1)
  {
    FirstHitIs(DecisiveAt(steps), MaxRequests, k);
  }

  /** An exception ends the loop at once: the remaining attempts are never made, whatever they would have returned. */
  lemma ExceptionStopsRetrying(steps: nat -> Step, k: nat)
    requires k < MaxRequests && steps(k).Aborted?
    requires forall i :: 0 <= i < k ==> steps(i).Retried?
    ensures CityOutcome(steps) == (CityNotAvailable, k + 1)
  {
    FirstHitIs(DecisiveAt(steps), MaxRequests, k);
  }

  /** Four unsuccessful replies give the not-available constant after four requests. */
  lemma FourRetriesGiveNotAvailable(steps: nat -> Step)
    requires forall i :: 0 <= i < MaxRequests ==> steps(i).Retried?
    ensures CityOutcome(steps) == (CityNotAvailable, MaxRequests)
  {
    FirstHitIs(DecisiveAt(steps), MaxRequests, MaxRequests);
  }

  /** The city is never blank: either a visible city name or the not-available constant. */
  lemma CityNeverBlank(steps: nat -> Step)
    requires forall i :: steps(i).Settled? ==> !JavaIsBlank(steps(i).city)
    ensures !JavaIsBlank(CityOutcome(steps).0)
  {
    assert !IsJavaWhitespace(CityNotAvailable[0]);
  }

  lemma HttpCityNeverBlank(replies: nat -> HttpReply)
    ensures !JavaIsBlank(CityOutcome(HttpSteps(replies)).0)
  {
    forall i: nat ensures HttpSteps(replies)(i).Settled? ==> !JavaIsBlank(HttpSteps(replies)(i).city) {
      assert HttpSteps(replies)(i) == HttpStep(replies(i));
      if replies(i).HttpResponse? {
        ReadBodyCity(replies(i).body);
      }
    }
    CityNeverBlank(HttpSteps(replies));
  }

  lemma RestCityNeverBlank(replies: nat -> RestReply)
    ensures !JavaIsBlank(CityOutcome(RestSteps(replies)).0)
  {
    forall i: nat ensures RestSteps(replies)(i).Settled? ==> !JavaIsBlank(RestSteps(replies)(i).city) {
      assert RestSteps(replies)(i) == RestStep(replies(i));
      if replies(i).RestBody? {
        ReadBodyCity(replies(i).body);
      }
    }
    CityNeverBlank(RestSteps(replies));
  }

  /** A failed first request over HTTP gives up, even when the next reply would have named a city. */
  lemma NetworkErrorIsNotRetried(replies: nat -> HttpReply)
    requires replies(0) == HttpFailed
    ensures CityOutcome(HttpSteps(replies)) == (CityNotAvailable, 1)
  {
    ExceptionStopsRetrying(HttpSteps(replies), 0);
  }

  /** A non-200 response, by contrast, uses one attempt and the loop goes on. */
  lemma ErrorStatusIsRetried(replies: nat -> HttpReply, k: nat)
    requires 1 <= k < MaxRequests && replies(0).HttpResponse? && replies(0).statusCode != 200
    requires forall i :: 1 <= i < k ==> HttpSteps(replies)(i).Retried?
    requires HttpSteps(replies)(k).Settled?
    ensures CityOutcome(HttpSteps(replies)) == (HttpSteps(replies)(k).city, k + 1)
  {
    FirstSuccessWins(HttpSteps(replies), k);
  }

  /** On 200 responses the two revisions agree: same bodies, same city, same number of requests. */
  lemma RevisionsAgreeOnOkResponses(http: nat -> HttpReply, rest: nat -> RestReply)
    requires forall i :: rest(i).RestBody? && http(i) == HttpResponse(200, rest(i).body)
    ensures CityOutcome(HttpSteps(http)) == CityOutcome(RestSteps(rest))
  {
    var s1, s2 := HttpSteps(http), RestSteps(rest);
    forall i: nat ensures s1(i) == s2(i) {
      assert s1(i) == HttpStep(http(i)) && s2(i) == RestStep(rest(i));
    }
    FirstHitDependsOnPrefix(DecisiveAt(s1), DecisiveAt(s2), 0, MaxRequests);
  }
}
