/**
 * `SessionService.saveSession` of src/services/sessionService.js: decrypt the
 * e-mail, validate, geolocate, store the session and trim the user's
 * sessions to the limit. Decryption and the geolocation requests are
 * parameters; the repository is the model of src/repository/dynamoRepository.js.
 */
module JsSessionService {
  import opened Wrappers
  import opened JsValues
  import opened InputValidators
  import opened IpValidators
  import opened Text
  import opened GeolocationResponse
  import opened Retry
  import opened CityService
  import opened SessionModel
  import opened Store
  import opened JsDynamoRepository

  const EmailMissing := "Falta parámetro email"
  const Successfully := "Proceso realizado exitosamente"
  const BadRequest := 400
  const InternalServerError := 500

  /** The message of the ReferenceError raised by the catch block, which names a variable of the try block. */
  const DataValidationsNotDefined := "dataValidations is not defined"

  /** `{ success, statusCode, message }`; the success object has no status code. */
  datatype ServiceResult = ServiceResult(success: bool, statusCode: Option<int>, message: string)

  /** How `saveSession`'s promise settles. */
  datatype Completion = Returned(result: ServiceResult) | ReturnedUndefined | Rejected(error: string)

  /** The errors of validating the e-mail and the ip alone, which is what the two-argument call evidently intends. */
  function EmailAndIpErrors(email: string, ip: Value): (errors: seq<string>)
    ensures |errors| <= 2
    ensures errors == [] <==> IsValidString(Str(email)) && EmailShape(JsTrim(email)) && IpAccepted(ip)
  {
    assert IpAccepted(ip) ==> IsValidString(ip) by {
      if IpAccepted(ip) { IpAcceptedIsValidString(ip); }
    }
    EmailErrors(Str(email)) + IpErrors(ip)
  }

  /**
   * The part of `saveSession` after validation: write the session built
   * from `info`, count the user's sessions and delete the oldest when there
   * are more than the limit. Gives how it completes and the new table.
   */
  function StoreFlow(t: Table<Item>, email: string, ip: Value, info: LocationData, now: string, faults: Faults): (r: (Outcome<string>, Table<Item>))
    ensures var saved := SaveSessionResult(email, ip, info.city, info.timezone, info.country, info.coordinates, now, faults.put);
      && (r.0.Pass? <==>
            && saved.Success? && faults.count.None?
            && (Count(Put(t, email, now, saved.value), email) <= MaxSessionsPerUser || (faults.query.None? && faults.delete.None?)))
      && (r.0.Pass? ==> r.1 == WriteThenTrim(t, email, now, saved.value))
      && (r.0.Fail? ==> r.1 == t || (saved.Success? && r.1 == Put(t, email, now, saved.value)))
  {
    match SaveSessionResult(email, ip, info.city, info.timezone, info.country, info.coordinates, now, faults.put)
    case Failure(e) => (Fail(e), t)
    case Success(item) =>
      var written := Put(t, email, now, item);
      if faults.count.Some? then (Fail(HandleError("countSessionsById", faults.count.value)), written)
      else if Count(written, email) <= MaxSessionsPerUser then (Pass, written)
      else
        var deleted := DeleteOldestOutcome(written, email, faults.query, faults.delete);
        (deleted, if deleted.Pass? then DeleteOldest(written, email) else written)
  }

  class SessionService {
    const repository: DynamoRepository

    constructor (repository: DynamoRepository)
      ensures this.repository == repository
    {
      this.repository := repository;
    }

    /**
     * `saveSession(emailEncripted, ip)` as written. `validateInput` is called
     * with two of its eight arguments, so the city, time zone, country, local
     * time and coordinates are undefined and validation always fails: the
     * method returns undefined without touching the table. A decryption
     * failure is caught by a block that reads `dataValidations`, which is not
     * in scope there, so the promise rejects with a ReferenceError.
     */
    method SaveSessionAsWritten(emailEncrypted: Value, ip: Value, decrypt: Value -> Result<string, string>,
                                parseFloat: string -> Option<real>) returns (c: Completion)
      ensures !Truthy(emailEncrypted) ==> c == Returned(ServiceResult(false, Some(BadRequest), EmailMissing))
      ensures Truthy(emailEncrypted) && decrypt(emailEncrypted).Failure? ==> c == Rejected(DataValidationsNotDefined)
      ensures Truthy(emailEncrypted) && decrypt(emailEncrypted).Success? ==> c == ReturnedUndefined
    {
      if !Truthy(emailEncrypted) {
        return Returned(ServiceResult(false, Some(BadRequest), EmailMissing));
      }
      var decrypted := decrypt(emailEncrypted);
      if decrypted.Failure? {
        return Rejected(DataValidationsNotDefined);
      }
      var email := decrypted.value;
      var dataValidations := ValidateInput(Str(email), ip, Undefined, Undefined, Undefined, Undefined, Undefined, Undefined, parseFloat);
      EmailAndIpAloneNeverValid(Str(email), ip, parseFloat);
      if dataValidations.isValid {
        assert false;
      }
      return ReturnedUndefined;
    }

    /** Lines 46-62: save, count, and delete the oldest session when over the limit; the first failure stops the flow. */
    method StoreAndTrim(email: string, ip: Value, info: LocationData, now: string, faults: Faults) returns (r: Outcome<string>)
      requires repository.Valid()
      modifies repository
      ensures repository.Valid()
      ensures (r, repository.table) == StoreFlow(old(repository.table), email, ip, info, now, faults)
    {
      var saved := repository.SaveSession(email, ip, info.city, info.timezone, info.country, info.coordinates, now, faults.put);
      if saved.Fail? {
        return saved;
      }
      var sessionCount := repository.CountSessionsById(email, faults.count);
      if sessionCount.Failure? {
        return Fail(sessionCount.error);
      }
      if sessionCount.value > MaxSessionsPerUser {
        var deleted := repository.DeleteOldestSession(email, faults.query, faults.delete);
        if deleted.Fail? {
          return deleted;
        }
      }
      return Pass;
    }

    /**
     * `saveSession` as evidently intended: only the e-mail and the ip are
     * validated, and the catch block reports the error it caught with status
     * 500. An invalid input still settles with undefined, as in the source.
     * `upstream` answers the geolocation requests and `now` is the clock.
     */
    method SaveSession(emailEncrypted: Value, ip: Value, decrypt: Value -> Result<string, string>,
                       upstream: nat -> Reply, now: string, faults: Faults) returns (c: Completion)
      requires repository.Valid()
      modifies repository
      ensures repository.Valid()
      ensures !c.Rejected?
      ensures !Truthy(emailEncrypted) ==>
        c == Returned(ServiceResult(false, Some(BadRequest), EmailMissing)) && repository.table == old(repository.table)
      ensures Truthy(emailEncrypted) && decrypt(emailEncrypted).Failure? ==>
        && c == Returned(ServiceResult(false, Some(InternalServerError), decrypt(emailEncrypted).error))
        && repository.table == old(repository.table)
      ensures Truthy(emailEncrypted) && decrypt(emailEncrypted).Success? ==>
        var email := decrypt(emailEncrypted).value;
        if EmailAndIpErrors(email, ip) != [] then
          c == ReturnedUndefined && repository.table == old(repository.table)
        else
          var flow := StoreFlow(old(repository.table), email, ip, LocationInfoOutcome(upstream, now).0, now, faults);
          && repository.table == flow.1
          && c == Returned(if flow.0.Pass? then ServiceResult(true, None, Successfully)
                           else ServiceResult(false, Some(InternalServerError), flow.0.error))
    {
      if !Truthy(emailEncrypted) {
        return Returned(ServiceResult(false, Some(BadRequest), EmailMissing));
      }
      var decrypted := decrypt(emailEncrypted);
      if decrypted.Failure? {
        return Returned(ServiceResult(false, Some(InternalServerError), decrypted.error));
      }
      var email := decrypted.value;
      var errors := PushEmailErrors([], Str(email));
      errors := PushIpErrors(errors, ip);
      if errors != [] {
        return ReturnedUndefined;
      }
      var locationInfo, _ := GetLocationInfo(upstream, now);
      var stored := StoreAndTrim(email, ip, locationInfo, now, faults);
      if stored.Fail? {
        return Returned(ServiceResult(false, Some(InternalServerError), stored.error));
      }
      return Returned(ServiceResult(true, None, Successfully));
    }
  }

  /**
   * When every geolocation attempt fails, the default coordinates (0, 0) are
   * falsy, so the session is refused as invalid and nothing is written.
   */
  lemma GeolocationFailureStoresNothing(t: Table<Item>, email: string, ip: Value, upstream: nat -> Reply, now: string, faults: Faults)
    requires forall i :: 0 <= i < MaxRequests ==> !Usable(upstream(i))
    ensures StoreFlow(t, email, ip, LocationInfoOutcome(upstream, now).0, now, faults)
            == (Fail(HandleError("saveSession", SessionDataInvalid)), t)
  {
    AllAttemptsFail(upstream, now);
    var info := DefaultLocationInfo(now);
    InvalidSessionMessage(email, ip, info.city, info.timezone, info.country, info.coordinates, now, faults.put);
  }

  /** A completed save never leaves the user with more than the limit of sessions (or more than before, if already over). */
  lemma StoreFlowKeepsCap(t: Table<Item>, email: string, ip: Value, info: LocationData, now: string, faults: Faults)
    requires StoreFlow(t, email, ip, info, now, faults).0.Pass?
    ensures var after := StoreFlow(t, email, ip, info, now, faults).1;
      && Count(after, email) <= (if Count(t, email) <= MaxSessionsPerUser then MaxSessionsPerUser else Count(t, email))
      && forall other :: other != email ==> Partition(after, other) == Partition(t, other)
  {
    var saved := SaveSessionResult(email, ip, info.city, info.timezone, info.country, info.coordinates, now, faults.put);
    WriteThenTrimKeepsCap(t, email, now, saved.value);
  }

  /** A completed save keeps the session it has just written when its instant is later than every stored one. */
  lemma StoreFlowKeepsNewSession(t: Table<Item>, email: string, ip: Value, info: LocationData, now: string, faults: Faults)
    requires StoreFlow(t, email, ip, info, now, faults).0.Pass?
    requires forall k :: k in Partition(t, email) ==> LexLe(k, now) && k != now
    ensures var after := StoreFlow(t, email, ip, info, now, faults).1;
      && now in Partition(after, email)
      && Partition(after, email)[now].id == Str(email)
      && Truthy(SessionModel.IsValid(FromDynamoItemFixed(Partition(after, email)[now])))
  {
    var saved := SaveSessionResult(email, ip, info.city, info.timezone, info.country, info.coordinates, now, faults.put);
    WriteThenTrimKeepsNewest(t, email, now, saved.value);
  }
}
