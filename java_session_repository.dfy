/**
 * `DynamoRepository` of the Java `session` revision: write the new session,
 * count the user's sessions, and delete the oldest once when there are more
 * than five. The four repository exceptions reach the caller unchanged.
 */
module JavaSessionRepository {
  import opened Wrappers
  import opened Store
  import opened JavaSessionTable

  /**
   * How `saveSession` completes and the table it leaves: the first failing
   * call stops the flow, and a failed query for the oldest bean surfaces as
   * `DeleteOldestSessionException`, since `deleteOldestSession` wraps it.
   */
  function WriteCountTrim(t: Table<JavaSession>, id: string, ip: string, city: string, time: string, faults: Faults)
    : (r: (Outcome<RepositoryError>, Table<JavaSession>))
    ensures var s := JavaSession(id, time, ip, city);
      && (r.0.Pass? <==>
            && faults.put.None? && faults.count.None?
            && (Count(Put(t, id, time, s), id) <= MaxSessionsPerUser || (faults.query.None? && faults.delete.None?)))
      && (r.0.Pass? ==> r.1 == WriteThenTrim(t, id, time, s))
      && (faults.put.Some? ==> r == (Fail(SaveSessionInTableException), t))
      && (faults.put.None? && r.0.Fail? ==> r.1 == Put(t, id, time, s))
      && (faults.put.None? && faults.count.Some? ==> r.0 == Fail(CountSessionByIdException))
      && (faults.put.None? && faults.count.None? && r.0.Fail? ==> r.0 == Fail(DeleteOldestSessionException))
  {
    if faults.put.Some? then (Fail(SaveSessionInTableException), t)
    else
      var written := Put(t, id, time, JavaSession(id, time, ip, city));
      if faults.count.Some? then (Fail(CountSessionByIdException), written)
      else if Count(written, id) <= MaxSessionsPerUser then (Pass, written)
      else if faults.query.Some? || faults.delete.Some? then (Fail(DeleteOldestSessionException), written)
      else (Pass, DeleteOldest(written, id))
  }

  class DynamoRepository {
    var table: Table<JavaSession>

    ghost predicate Valid()
      reads this
    {
      WellKeyed(table)
    }

    constructor (initial: Table<JavaSession>)
      requires WellKeyed(initial)
      ensures Valid() && table == initial
    {
      table := initial;
    }

    /** `saveSession(sessionId, ip, city, timestamp)`; `faults` says which table calls throw. */
    method SaveSession(sessionId: string, ip: string, city: string, timestamp: string, faults: Faults) returns (r: Outcome<RepositoryError>)
      requires Valid()
      modifies this
      ensures Valid()
      ensures (r, table) == WriteCountTrim(old(table), sessionId, ip, city, timestamp, faults)
    {
      r := SaveInTable(sessionId, ip, city, timestamp, faults.put);
      if r.Fail? {
        return r;
      }
      var sessionCount := CountSessionsById(sessionId, faults.count);
      if sessionCount.Failure? {
        return Fail(sessionCount.error);
      }
      if sessionCount.value > MaxSessionsPerUser {
        r := DeleteOldestSession(sessionId, faults.query, faults.delete);
      }
    }

    /** `saveInTable`: builds the bean and saves it under its keys; a failed save writes nothing. */
    method SaveInTable(sessionId: string, ip: string, city: string, timestamp: string, putFault: Option<string>)
      returns (r: Outcome<RepositoryError>)
      requires Valid()
      modifies this
      ensures Valid()
      ensures r.Fail? <==> putFault.Some?
      ensures r.Fail? ==> r.error == SaveSessionInTableException && table == old(table)
      ensures r.Pass? ==> table == Put(old(table), sessionId, timestamp, JavaSession(sessionId, timestamp, ip, city))
    {
      var session := JavaSession(sessionId, timestamp, ip, city);
      if putFault.Some? {
        return Fail(SaveSessionInTableException);
      }
      PutKeepsWellKeyed(table, session);
      table := Put(table, session.email, session.connectionTime, session);
      return Pass;
    }

    /** `countSessionsById`: the number of beans under the hash key. */
    method CountSessionsById(sessionId: string, countFault: Option<string>) returns (r: Result<nat, RepositoryError>)
      ensures r.Failure? <==> countFault.Some?
      ensures r.Failure? ==> r.error == CountSessionByIdException
      ensures r.Success? ==> r.value == |Partition(table, sessionId).Keys|
    {
      if countFault.Some? {
        return Failure(CountSessionByIdException);
      }
      return Success(Count(table, sessionId));
    }

    /** `deleteOldestSession`: a failed query is rethrown as a failed delete; an empty partition is left alone. */
    method DeleteOldestSession(sessionId: string, queryFault: Option<string>, deleteFault: Option<string>)
      returns (r: Outcome<RepositoryError>)
      requires Valid()
      modifies this
      ensures Valid()
      ensures r.Fail? <==> queryFault.Some? || (Count(old(table), sessionId) > 0 && deleteFault.Some?)
      ensures r.Fail? ==> r.error == DeleteOldestSessionException && table == old(table)
      ensures r.Pass? ==> table == DeleteOldest(old(table), sessionId)
    {
      var oldestSession := GetSession(sessionId, true, queryFault);
      if oldestSession.Failure? {
        return Fail(DeleteOldestSessionException);
      }
      if oldestSession.value.Some? {
        if deleteFault.Some? {
          return Fail(DeleteOldestSessionException);
        }
        var session := oldestSession.value.value;
        DeleteQueriedIsDeleteOldest(table, sessionId);
        table := Delete(table, session.email, session.connectionTime);
      }
      return Pass;
    }

    /** `getSession(sessionId, order)`: the first bean in the requested sort-key order, or empty. */
    method GetSession(sessionId: string, ascending: bool, queryFault: Option<string>)
      returns (r: Result<Option<JavaSession>, RepositoryError>)
      requires Valid()
      ensures r.Failure? <==> queryFault.Some?
      ensures r.Failure? ==> r.error == GetOldestSessionException
      ensures r.Success? ==> (r.value.None? <==> Count(table, sessionId) == 0)
      ensures r.Success? && r.value.Some? ==>
        && r.value.value.email == sessionId
        && IsFirst(r.value.value.connectionTime, Partition(table, sessionId).Keys, ascending)
        && Partition(table, sessionId)[r.value.value.connectionTime] == r.value.value
      ensures r.Success? ==> r.value == QueryFirst(table, sessionId, ascending)
    {
      if queryFault.Some? {
        return Failure(GetOldestSessionException);
      }
      var sessions := QueryFirst(table, sessionId, ascending);
      return Success(sessions);
    }
  }

  // ---------------------------------------------------------------------
  // Properties
  // ---------------------------------------------------------------------

  /** A `GetOldestSessionException` never reaches the caller, although `saveSession` names it in its catch. */
  lemma QueryFailureSurfacesAsDeleteFailure(t: Table<JavaSession>, id: string, ip: string, city: string, time: string, faults: Faults)
    requires faults.put.None? && faults.count.None? && faults.query.Some?
    ensures WriteCountTrim(t, id, ip, city, time, faults).0 != Fail(GetOldestSessionException)
    ensures Count(Put(t, id, time, JavaSession(id, time, ip, city)), id) > MaxSessionsPerUser
            ==> WriteCountTrim(t, id, ip, city, time, faults).0 == Fail(DeleteOldestSessionException)
  {
  }

  /** `SaveSessionProcessException` is never thrown: every call below `saveSession` throws one of the four specific exceptions. */
  lemma NoProcessException(t: Table<JavaSession>, id: string, ip: string, city: string, time: string, faults: Faults)
    ensures WriteCountTrim(t, id, ip, city, time, faults).0 != Fail(SaveSessionProcessException)
  {
  }

  /** With one writer, a completed save never lets a user exceed five sessions, and other users are untouched. */
  lemma SaveKeepsCap(t: Table<JavaSession>, id: string, ip: string, city: string, time: string, faults: Faults)
    requires WriteCountTrim(t, id, ip, city, time, faults).0.Pass?
    ensures var after := WriteCountTrim(t, id, ip, city, time, faults).1;
      && Count(after, id) <= (if Count(t, id) <= MaxSessionsPerUser then MaxSessionsPerUser else Count(t, id))
      && forall other :: other != id ==> Partition(after, other) == Partition(t, other)
  {
    WriteThenTrimKeepsCap(t, id, time, JavaSession(id, time, ip, city));
  }

  /** A completed save keeps the new session when its timestamp is later than every stored one. */
  lemma SaveKeepsNewSession(t: Table<JavaSession>, id: string, ip: string, city: string, time: string, faults: Faults)
    requires WriteCountTrim(t, id, ip, city, time, faults).0.Pass?
    requires forall k :: k in Partition(t, id) ==> LexLe(k, time) && k != time
    ensures var after := Partition(WriteCountTrim(t, id, ip, city, time, faults).1, id);
      time in after && after[time] == JavaSession(id, time, ip, city)
  {
    WriteThenTrimKeepsNewest(t, id, time, JavaSession(id, time, ip, city));
  }
}
