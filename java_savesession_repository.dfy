/**
 * `DynamoRepository` of the Java `savesession` revision: count the user's
 * sessions first, then write, then delete the oldest once when the count
 * taken before the write was over five. Every failure is rethrown as
 * `SaveSessionProcessException`.
 */
module JavaSaveSessionRepository {
  import opened Wrappers
  import opened Store
  import opened JavaSessionTable
  import JavaSessionRepository

  /** How `saveSession` completes and the table it leaves. */
  function CountWriteTrim(t: Table<JavaSession>, id: string, ip: string, city: string, time: string, faults: Faults)
    : (r: (Outcome<RepositoryError>, Table<JavaSession>))
    ensures var s := JavaSession(id, time, ip, city);
      && (r.0.Pass? <==>
            && faults.count.None? && faults.put.None?
            && (Count(t, id) <= MaxSessionsPerUser || (faults.query.None? && faults.delete.None?)))
      && (r.0.Pass? ==> r.1 == CountThenWriteThenTrim(t, id, time, s))
      && (r.0.Fail? ==> r.0.error == SaveSessionProcessException)
      && (faults.count.Some? || faults.put.Some? ==> r.1 == t)
      && (faults.count.None? && faults.put.None? && r.0.Fail? ==> r.1 == Put(t, id, time, s))
  {
    if faults.count.Some? then (Fail(SaveSessionProcessException), t)
    else if faults.put.Some? then (Fail(SaveSessionProcessException), t)
    else
      var s := JavaSession(id, time, ip, city);
      var written := Put(t, id, time, s);
      if Count(t, id) <= MaxSessionsPerUser then (Pass, written)
      else
        PutCount(t, id, time, s);
        if faults.query.Some? || faults.delete.Some? then (Fail(SaveSessionProcessException), written)
        else (Pass, DeleteOldest(written, id))
  }

  class DynamoRepository {
    var table: Table<JavaSession>

    ghost predicate Valid()
      reads this
    {
      WellKeyed(table)
    }

    constructor (initial: Table<JavaSession>)
      requires WellKeyed(initial)
      ensures Valid() && table == initial
    {
      table := initial;
    }

    /** `saveSession(sessionId, ip, city, timestamp)`; `faults` says which table calls throw. */
    method SaveSession(sessionId: string, ip: string, city: string, timestamp: string, faults: Faults) returns (r: Outcome<RepositoryError>)
      requires Valid()
      modifies this
      ensures Valid()
      ensures (r, table) == CountWriteTrim(old(table), sessionId, ip, city, timestamp, faults)
    {
      var sessionCount := CountSessionsById(sessionId, faults.count);
      if sessionCount.Failure? {
        return Fail(SaveSessionProcessException);
      }
      var saved := SaveInTable(sessionId, ip, city, timestamp, faults.put);
      if saved.Fail? {
        return Fail(SaveSessionProcessException);
      }
      if sessionCount.value > MaxSessionsPerUser {
        PutCount(old(table), sessionId, timestamp, JavaSession(sessionId, timestamp, ip, city));
        var deleted := DeleteOldestSession(sessionId, faults.query, faults.delete);
        if deleted.Fail? {
          return Fail(SaveSessionProcessException);
        }
      }
      return Pass;
    }

    /** `saveInTable`: builds the bean and puts it under its keys; a failed put writes nothing. */
    method SaveInTable(sessionId: string, ip: string, city: string, timestamp: string, putFault: Option<string>)
      returns (r: Outcome<RepositoryError>)
      requires Valid()
      modifies this
      ensures Valid()
      ensures r.Fail? <==> putFault.Some?
      ensures r.Fail? ==> r.error == SaveSessionInTableException && table == old(table)
      ensures r.Pass? ==> table == Put(old(table), sessionId, timestamp, JavaSession(sessionId, timestamp, ip, city))
    {
      var session := JavaSession(sessionId, timestamp, ip, city);
      if putFault.Some? {
        return Fail(SaveSessionInTableException);
      }
      PutKeepsWellKeyed(table, session);
      table := Put(table, session.email, session.connectionTime, session);
      return Pass;
    }

    /** `countSessionsById`: a `Select.COUNT` query on the partition key. */
    method CountSessionsById(sessionId: string, countFault: Option<string>) returns (r: Result<nat, RepositoryError>)
      ensures r.Failure? <==> countFault.Some?
      ensures r.Failure? ==> r.error == CountSessionByIdException
      ensures r.Success? ==> r.value == |Partition(table, sessionId).Keys|
    {
      if countFault.Some? {
        return Failure(CountSessionByIdException);
      }
      return Success(Count(table, sessionId));
    }

    /** `deleteOldestSession`: a failed query is rethrown as a failed delete; an empty partition is left alone. */
    method DeleteOldestSession(sessionId: string, queryFault: Option<string>, deleteFault: Option<string>)
      returns (r: Outcome<RepositoryError>)
      requires Valid()
      modifies this
      ensures Valid()
      ensures r.Fail? <==> queryFault.Some? || (Count(old(table), sessionId) > 0 && deleteFault.Some?)
      ensures r.Fail? ==> r.error == DeleteOldestSessionException && table == old(table)
      ensures r.Pass? ==> table == DeleteOldest(old(table), sessionId)
    {
      var oldestSession := GetSession(sessionId, queryFault);
      if oldestSession.Failure? {
        return Fail(DeleteOldestSessionException);
      }
      if oldestSession.value.Some? {
        if deleteFault.Some? {
          return Fail(DeleteOldestSessionException);
        }
        var session := oldestSession.value.value;
        DeleteQueriedIsDeleteOldest(table, sessionId);
        table := Delete(table, session.email, session.connectionTime);
      }
      return Pass;
    }

    /** `getSession(sessionId)`: always ascending, so the oldest bean, or empty. */
    method GetSession(sessionId: string, queryFault: Option<string>) returns (r: Result<Option<JavaSession>, RepositoryError>)
      requires Valid()
      ensures r.Failure? <==> queryFault.Some?
      ensures r.Failure? ==> r.error == GetOldestSessionException
      ensures r.Success? ==> (r.value.None? <==> Count(table, sessionId) == 0)
      ensures r.Success? && r.value.Some? ==>
        && r.value.value.email == sessionId
        && IsFirst(r.value.value.connectionTime, Partition(table, sessionId).Keys, true)
        && Partition(table, sessionId)[r.value.value.connectionTime] == r.value.value
      ensures r.Success? ==> r.value == QueryFirst(table, sessionId, true)
    {
      if queryFault.Some? {
        return Failure(GetOldestSessionException);
      }
      return Success(QueryFirst(table, sessionId, true));
    }
  }

  // ---------------------------------------------------------------------
  // Properties
  // ---------------------------------------------------------------------

  /** A failed count stops the save before anything is written. */
  lemma CountFailureWritesNothing(t: Table<JavaSession>, id: string, ip: string, city: string, time: string, faults: Faults)
    requires faults.count.Some?
    ensures CountWriteTrim(t, id, ip, city, time, faults) == (Fail(SaveSessionProcessException), t)
  {
  }

  /**
   * The trim looks at the count taken before the write, so a user can hold
   * six sessions: the effective cap is six, and five stored sessions plus a
   * new one stay six.
   */
  lemma SaveKeepsSix(t: Table<JavaSession>, id: string, ip: string, city: string, time: string, faults: Faults)
    requires CountWriteTrim(t, id, ip, city, time, faults).0.Pass?
    requires Count(t, id) <= MaxSessionsPerUser + 1
    ensures Count(CountWriteTrim(t, id, ip, city, time, faults).1, id) <= MaxSessionsPerUser + 1
    ensures time !in Partition(t, id) && Count(t, id) == MaxSessionsPerUser
            ==> Count(CountWriteTrim(t, id, ip, city, time, faults).1, id) == MaxSessionsPerUser + 1
  {
    var s := JavaSession(id, time, ip, city);
    CountThenWriteThenTrimKeepsSix(t, id, time, s);
    PutCount(t, id, time, s);
  }

  /**
   * A failed delete, by contrast, leaves the new session written and nothing
   * trimmed: a user already at six reaches seven.
   */
  lemma FailedTrimExceedsSix(t: Table<JavaSession>, id: string, ip: string, city: string, time: string, faults: Faults)
    requires Count(t, id) == MaxSessionsPerUser + 1 && time !in Partition(t, id)
    requires faults.count.None? && faults.put.None? && faults.delete.Some?
    ensures CountWriteTrim(t, id, ip, city, time, faults).0 == Fail(SaveSessionProcessException)
    ensures Count(CountWriteTrim(t, id, ip, city, time, faults).1, id) == MaxSessionsPerUser + 2
  {
    PutCount(t, id, time, JavaSession(id, time, ip, city));
  }

  /**
   * The two Java revisions disagree on the same input: from five stored
   * sessions, a new session with no failures leaves five under the `session`
   * revision and six under this one.
   */
  lemma RevisionsDisagreeAtFive(t: Table<JavaSession>, id: string, ip: string, city: string, time: string)
    requires Count(t, id) == MaxSessionsPerUser && time !in Partition(t, id)
    ensures var noFaults := Faults(None, None, None, None);
      && JavaSessionRepository.WriteCountTrim(t, id, ip, city, time, noFaults) == (Pass, WriteThenTrim(t, id, time, JavaSession(id, time, ip, city)))
      && CountWriteTrim(t, id, ip, city, time, noFaults) == (Pass, CountThenWriteThenTrim(t, id, time, JavaSession(id, time, ip, city)))
      && Count(JavaSessionRepository.WriteCountTrim(t, id, ip, city, time, noFaults).1, id) == MaxSessionsPerUser
      && Count(CountWriteTrim(t, id, ip, city, time, noFaults).1, id) == MaxSessionsPerUser + 1
  {
    PoliciesDifferAtFive(t, id, time, JavaSession(id, time, ip, city));
  }

  /** Below the limit the two revisions agree: no trim, the same single write. */
  lemma RevisionsAgreeBelowLimit(t: Table<JavaSession>, id: string, ip: string, city: string, time: string)
    requires Count(t, id) < MaxSessionsPerUser
    ensures var noFaults := Faults(None, None, None, None);
      JavaSessionRepository.WriteCountTrim(t, id, ip, city, time, noFaults) == CountWriteTrim(t, id, ip, city, time, noFaults)
  {
    PutCount(t, id, time, JavaSession(id, time, ip, city));
  }
}
