/**
 * The DynamoDB repository of src/repository/dynamoRepository.js. The table
 * itself is the `table` field; each SDK call that may fail is given its
 * failure, if any, as an `Option<string>` holding the error's message.
 */
module JsDynamoRepository {
  import opened Wrappers
  import opened Text
  import opened JsValues
  import opened InputValidators
  import opened SessionModel
  import opened Store

  const TableNameRequired := "DYNAMO_TABLE_NAME environment variable is required"
  const SessionDataInvalid := "Session data is invalid"

  /** Every stored item sits under its own key attributes, as DynamoDB guarantees. */
  predicate WellKeyed(t: Table<Item>) {
    forall id, time :: id in t && time in t[id] ==> t[id][time].id == Str(id) && t[id][time].connection_time == time
  }

  lemma PutKeepsWellKeyed(t: Table<Item>, id: string, time: string, item: Item)
    requires WellKeyed(t) && item.id == Str(id) && item.connection_time == time
    ensures WellKeyed(Put(t, id, time, item))
  {
    var r: Table<Item> := Put(t, id, time, item);
    forall i: string, k: string | i in r && k in r[i] ensures r[i][k].id == Str(i) && r[i][k].connection_time == k {
      assert r[i] == Partition(r, i);
      if i != id {
        assert Partition(t, i) == r[i];
      }
    }
  }

  lemma DeleteKeepsWellKeyed(t: Table<Item>, id: string, time: string)
    requires WellKeyed(t)
    ensures WellKeyed(Delete(t, id, time))
  {
  }

  /**
   * What `saveSession` writes, or the message of the error it throws: the
   * TypeError of a missing coordinates object, an invalid session, or a
   * failed `PutCommand`, each wrapped by `handleError`.
   */
  function SaveSessionResult(sessionId: string, ip: Value, city: Value, timezone: Value, country: Value,
                             coordinates: Value, now: string, putFault: Option<string>): (r: Result<Item, string>)
    ensures r.Failure? ==> StartsWith(r.error, "Error in saveSession: ")
    ensures (coordinates.Undefined? || coordinates.Null?) ==> r == Failure(HandleError("saveSession", CoordinatesTypeError(coordinates)))
    ensures r.Success? ==>
      && r.value.id == Str(sessionId) && r.value.connection_time == now
      && Success(FromDynamoItemFixed(r.value)) == NewSession(Str(sessionId), ip, city, timezone, country, coordinates, now)
      && Truthy(IsValid(FromDynamoItemFixed(r.value)))
  {
    match NewSession(Str(sessionId), ip, city, timezone, country, coordinates, now)
    case Failure(e) => Failure(HandleError("saveSession", e))
    case Success(session) =>
      if !Truthy(IsValid(session)) then Failure(HandleError("saveSession", SessionDataInvalid))
      else if putFault.Some? then Failure(HandleError("saveSession", putFault.value))
      else Success(ToDynamoItem(session))
  }

  /** A session is written exactly when every field is truthy, the coordinates object exists and the write does not fail. */
  lemma SaveSessionSucceedsIff(sessionId: string, ip: Value, city: Value, timezone: Value, country: Value,
                               coordinates: Value, now: string, putFault: Option<string>)
    ensures SaveSessionResult(sessionId, ip, city, timezone, country, coordinates, now, putFault).Success?
            <==> && !coordinates.Undefined? && !coordinates.Null?
                 && sessionId != [] && now != [] && Truthy(ip) && Truthy(city) && Truthy(timezone) && Truthy(country)
                 && Truthy(Get(coordinates, "latitude")) && Truthy(Get(coordinates, "longitude"))
                 && putFault.None?
  {
  }

  /** An invalid session is refused before any write, with the same message whatever the field at fault. */
  lemma InvalidSessionMessage(sessionId: string, ip: Value, city: Value, timezone: Value, country: Value,
                              coordinates: Value, now: string, putFault: Option<string>)
    requires coordinates.Obj? && !Truthy(Get(coordinates, "latitude"))
    ensures SaveSessionResult(sessionId, ip, city, timezone, country, coordinates, now, putFault)
            == Failure(HandleError("saveSession", SessionDataInvalid))
  {
    var session := NewSession(Str(sessionId), ip, city, timezone, country, coordinates, now).value;
    assert !Truthy(IsValid(session));
  }

  /** The item `getOldestSession` returns: the first of the partition in ascending sort-key order, if any. */
  function OldestSessionResult(t: Table<Item>, id: string, queryFault: Option<string>): (r: Result<Option<Item>, string>)
    ensures r.Failure? <==> queryFault.Some?
    ensures r.Failure? ==> r.error == HandleError("getOldestSession", queryFault.value)
    ensures r.Success? ==> (r.value.None? <==> Count(t, id) == 0)
    ensures r.Success? && r.value.Some? ==> r.value.value in Partition(t, id).Values
    ensures WellKeyed(t) && r.Success? && r.value.Some? ==>
      && r.value.value.id == Str(id)
      && IsFirst(r.value.value.connection_time, Partition(t, id).Keys, true)
  {
    if queryFault.Some? then Failure(HandleError("getOldestSession", queryFault.value))
    else
      match Oldest(t, id)
      case None => Success(None)
      case Some(k) => Success(Some(Partition(t, id)[k]))
  }

  /** How `deleteOldestSession` completes: a failed query is wrapped twice, a failed delete once. */
  function DeleteOldestOutcome(t: Table<Item>, id: string, queryFault: Option<string>, deleteFault: Option<string>): (r: Outcome<string>)
    ensures r.Pass? <==> queryFault.None? && (Count(t, id) == 0 || deleteFault.None?)
    ensures queryFault.Some? ==> r.error == HandleError("deleteOldestSession", HandleError("getOldestSession", queryFault.value))
    ensures queryFault.None? && r.Fail? ==> r.error == HandleError("deleteOldestSession", deleteFault.value)
  {
    if queryFault.Some? then Fail(HandleError("deleteOldestSession", HandleError("getOldestSession", queryFault.value)))
    else if Oldest(t, id).Some? && deleteFault.Some? then Fail(HandleError("deleteOldestSession", deleteFault.value))
    else Pass
  }

  class DynamoRepository {
    const tableName: string
    var table: Table<Item>

    ghost predicate Valid()
      reads this
    {
      tableName != [] && WellKeyed(table)
    }

    constructor (tableName: string, initial: Table<Item>)
      requires tableName != [] && WellKeyed(initial)
      ensures Valid() && this.tableName == tableName && table == initial
    {
      this.tableName := tableName;
      table := initial;
    }

    /** `new DynamoRepository(client)` with `DYNAMO_TABLE_NAME` = `tableName`: a missing or empty name throws. */
    static method Create(tableName: Option<string>, initial: Table<Item>) returns (r: Result<DynamoRepository, string>)
      requires WellKeyed(initial)
      ensures r.Failure? <==> tableName.None? || tableName.value == []
      ensures r.Failure? ==> r.error == TableNameRequired
      ensures r.Success? ==> fresh(r.value) && r.value.Valid() && Some(r.value.tableName) == tableName && r.value.table == initial
    {
      if tableName.None? || tableName.value == [] {
        return Failure(TableNameRequired);
      }
      var repository := new DynamoRepository(tableName.value, initial);
      return Success(repository);
    }

    /** `saveSession`: builds the session at the instant `now`, checks it and puts its item. */
    method SaveSession(sessionId: string, ip: Value, city: Value, timezone: Value, country: Value,
                       coordinates: Value, now: string, putFault: Option<string>) returns (r: Outcome<string>)
      requires Valid()
      modifies this
      ensures Valid()
      ensures var result := SaveSessionResult(sessionId, ip, city, timezone, country, coordinates, now, putFault);
        && (r.Fail? <==> result.Failure?)
        && (r.Fail? ==> r.error == result.error && table == old(table))
        && (r.Pass? ==> table == Put(old(table), sessionId, now, result.value))
    {
      var created := NewSession(Str(sessionId), ip, city, timezone, country, coordinates, now);
      if created.Failure? {
        return Fail(HandleError("saveSession", created.error));
      }
      var session := created.value;
      if !Truthy(IsValid(session)) {
        return Fail(HandleError("saveSession", SessionDataInvalid));
      }
      if putFault.Some? {
        return Fail(HandleError("saveSession", putFault.value));
      }
      var item := ToDynamoItem(session);
      PutKeepsWellKeyed(table, item.id.s, item.connection_time, item);
      table := Put(table, item.id.s, item.connection_time, item);
      return Pass;
    }

    /** `countSessionsById`: the number of items in the partition. */
    method CountSessionsById(sessionId: string, countFault: Option<string>) returns (r: Result<nat, string>)
      ensures countFault.Some? ==> r == Failure(HandleError("countSessionsById", countFault.value))
      ensures countFault.None? ==> r == Success(Count(table, sessionId))
    {
      if countFault.Some? {
        return Failure(HandleError("countSessionsById", countFault.value));
      }
      return Success(|Partition(table, sessionId)|);
    }

    /** `getOldestSession` */
    method GetOldestSession(sessionId: string, queryFault: Option<string>) returns (r: Result<Option<Item>, string>)
      ensures r == OldestSessionResult(table, sessionId, queryFault)
    {
      if queryFault.Some? {
        return Failure(HandleError("getOldestSession", queryFault.value));
      }
      var oldest := Oldest(table, sessionId);
      if oldest.None? {
        return Success(None);
      }
      return Success(Some(table[sessionId][oldest.value]));
    }

    /** `deleteOldestSession`: looks up the oldest item and deletes it by its own key attributes. */
    method DeleteOldestSession(sessionId: string, queryFault: Option<string>, deleteFault: Option<string>) returns (r: Outcome<string>)
      requires Valid()
      modifies this
      ensures Valid()
      ensures r == DeleteOldestOutcome(old(table), sessionId, queryFault, deleteFault)
      ensures table == if r.Pass? then DeleteOldest(old(table), sessionId) else old(table)
    {
      var oldestSession := GetOldestSession(sessionId, queryFault);
      if oldestSession.Failure? {
        return Fail(HandleError("deleteOldestSession", oldestSession.error));
      }
      if oldestSession.value.Some? {
        var item := oldestSession.value.value;
        if deleteFault.Some? {
          return Fail(HandleError("deleteOldestSession", deleteFault.value));
        }
        FirstUnique(item.connection_time, Oldest(table, sessionId).value, Partition(table, sessionId).Keys, true);
        table := Delete(table, item.id.s, item.connection_time);
      }
      return Pass;
    }
  }
}
