/**
 * What the two Java `DynamoRepository` revisions share: the `Session` bean
 * they store, the exceptions they throw, and the `getSession` query.
 */
module JavaSessionTable {
  import opened Wrappers
  import opened Store

  /** The `Session` bean: hash key `email` (attribute `id`), range key `connectionTime` (attribute `connection_time`). */
  datatype JavaSession = JavaSession(email: string, connectionTime: string, ip: string, city: string)

  /** The repository exceptions of `helper/exception(s)`. */
  datatype RepositoryError = SaveSessionInTableException | CountSessionByIdException | GetOldestSessionException | DeleteOldestSessionException | SaveSessionProcessException

  /** Every stored bean sits under its own key attributes. */
  predicate WellKeyed(t: Table<JavaSession>) {
    forall id, time :: id in t && time in t[id] ==> t[id][time].email == id && t[id][time].connectionTime == time
  }

  lemma PutKeepsWellKeyed(t: Table<JavaSession>, s: JavaSession)
    requires WellKeyed(t)
    ensures WellKeyed(Put(t, s.email, s.connectionTime, s))
  {
    var r: Table<JavaSession> := Put(t, s.email, s.connectionTime, s);
    forall i: string, k: string | i in r && k in r[i] ensures r[i][k].email == i && r[i][k].connectionTime == k {
      assert r[i] == Partition(r, i);
      if i != s.email {
        assert Partition(t, i) == r[i];
      }
    }
  }

  lemma DeleteKeepsWellKeyed(t: Table<JavaSession>, id: string, time: string)
    requires WellKeyed(t)
    ensures WellKeyed(Delete(t, id, time))
  {
  }

  lemma DeleteOldestKeepsWellKeyed(t: Table<JavaSession>, id: string)
    requires WellKeyed(t)
    ensures WellKeyed(DeleteOldest(t, id))
  {
  }

  /**
   * The bean a query on the hash key with `scanIndexForward(ascending)` and
   * limit 1 returns: the first of the partition in that sort-key order.
   */
  function QueryFirst(t: Table<JavaSession>, id: string, ascending: bool): (r: Option<JavaSession>)
    ensures r.None? <==> Count(t, id) == 0
    ensures r.Some? ==> r.value in Partition(t, id).Values
    ensures WellKeyed(t) && r.Some? ==>
      && r.value.email == id
      && IsFirst(r.value.connectionTime, Partition(t, id).Keys, ascending)
  {
    match First(Partition(t, id).Keys, ascending)
    case None => None
    case Some(k) => Some(Partition(t, id)[k])
  }

  /** Deleting the bean the ascending query returns, by its own keys, is deleting the oldest. */
  lemma DeleteQueriedIsDeleteOldest(t: Table<JavaSession>, id: string)
    requires WellKeyed(t) && Count(t, id) > 0
    ensures var s := QueryFirst(t, id, true).value;
      Delete(t, s.email, s.connectionTime) == DeleteOldest(t, id)
  {
    var s := QueryFirst(t, id, true).value;
    FirstUnique(s.connectionTime, Oldest(t, id).value, Partition(t, id).Keys, true);
  }

  /**
   * Timestamps have a resolution of one second, so a second save in the
   * same second lands on the same key: it replaces the first bean and the
   * partition does not grow.
   */
  lemma SameSecondReplaces(t: Table<JavaSession>, s: JavaSession)
    requires s.connectionTime in Partition(t, s.email)
    ensures Count(Put(t, s.email, s.connectionTime, s), s.email) == Count(t, s.email)
    ensures Partition(Put(t, s.email, s.connectionTime, s), s.email)[s.connectionTime] == s
  {
    PutCount(t, s.email, s.connectionTime, s);
  }
}
