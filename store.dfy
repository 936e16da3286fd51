/**
 * The DynamoDB session table, shared by every repository variant: items
 * keyed by the partition key `id` and the sort key `connection_time`, read
 * back per partition in sort-key order. The trim policies of the three
 * repository variants are stated here as functions over the table.
 */
module Store {
  import opened Wrappers

  // ---------------------------------------------------------------------
  // Sort-key order
  // ---------------------------------------------------------------------

  /**
   * The order DynamoDB gives string sort keys: byte-wise on UTF-8, which is
   * the order of code points, compared lexicographically.
   */
  predicate LexLe(a: string, b: string)
    decreases |a|
  {
    |a| == 0 || (|b| > 0 && (a[0] < b[0] || (a[0] == b[0] && LexLe(a[1..], b[1..]))))
  }

  lemma {:induction false} LexLeReflexive(a: string)
    ensures LexLe(a, a)
    decreases |a|
  {
    if |a| > 0 {
      LexLeReflexive(a[1..]);
    }
  }

  lemma {:induction false} LexLeTotal(a: string, b: string)
    ensures LexLe(a, b) || LexLe(b, a)
    decreases |a|
  {
    if |a| > 0 && |b| > 0 && a[0] == b[0] {
      LexLeTotal(a[1..], b[1..]);
    }
  }

  lemma {:induction false} LexLeTransitive(a: string, b: string, c: string)
    requires LexLe(a, b) && LexLe(b, c)
    ensures LexLe(a, c)
    decreases |a|
  {
    if |a| > 0 && a[0] == b[0] && b[0] == c[0] {
      LexLeTransitive(a[1..], b[1..], c[1..]);
    }
  }

  lemma {:induction false} LexLeAntisymmetric(a: string, b: string)
    requires LexLe(a, b) && LexLe(b, a)
    ensures a == b
    decreases |a|
  {
    if |a| > 0 {
      LexLeAntisymmetric(a[1..], b[1..]);
      assert a == [a[0]] + a[1..] && b == [b[0]] + b[1..];
    }
  }

  /** The key that a query with `ScanIndexForward` = `ascending` and limit 1 returns. */
  predicate IsFirst(k: string, keys: set<string>, ascending: bool) {
    k in keys && forall k' :: k' in keys ==> if ascending then LexLe(k, k') else LexLe(k', k)
  }

  lemma {:induction false} FirstExists(keys: set<string>, ascending: bool)
    requires keys != {}
    ensures exists k :: IsFirst(k, keys, ascending)
    decreases |keys|
  {
    var x :| x in keys;
    if keys == {x} {
      LexLeReflexive(x);
      assert IsFirst(x, keys, ascending);
    } else {
      var rest := keys - {x};
      FirstExists(rest, ascending);
      var m :| IsFirst(m, rest, ascending);
      LexLeTotal(x, m);
      LexLeReflexive(x);
      if (ascending && LexLe(x, m)) || (!ascending && LexLe(m, x)) {
        forall k' | k' in keys ensures if ascending then LexLe(x, k') else LexLe(k', x) {
          if k' != x {
            if ascending { LexLeTransitive(x, m, k'); } else { LexLeTransitive(k', m, x); }
          }
        }
        assert IsFirst(x, keys, ascending);
      } else {
        assert IsFirst(m, keys, ascending);
      }
    }
  }

  lemma FirstUnique(k1: string, k2: string, keys: set<string>, ascending: bool)
    requires IsFirst(k1, keys, ascending) && IsFirst(k2, keys, ascending)
    ensures k1 == k2
  {
    if ascending {
      LexLeAntisymmetric(k1, k2);
    } else {
      LexLeAntisymmetric(k2, k1);
    }
  }

  lemma FirstUniqueAll(keys: set<string>, ascending: bool)
    ensures forall k1, k2 :: IsFirst(k1, keys, ascending) && IsFirst(k2, keys, ascending) ==> k1 == k2
  {
    forall k1, k2 | IsFirst(k1, keys, ascending) && IsFirst(k2, keys, ascending) ensures k1 == k2 {
      FirstUnique(k1, k2, keys, ascending);
    }
  }

  /** The first key in the requested order, `None` for no keys. */
  function First(keys: set<string>, ascending: bool): (r: Option<string>)
    ensures r.None? <==> keys == {}
    ensures r.Some? ==> IsFirst(r.value, keys, ascending)
  {
    if keys == {} then None
    else
      FirstExists(keys, ascending);
      FirstUniqueAll(keys, ascending);
      var k :| IsFirst(k, keys, ascending);
      Some(k)
  }

  // ---------------------------------------------------------------------
  // The table
  // ---------------------------------------------------------------------

  /** Partition key -> sort key -> item. */
  type Table<T> = map<string, map<string, T>>

  /** The items of one partition (`Query` with `id = :pk`). */
  function Partition<T>(t: Table<T>, id: string): map<string, T> {
    if id in t then t[id] else map[]
  }

  /** `Select: COUNT` over one partition. */
  function Count<T>(t: Table<T>, id: string): nat {
    |Partition(t, id)|
  }

  /** `PutItem`: creates or replaces the item at (id, time). */
  function Put<T>(t: Table<T>, id: string, time: string, item: T): (r: Table<T>)
    ensures Partition(r, id) == Partition(t, id)[time := item]
    ensures forall other :: other != id ==> Partition(r, other) == Partition(t, other)
  {
    t[id := Partition(t, id)[time := item]]
  }

  /** `DeleteItem` at (id, time); deleting a missing key changes nothing. */
  function Delete<T>(t: Table<T>, id: string, time: string): (r: Table<T>)
    ensures Partition(r, id) == Partition(t, id) - {time}
    ensures forall other :: other != id ==> Partition(r, other) == Partition(t, other)
  {
    if id in t then t[id := t[id] - {time}] else t
  }

  /** The sort key of the oldest item of a partition (ascending, limit 1). */
  function Oldest<T>(t: Table<T>, id: string): Option<string> {
    First(Partition(t, id).Keys, true)
  }

  /** The sort key of the newest item of a partition (descending, limit 1). */
  function Newest<T>(t: Table<T>, id: string): Option<string> {
    First(Partition(t, id).Keys, false)
  }

  /** Find the oldest item and delete exactly its key; nothing when the partition is empty. */
  function DeleteOldest<T>(t: Table<T>, id: string): Table<T> {
    match Oldest(t, id)
    case None => t
    case Some(k) => Delete(t, id, k)
  }

  /**
   * The failure, if any, of each table call one save may make (the write,
   * the count, the query for the oldest item, its deletion), as the
   * message of the exception the SDK throws.
   */
  datatype Faults = Faults(put: Option<string>, count: Option<string>, query: Option<string>, delete: Option<string>)

  const MaxSessionsPerUser: nat := 5

  /** JavaScript service and Java `session` repository: write, count, then trim once if over the limit. */
  function WriteThenTrim<T>(t: Table<T>, id: string, time: string, item: T): Table<T> {
    var written := Put(t, id, time, item);
    if Count(written, id) > MaxSessionsPerUser then DeleteOldest(written, id) else written
  }

  /** Java `savesession` repository: count first, write, then trim once if the earlier count was over the limit. */
  function CountThenWriteThenTrim<T>(t: Table<T>, id: string, time: string, item: T): Table<T> {
    var before := Count(t, id);
    var written := Put(t, id, time, item);
    if before > MaxSessionsPerUser then DeleteOldest(written, id) else written
  }

  // ---------------------------------------------------------------------
  // Properties
  // ---------------------------------------------------------------------

  lemma MapRemoveCount<T>(m: map<string, T>, k: string)
    requires k in m
    ensures |m - {k}| == |m| - 1
  {
    assert (m - {k}).Keys == m.Keys - {k};
    assert |m.Keys - {k}| == |m.Keys| - 1;
  }

  lemma MapAddCount<T>(m: map<string, T>, k: string, v: T)
    ensures |m[k := v]| == if k in m then |m| else |m| + 1
  {
    if k !in m {
      assert m[k := v].Keys == m.Keys + {k};
    } else {
      assert m[k := v].Keys == m.Keys;
    }
  }

  /** A write adds one item to its partition, or none when the key was already there. */
  lemma PutCount<T>(t: Table<T>, id: string, time: string, item: T)
    ensures Count(Put(t, id, time, item), id) == if time in Partition(t, id) then Count(t, id) else Count(t, id) + 1
  {
    MapAddCount(Partition(t, id), time, item);
  }

  /**
   * Deleting the oldest removes exactly the least sort key of that partition:
   * every remaining key is later, and no other item or partition changes.
   */
  lemma DeleteOldestExact<T>(t: Table<T>, id: string)
    ensures Oldest(t, id).None? ==> DeleteOldest(t, id) == t
    ensures Oldest(t, id).Some? ==>
      var k := Oldest(t, id).value;
      && k in Partition(t, id)
      && Partition(DeleteOldest(t, id), id) == Partition(t, id) - {k}
      && Count(DeleteOldest(t, id), id) == Count(t, id) - 1
      && (forall k' :: k' in Partition(DeleteOldest(t, id), id) ==> LexLe(k, k'))
    ensures forall other :: other != id ==> Partition(DeleteOldest(t, id), other) == Partition(t, other)
  {
    if Oldest(t, id).Some? {
      MapRemoveCount(Partition(t, id), Oldest(t, id).value);
    }
  }

  /** With one writer, write-then-trim never lets a partition grow past the limit (or past its old size, if it was already over). */
  lemma WriteThenTrimKeepsCap<T>(t: Table<T>, id: string, time: string, item: T)
    ensures Count(WriteThenTrim(t, id, time, item), id) <= if Count(t, id) <= MaxSessionsPerUser then MaxSessionsPerUser else Count(t, id)
    ensures forall other :: other != id ==> Partition(WriteThenTrim(t, id, time, item), other) == Partition(t, other)
  {
    var written := Put(t, id, time, item);
    PutCount(t, id, time, item);
    DeleteOldestExact(written, id);
  }

  /** The newest session survives the trim: a key later than every stored one is never the one removed. */
  lemma WriteThenTrimKeepsNewest<T>(t: Table<T>, id: string, time: string, item: T)
    requires forall k :: k in Partition(t, id) ==> LexLe(k, time) && k != time
    ensures time in Partition(WriteThenTrim(t, id, time, item), id)
    ensures Partition(WriteThenTrim(t, id, time, item), id)[time] == item
  {
    var written := Put(t, id, time, item);
    if Count(written, id) > MaxSessionsPerUser {
      DeleteOldestExact(written, id);
      var k := Oldest(written, id).value;
      if k == time {
        PutCount(t, id, time, item);
        var other :| other in Partition(t, id);
        assert LexLe(time, other);
        LexLeAntisymmetric(time, other);
      }
    }
  }

  /** Counting before writing lets a partition reach six items: the effective cap is six, not five. */
  lemma CountThenWriteThenTrimKeepsSix<T>(t: Table<T>, id: string, time: string, item: T)
    requires Count(t, id) <= MaxSessionsPerUser + 1
    ensures Count(CountThenWriteThenTrim(t, id, time, item), id) <= MaxSessionsPerUser + 1
    ensures time !in Partition(t, id) && Count(t, id) == MaxSessionsPerUser
            ==> Count(CountThenWriteThenTrim(t, id, time, item), id) == MaxSessionsPerUser + 1
  {
    var written := Put(t, id, time, item);
    PutCount(t, id, time, item);
    DeleteOldestExact(written, id);
  }

  /** The two policies differ exactly by that sixth item: from five stored sessions, a new key leaves five under one and six under the other. */
  lemma PoliciesDifferAtFive<T>(t: Table<T>, id: string, time: string, item: T)
    requires Count(t, id) == MaxSessionsPerUser && time !in Partition(t, id)
    ensures Count(WriteThenTrim(t, id, time, item), id) == MaxSessionsPerUser
    ensures Count(CountThenWriteThenTrim(t, id, time, item), id) == MaxSessionsPerUser + 1
  {
    var written := Put(t, id, time, item);
    PutCount(t, id, time, item);
    DeleteOldestExact(written, id);
  }
}
