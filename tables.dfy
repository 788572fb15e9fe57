/** A MySQL table with an `id INT AUTO_INCREMENT PRIMARY KEY` column, as a value: its rows in
    insertion order and the next auto-increment value. The statements the persistence layer
    issues by id (`INSERT`, `UPDATE ... WHERE id = ?`, `DELETE ... WHERE id = ?`,
    `SELECT ... WHERE id = ? LIMIT 1`) are defined here once for every table. */
module Tables {
  import opened Wrappers
  import opened Seqs

  /** One row: the primary key and the other columns. */
  datatype Row<T> = Row(id: nat, fields: T)

  /** All ids distinct (primary key) and below the auto-increment counter, which starts at 1. */
  ghost predicate UniqueIds<T>(rows: seq<Row<T>>) {
    forall i, j :: 0 <= i < j < |rows| ==> rows[i].id != rows[j].id
  }

  datatype Table<T> = Table(rows: seq<Row<T>>, nextId: nat) {

    ghost predicate Valid() {
      && nextId >= 1
      && (forall i :: 0 <= i < |rows| ==> 1 <= rows[i].id < nextId)
      && UniqueIds(rows)
    }

    /** The row with this id, if any. */
    function Find(id: nat): (r: Option<T>)
      ensures r.Some? <==> exists i :: 0 <= i < |rows| && rows[i].id == id
      ensures r.Some? ==> Row(id, r.value) in rows
      ensures Valid() ==> forall i :: 0 <= i < |rows| && rows[i].id == id ==> r == Some(rows[i].fields)
    {
      match FirstIndex(rows, (x: Row<T>) => x.id == id)
      case None => None
      case Some(i) => Some(rows[i].fields)
    }

    /** `INSERT`: a new row at the end, keyed by the next auto-increment value. */
    function Insert(x: T): (t: Table<T>)
      ensures Valid() ==> t.Valid()
      ensures Valid() ==> t.Find(nextId) == Some(x)
      ensures |t.rows| == |rows| + 1 && t.rows[..|rows|] == rows
      ensures t.nextId == nextId + 1
    {
      var t := Table(rows + [Row(nextId, x)], nextId + 1);
      assert t.rows[|rows|] == Row(nextId, x);
      t
    }

    /** `UPDATE ... SET ... WHERE id = ?`: `change` applied to the row with that id. */
    function Update(id: nat, change: T -> T): (t: Table<T>)
      ensures Valid() ==> t.Valid()
      ensures |t.rows| == |rows| && t.nextId == nextId
      ensures forall i :: 0 <= i < |rows| ==> t.rows[i].id == rows[i].id
      ensures forall i :: 0 <= i < |rows| && rows[i].id == id ==> t.rows[i].fields == change(rows[i].fields)
      ensures forall i :: 0 <= i < |rows| && rows[i].id != id ==> t.rows[i] == rows[i]
    {
      Table(UpdateRows(rows, id, change), nextId)
    }

    /** `DELETE ... WHERE id = ?`: every other row stays, in the same order. */
    function Delete(id: nat): (t: Table<T>)
      ensures Valid() ==> t.Valid()
      ensures t.nextId == nextId
      ensures forall i :: 0 <= i < |t.rows| ==> t.rows[i] in rows && t.rows[i].id != id
      ensures forall i :: 0 <= i < |rows| && rows[i].id != id ==> rows[i] in t.rows
      ensures |t.rows| == |rows| - Count(rows, (x: Row<T>) => x.id == id)
      ensures Valid() ==> |t.rows| == |rows| - (if Find(id).Some? then 1 else 0)
    {
      var keep := (x: Row<T>) => x.id != id;
      var kept := Filter(rows, keep);
      FilterComplementLength(rows, keep, (x: Row<T>) => x.id == id);
      FilterKeepsUniqueIds(rows, keep);
      CountOfId(rows, id);
      Table(kept, nextId)
    }
  }

  function Empty<T>(): (t: Table<T>)
    ensures t.Valid() && t.rows == []
  {
    Table([], 1)
  }

  function UpdateRows<T>(rows: seq<Row<T>>, id: nat, change: T -> T): (r: seq<Row<T>>)
    ensures |r| == |rows|
    ensures forall i :: 0 <= i < |rows| ==> r[i].id == rows[i].id
    ensures forall i :: 0 <= i < |rows| && rows[i].id == id ==> r[i].fields == change(rows[i].fields)
    ensures forall i :: 0 <= i < |rows| && rows[i].id != id ==> r[i] == rows[i]
  {
    if rows == [] then []
    else
      var head := if rows[0].id == id then Row(id, change(rows[0].fields)) else rows[0];
      [head] + UpdateRows(rows[1..], id, change)
  }

  /** Updating a valid table by the id of its `i`-th row changes that row only. */
  lemma UpdateAt<T>(t: Table<T>, i: nat, change: T -> T)
    requires t.Valid() && i < |t.rows|
    ensures var r := t.Update(t.rows[i].id, change);
      && r.rows[i] == Row(t.rows[i].id, change(t.rows[i].fields))
      && forall j :: 0 <= j < |t.rows| && j != i ==> r.rows[j] == t.rows[j]
  {
  }

  lemma {:induction false} FilterKeepsUniqueIds<T>(rows: seq<Row<T>>, keep: Row<T> -> bool)
    ensures UniqueIds(rows) ==> UniqueIds(Filter(rows, keep))
  {
    if rows != [] && UniqueIds(rows) {
      FilterKeepsUniqueIds(rows[1..], keep);
      var tail := Filter(rows[1..], keep);
      forall k | 0 <= k < |tail| ensures tail[k].id != rows[0].id {
        var j :| 0 <= j < |rows[1..]| && rows[1..][j] == tail[k];
        assert rows[j + 1] == tail[k];
      }
    }
  }

  /** With distinct ids, a present id is carried by exactly one row. */
  lemma CountOfId<T>(rows: seq<Row<T>>, id: nat)
    ensures UniqueIds(rows) && (exists i :: 0 <= i < |rows| && rows[i].id == id) ==>
            Count(rows, (x: Row<T>) => x.id == id) == 1
  {
    var p := (x: Row<T>) => x.id == id;
    if UniqueIds(rows) {
      assert AtMostOne(rows, p);
      CountAtMostOne(rows, p);
    }
  }

  // ----- rows looked up by a key other than the id -----

  /** The rows whose `key` column(s) equal `k`. */
  function HasKey<T, K(==)>(key: T -> K, k: K): Row<T> -> bool {
    (r: Row<T>) => key(r.fields) == k
  }

  /** No two rows share a key: a UNIQUE index, or an invariant that only the writers keep. */
  ghost predicate UniqueKeys<T, K>(rows: seq<Row<T>>, key: T -> K) {
    forall i, j :: 0 <= i < j < |rows| ==> key(rows[i].fields) != key(rows[j].fields)
  }

  /** `SELECT ... WHERE <key> = k LIMIT 1`: the first row with that key. */
  function Lookup<T, K(==)>(rows: seq<Row<T>>, key: T -> K, k: K): (r: Option<T>)
    ensures r.Some? ==> key(r.value) == k && exists i :: 0 <= i < |rows| && rows[i].fields == r.value
    ensures r.None? <==> forall i :: 0 <= i < |rows| ==> key(rows[i].fields) != k
  {
    match FirstIndex(rows, HasKey(key, k))
    case None => None
    case Some(i) => Some(rows[i].fields)
  }

  /** Look the key up; if a row has it, `UPDATE` that row by its id with `change`, and
      otherwise `INSERT` the row `added`. */
  function UpsertBy<T, K(==)>(t: Table<T>, key: T -> K, k: K, change: T -> T, added: T): Table<T> {
    match FirstIndex(t.rows, HasKey(key, k))
    case Some(i) => t.Update(t.rows[i].id, change)
    case None => t.Insert(added)
  }

  /** When the key is present, only its row changes and no row is added. */
  lemma UpsertByFound<T, K>(t: Table<T>, key: T -> K, k: K, change: T -> T, added: T, i: nat)
    requires t.Valid() && FirstIndex(t.rows, HasKey(key, k)) == Some(i)
    ensures var r := UpsertBy(t, key, k, change, added);
      && r.nextId == t.nextId && |r.rows| == |t.rows|
      && r.rows[i] == Row(t.rows[i].id, change(t.rows[i].fields))
      && forall j :: 0 <= j < |t.rows| && j != i ==> r.rows[j] == t.rows[j]
  {
    UpdateAt(t, i, change);
  }

  /** When the key is absent, exactly the row `added` is appended, under the next id. */
  lemma UpsertByMissing<T, K>(t: Table<T>, key: T -> K, k: K, change: T -> T, added: T)
    requires forall j :: 0 <= j < |t.rows| ==> key(t.rows[j].fields) != k
    ensures UpsertBy(t, key, k, change, added).rows == t.rows + [Row(t.nextId, added)]
  {
  }

  /** From a table with unique keys, an upsert whose new row has the key and whose change
      keeps keys leaves the keys unique and exactly one row with the key, holding the changed
      old row or the new one. */
  lemma UpsertByKeepsKeysUnique<T, K>(t: Table<T>, key: T -> K, k: K, change: T -> T, added: T)
    requires t.Valid() && UniqueKeys(t.rows, key)
    requires key(added) == k
    requires forall i :: 0 <= i < |t.rows| ==> key(change(t.rows[i].fields)) == key(t.rows[i].fields)
    ensures var r := UpsertBy(t, key, k, change, added);
      && r.Valid() && UniqueKeys(r.rows, key)
      && Lookup(r.rows, key, k) == Some(if Lookup(t.rows, key, k).Some? then change(Lookup(t.rows, key, k).value) else added)
      && Count(r.rows, HasKey(key, k)) == 1
  {
    match FirstIndex(t.rows, HasKey(key, k))
    case Some(i) => UpsertByFoundKeepsKeysUnique(t, key, k, change, added, i);
    case None => UpsertByMissingKeepsKeysUnique(t, key, k, change, added);
  }

  lemma UpsertByFoundKeepsKeysUnique<T, K>(t: Table<T>, key: T -> K, k: K, change: T -> T, added: T, i: nat)
    requires t.Valid() && UniqueKeys(t.rows, key)
    requires forall i :: 0 <= i < |t.rows| ==> key(change(t.rows[i].fields)) == key(t.rows[i].fields)
    requires FirstIndex(t.rows, HasKey(key, k)) == Some(i)
    ensures var r := UpsertBy(t, key, k, change, added);
      && r.Valid() && UniqueKeys(r.rows, key)
      && Lookup(t.rows, key, k) == Some(t.rows[i].fields)
      && Lookup(r.rows, key, k) == Some(change(t.rows[i].fields))
      && Count(r.rows, HasKey(key, k)) == 1
  {
    var r := UpsertBy(t, key, k, change, added);
    UpsertByFound(t, key, k, change, added, i);
    assert forall j :: 0 <= j < |r.rows| ==> key(r.rows[j].fields) == key(t.rows[j].fields);
    assert forall j :: 0 <= j < |r.rows| && j != i ==> !HasKey(key, k)(r.rows[j]);
    FirstOfUnique(r.rows, HasKey(key, k), i);
    CountAtMostOne(r.rows, HasKey(key, k));
  }

  lemma UpsertByMissingKeepsKeysUnique<T, K>(t: Table<T>, key: T -> K, k: K, change: T -> T, added: T)
    requires t.Valid() && UniqueKeys(t.rows, key)
    requires key(added) == k
    requires FirstIndex(t.rows, HasKey(key, k)).None?
    ensures var r := UpsertBy(t, key, k, change, added);
      && r.Valid() && UniqueKeys(r.rows, key)
      && Lookup(t.rows, key, k).None?
      && Lookup(r.rows, key, k) == Some(added)
      && Count(r.rows, HasKey(key, k)) == 1
  {
    UpsertByMissing(t, key, k, change, added);
    AppendOnlyMatch(t.rows, Row(t.nextId, added), HasKey(key, k));
    UniqueKeysAppend(t.rows, key, Row(t.nextId, added));
  }

  /** Appending a row whose key no row has keeps keys unique. */
  lemma UniqueKeysAppend<T, K>(rows: seq<Row<T>>, key: T -> K, x: Row<T>)
    requires UniqueKeys(rows, key)
    requires forall j :: 0 <= j < |rows| ==> key(rows[j].fields) != key(x.fields)
    ensures UniqueKeys(rows + [x], key)
  {
    var r := rows + [x];
    forall i, j | 0 <= i < j < |r| ensures key(r[i].fields) != key(r[j].fields) {
      assert r[i] == rows[i];
      if j < |rows| {
        assert r[j] == rows[j];
      }
    }
  }

  /** An upsert under key `k` whose new row has the key and whose change keeps keys leaves
      the row of every other key as it was. */
  lemma UpsertByKeepsOtherKeys<T, K>(t: Table<T>, key: T -> K, k: K, change: T -> T, added: T)
    requires t.Valid()
    requires key(added) == k
    requires forall i :: 0 <= i < |t.rows| ==> key(change(t.rows[i].fields)) == key(t.rows[i].fields)
    ensures var r := UpsertBy(t, key, k, change, added);
      forall k' :: k' != k ==> Lookup(r.rows, key, k') == Lookup(t.rows, key, k')
  {
    match FirstIndex(t.rows, HasKey(key, k))
    case Some(i) => UpsertByFoundKeepsOtherKeys(t, key, k, change, added, i);
    case None => UpsertByMissingKeepsOtherKeys(t, key, k, change, added);
  }

  lemma UpsertByFoundKeepsOtherKeys<T, K>(t: Table<T>, key: T -> K, k: K, change: T -> T, added: T, i: nat)
    requires t.Valid() && FirstIndex(t.rows, HasKey(key, k)) == Some(i)
    requires forall i :: 0 <= i < |t.rows| ==> key(change(t.rows[i].fields)) == key(t.rows[i].fields)
    ensures var r := UpsertBy(t, key, k, change, added);
      forall k' :: k' != k ==> Lookup(r.rows, key, k') == Lookup(t.rows, key, k')
  {
    var r := UpsertBy(t, key, k, change, added);
    UpsertByFound(t, key, k, change, added, i);
    assert forall j :: 0 <= j < |r.rows| ==> key(r.rows[j].fields) == key(t.rows[j].fields);
    forall k' | k' != k ensures Lookup(r.rows, key, k') == Lookup(t.rows, key, k') {
      FirstIndexAgrees(t.rows, r.rows, HasKey(key, k'));
    }
  }

  lemma UpsertByMissingKeepsOtherKeys<T, K>(t: Table<T>, key: T -> K, k: K, change: T -> T, added: T)
    requires key(added) == k && FirstIndex(t.rows, HasKey(key, k)).None?
    ensures var r := UpsertBy(t, key, k, change, added);
      forall k' :: k' != k ==> Lookup(r.rows, key, k') == Lookup(t.rows, key, k')
  {
    UpsertByMissing(t, key, k, change, added);
    forall k' | k' != k ensures Lookup(t.rows + [Row(t.nextId, added)], key, k') == Lookup(t.rows, key, k') {
      FirstIndexOfAppend(t.rows, Row(t.nextId, added), HasKey(key, k'));
    }
  }
}
