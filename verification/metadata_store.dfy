/** The metadata store: one row per (database, table, column) carrying the
    column's type and the table and column intents. The SQLite table is
    modelled as the sequence of its rows in insertion order, and each query
    the pipeline issues as a function over that sequence. */
module MetadataStore {
  import opened Wrappers
  import opened Seqs

  /** One row of the `metadata` table. The table intent may be SQL NULL. */
  datatype ColumnRecord = ColumnRecord(
    dbId: string,
    tableName: string,
    columnName: string,
    dataType: string,
    tableIntent: Option<string>,
    columnIntent: string)

  type Store = seq<ColumnRecord>

  /** `init_metadata_db`: an existing store is left untouched, a missing one
      is created empty. */
  function InitStore(existing: Option<Store>): (r: Store)
    ensures existing.Some? ==> r == existing.value
    ensures existing.None? ==> |r| == 0
  {
    existing.GetOr([])
  }

  /** `insert_metadata`: the batch's rows are added after the existing ones, in order. */
  function Insert(store: Store, batch: seq<ColumnRecord>): (r: Store)
    ensures |r| == |store| + |batch|
    ensures r[..|store|] == store && r[|store|..] == batch
  {
    store + batch
  }

  // ---------------------------------------------------------------------------
  // get_db_list
  // ---------------------------------------------------------------------------

  function DbIds(store: Store): (r: seq<string>)
    ensures |r| == |store| && forall i :: 0 <= i < |store| ==> r[i] == store[i].dbId
  {
    seq(|store|, i requires 0 <= i < |store| => store[i].dbId)
  }

  /** `SELECT DISTINCT db_id`: every database once, in order of first appearance. */
  function DbList(store: Store): (r: seq<string>)
    ensures NoDuplicates(r)
    ensures forall i :: 0 <= i < |store| ==> store[i].dbId in r
    ensures forall k :: 0 <= k < |r| ==> exists i :: 0 <= i < |store| && store[i].dbId == r[k]
  {
    var ids := DbIds(store);
    var r := Distinct(ids);
    assert forall i :: 0 <= i < |store| ==> ids[i] in r;
    assert forall k :: 0 <= k < |r| ==> r[k] in ids;
    r
  }

  /** De-duplication in first-seen order only ever extends its result when
      more values arrive. */
  lemma {:induction false} DistinctPrefix<T>(a: seq<T>, b: seq<T>)
    ensures |Distinct(a)| <= |Distinct(a + b)|
    ensures Distinct(a + b)[..|Distinct(a)|] == Distinct(a)
    decreases |b|
  {
    if |b| == 0 {
      assert a + b == a;
    } else {
      var b' := b[..|b| - 1];
      DistinctPrefix(a, b');
      assert (a + b)[..|a + b| - 1] == a + b';
    }
  }

  /** Inserting rows never reorders or loses a known database: the old list
      is a prefix of the new one. */
  lemma DbListAfterInsert(store: Store, batch: seq<ColumnRecord>)
    ensures |DbList(store)| <= |DbList(Insert(store, batch))|
    ensures DbList(Insert(store, batch))[..|DbList(store)|] == DbList(store)
  {
    assert DbIds(store + batch) == DbIds(store) + DbIds(batch);
    DistinctPrefix(DbIds(store), DbIds(batch));
  }

  // ---------------------------------------------------------------------------
  // Per-table lookups
  // ---------------------------------------------------------------------------

  /** One row of `SELECT column_name, data_type, column_intent ... WHERE db_id = ? AND table_name = ?`. */
  datatype ColumnRow = ColumnRow(name: string, dataType: string, intent: string)

  predicate Belongs(rec: ColumnRecord, db: string, table: string) {
    rec.dbId == db && rec.tableName == table
  }

  function RowOf(rec: ColumnRecord): ColumnRow {
    ColumnRow(rec.columnName, rec.dataType, rec.columnIntent)
  }

  /** The column rows of one table of one database, in insertion order. */
  function ColumnsFor(store: Store, db: string, table: string): (r: seq<ColumnRow>)
    ensures |r| <= |store|
    ensures |r| == 0 <==> forall i :: 0 <= i < |store| ==> !Belongs(store[i], db, table)
    decreases |store|
  {
    if |store| == 0 then []
    else
      var last := store[|store| - 1];
      var r0 := ColumnsFor(store[..|store| - 1], db, table);
      assert forall i :: 0 <= i < |store| - 1 ==> store[..|store| - 1][i] == store[i];
      if Belongs(last, db, table) then r0 + [RowOf(last)] else r0
  }

  /** Exactly the rows of that table are returned: each returned row comes
      from a record of the table, and every record of the table is returned. */
  lemma {:induction false} ColumnsForSpec(store: Store, db: string, table: string)
    ensures forall k :: 0 <= k < |ColumnsFor(store, db, table)| ==>
              exists i :: 0 <= i < |store| && Belongs(store[i], db, table) && ColumnsFor(store, db, table)[k] == RowOf(store[i])
    ensures forall i :: 0 <= i < |store| && Belongs(store[i], db, table) ==> RowOf(store[i]) in ColumnsFor(store, db, table)
    decreases |store|
  {
    if |store| > 0 {
      var init := store[..|store| - 1];
      var last := |store| - 1;
      var r := ColumnsFor(store, db, table);
      var r0 := ColumnsFor(init, db, table);
      ColumnsForSpec(init, db, table);
      assert forall i :: 0 <= i < |init| ==> init[i] == store[i];
      forall k | 0 <= k < |r|
        ensures exists i :: 0 <= i < |store| && Belongs(store[i], db, table) && r[k] == RowOf(store[i])
      {
        if k < |r0| {
          assert r[k] == r0[k];
          var i :| 0 <= i < |init| && Belongs(init[i], db, table) && r0[k] == RowOf(init[i]);
          assert store[i] == init[i];
        } else {
          assert Belongs(store[last], db, table) && r[k] == RowOf(store[last]);
        }
      }
      forall i | 0 <= i < |store| && Belongs(store[i], db, table)
        ensures RowOf(store[i]) in r
      {
        if i < last {
          assert RowOf(init[i]) in r0;
        } else {
          assert r[|r| - 1] == RowOf(store[last]);
        }
      }
    } else {
      assert ColumnsFor(store, db, table) == [];
    }
  }

  /** A table's rows after an insert are its old rows followed by the batch's. */
  lemma {:induction false} ColumnsForInsert(store: Store, batch: seq<ColumnRecord>, db: string, table: string)
    ensures ColumnsFor(Insert(store, batch), db, table) == ColumnsFor(store, db, table) + ColumnsFor(batch, db, table)
    decreases |batch|
  {
    if |batch| == 0 {
      assert store + batch == store;
    } else {
      var b' := batch[..|batch| - 1];
      var s := store + batch;
      var x := batch[|batch| - 1];
      var tail := if Belongs(x, db, table) then [RowOf(x)] else [];
      ColumnsForInsert(store, b', db, table);
      assert s[..|s| - 1] == store + b';
      assert s[|s| - 1] == x;
      var a := ColumnsFor(store, db, table);
      var b := ColumnsFor(b', db, table);
      ColumnsForLast(s, db, table);
      ColumnsForLast(batch, db, table);
      assert a + b + tail == a + (b + tail);
    }
  }

  /** One step of the scan: the last record adds its row when it belongs to the table. */
  lemma ColumnsForLast(store: Store, db: string, table: string)
    requires |store| > 0
    ensures ColumnsFor(store, db, table)
            == ColumnsFor(store[..|store| - 1], db, table)
               + (if Belongs(store[|store| - 1], db, table) then [RowOf(store[|store| - 1])] else [])
  {
  }

  /** A table with no row under this database has no columns. */
  lemma {:induction false} ColumnsForAbsent(store: Store, db: string, table: string)
    requires forall i :: 0 <= i < |store| ==> !Belongs(store[i], db, table)
    ensures ColumnsFor(store, db, table) == []
    decreases |store|
  {
    if |store| > 0 {
      ColumnsForAbsent(store[..|store| - 1], db, table);
    }
  }

  /** `get_column_info_by_tables`: each requested table mapped to its column rows. */
  function ColumnInfo(store: Store, db: string, tables: seq<string>): (m: map<string, seq<ColumnRow>>)
    ensures m.Keys == set i | 0 <= i < |tables| :: tables[i]
    ensures forall t :: t in m ==> m[t] == ColumnsFor(store, db, t)
  {
    var pairs := seq(|tables|, i requires 0 <= i < |tables| => (tables[i], ColumnsFor(store, db, tables[i])));
    assert forall i :: 0 <= i < |tables| ==> pairs[i].0 == tables[i];
    FromPairsValues(pairs, db, store);
    FromPairs(pairs)
  }

  lemma {:induction false} FromPairsValues(ps: seq<(string, seq<ColumnRow>)>, db: string, store: Store)
    requires forall i :: 0 <= i < |ps| ==> ps[i].1 == ColumnsFor(store, db, ps[i].0)
    ensures forall t :: t in FromPairs(ps) ==> FromPairs(ps)[t] == ColumnsFor(store, db, t)
    decreases |ps|
  {
    if |ps| > 0 {
      var init := ps[..|ps| - 1];
      assert forall i :: 0 <= i < |init| ==> init[i] == ps[i];
      FromPairsValues(init, db, store);
    }
  }

  /** `SELECT DISTINCT table_intent ... WHERE db_id = ? AND table_name = ?`
      then `fetchone()`: the intent of the table's first row, which may be
      NULL, or the empty text when the table has no row. */
  function TableIntentOf(store: Store, db: string, table: string): (r: Option<string>)
    ensures (forall i :: 0 <= i < |store| ==> !Belongs(store[i], db, table)) ==> r == Some("")
    ensures forall i :: (0 <= i < |store| && Belongs(store[i], db, table)
                          && (forall j :: 0 <= j < i ==> !Belongs(store[j], db, table))) ==> r == store[i].tableIntent
    decreases |store|
  {
    if |store| == 0 then Some("")
    else if Belongs(store[0], db, table) then store[0].tableIntent
    else
      assert forall i :: 1 <= i < |store| ==> store[i] == store[1..][i - 1];
      TableIntentOf(store[1..], db, table)
  }

  /** Inserting rows never changes the intent of a table that already had rows. */
  lemma {:induction false} TableIntentAfterInsert(store: Store, batch: seq<ColumnRecord>, db: string, table: string, i: nat)
    requires i < |store| && Belongs(store[i], db, table)
    ensures TableIntentOf(Insert(store, batch), db, table) == TableIntentOf(store, db, table)
    decreases |store|
  {
    if !Belongs(store[0], db, table) {
      assert (store + batch)[1..] == store[1..] + batch;
      TableIntentAfterInsert(store[1..], batch, db, table, i - 1);
    }
  }
}
