/** The upload page's logic: pairing uploaded DDL files with database files,
    and the intent-inference run that parses each DDL, asks the intent
    service about every table, and stores one metadata record per column.
    File contents, the tokenizer and the intent service are parameters; the
    widgets, file writes and the display of the results are not modelled. */
module Upload {
  import opened Wrappers
  import opened Strings
  import opened Seqs
  import opened DdlParser
  import opened IntentInfer
  import opened MetadataStore

  /** An uploaded file: its name and its decoded text. */
  datatype UploadedFile = UploadedFile(name: string, contents: string)

  /** One element of the session's upload list. */
  datatype UploadEntry = UploadEntry(ddlName: string, dbName: string, ddlContents: string, dbPath: string)

  const UploadDir: string := "uploaded_dbs"

  /** `os.path.join("uploaded_dbs", name)` on a POSIX system: an absolute
      name replaces the directory, any other name is placed inside it. */
  function DbPath(name: string): (p: string)
    ensures EndsWith(p, name)
    ensures (|name| == 0 || name[0] != '/') ==> StartsWith(p, UploadDir + "/")
    ensures |name| > 0 && name[0] == '/' ==> |p| == |name|
  {
    if |name| > 0 && name[0] == '/' then name else UploadDir + "/" + name
  }

  function EntryOf(ddl: UploadedFile, db: UploadedFile): UploadEntry {
    UploadEntry(ddl.name, db.name, ddl.contents, DbPath(db.name))
  }

  /** The pairing loop: files are paired by position up to the shorter list,
      and the upload list is emptied before each pair is added, so only the
      last pair remains. When either list is empty the previous uploads are
      kept. */
  method PairUploads(ddls: seq<UploadedFile>, dbs: seq<UploadedFile>, previous: seq<UploadEntry>)
    returns (uploads: seq<UploadEntry>)
    ensures |ddls| == 0 || |dbs| == 0 ==> uploads == previous
    ensures |ddls| > 0 && |dbs| > 0 ==>
              uploads == [EntryOf(ddls[Min(|ddls|, |dbs|) - 1], dbs[Min(|ddls|, |dbs|) - 1])]
  {
    uploads := previous;
    if |ddls| > 0 && |dbs| > 0 {
      var pairs := Zip(ddls, dbs);
      var i := 0;
      while i < |pairs|
        invariant 0 <= i <= |pairs|
        invariant i > 0 ==> uploads == [EntryOf(pairs[i - 1].0, pairs[i - 1].1)]
      {
        uploads := [];
        uploads := uploads + [EntryOf(pairs[i].0, pairs[i].1)];
        i := i + 1;
      }
    }
  }

  /** Pairing keeps at most one upload, whatever the number of files. */
  method PairUploadsKeepsOne(ddls: seq<UploadedFile>, dbs: seq<UploadedFile>)
    returns (uploads: seq<UploadEntry>)
    requires |ddls| > 0 && |dbs| > 0
    ensures |uploads| == 1
    ensures uploads[0].dbPath == DbPath(uploads[0].dbName)
    ensures exists i :: 0 <= i < Min(|ddls|, |dbs|) && uploads[0].dbName == dbs[i].name && uploads[0].ddlName == ddls[i].name
  {
    uploads := PairUploads(ddls, dbs, []);
    var m := Min(|ddls|, |dbs|) - 1;
    assert uploads[0].dbName == dbs[m].name && uploads[0].ddlName == ddls[m].name;
  }

  // ---------------------------------------------------------------------------
  // Merging parsed tables with intents
  // ---------------------------------------------------------------------------

  /** The intent service's reply as the merge reads it: `response.get(...)`,
      so either key may be missing. */
  datatype IntentReply = IntentReply(tableIntent: Option<string>, columnIntents: Option<map<string, string>>)

  /** The intent service for one table; a failed request raises. */
  type IntentService = (string, seq<string>, seq<string>) -> Result<IntentReply>

  /** The SQL tokenizer, whose output the schema extractor walks. */
  type Tokenizer = string -> seq<Statement>

  /** Reading the tables of a DDL text. */
  type SchemaReader = string -> seq<TableSkeleton>

  /** `extract_schema_metadata` over the tokenizer's statements. */
  function DdlReader(tokenize: Tokenizer): (read: SchemaReader)
    ensures forall text :: read(text) == ExtractSchema(tokenize(text))
  {
    text => ExtractSchema(tokenize(text))
  }

  /** `column_intents.get(col, "")`: looked up by the exact column name. */
  function ExactIntent(intents: map<string, string>, col: string): string {
    if col in intents then intents[col] else ""
  }

  /** The records of one table: one per zipped (column, type) pair, in
      order. A reply without column intents fails as soon as a record needs
      one. */
  function MergeTable(db: string, t: TableSkeleton, reply: IntentReply): (r: Result<seq<ColumnRecord>>)
    ensures r.Failure? <==> reply.columnIntents.None? && Min(|t.columnNames|, |t.dataTypes|) > 0
    ensures r.Success? ==> |r.value| == Min(|t.columnNames|, |t.dataTypes|)
    ensures r.Success? ==> forall i :: 0 <= i < |r.value| ==>
              r.value[i] == ColumnRecord(db, t.tableName, t.columnNames[i], t.dataTypes[i], reply.tableIntent,
                                         ExactIntent(reply.columnIntents.value, t.columnNames[i]))
  {
    var pairs := Zip(t.columnNames, t.dataTypes);
    if |pairs| == 0 then Success([])
    else if reply.columnIntents.None? then Failure("AttributeError: 'NoneType' object has no attribute 'get'")
    else
      var intents := reply.columnIntents.value;
      Success(seq(|pairs|, i requires 0 <= i < |pairs| =>
        ColumnRecord(db, t.tableName, pairs[i].0, pairs[i].1, reply.tableIntent, ExactIntent(intents, pairs[i].0))))
  }

  /** One table's request to the service followed by the merge of its
      reply; a failed request aborts with the service's error. */
  function MergeStep(db: string, t: TableSkeleton, service: IntentService): (r: Result<seq<ColumnRecord>>)
    ensures service(t.tableName, t.columnNames, t.dataTypes).Failure? ==>
              r == Failure(service(t.tableName, t.columnNames, t.dataTypes).error)
    ensures service(t.tableName, t.columnNames, t.dataTypes).Success? ==>
              r == MergeTable(db, t, service(t.tableName, t.columnNames, t.dataTypes).value)
  {
    var reply :- service(t.tableName, t.columnNames, t.dataTypes);
    MergeTable(db, t, reply)
  }

  /** The records of all tables of one upload, table after table; the first
      failing request or merge aborts. */
  function MergeTables(db: string, tables: seq<TableSkeleton>, service: IntentService): (r: Result<seq<ColumnRecord>>)
    ensures r.Success? ==> forall k :: 0 <= k < |r.value| ==>
              r.value[k].dbId == db && exists j :: 0 <= j < |tables| && r.value[k].tableName == tables[j].tableName
    decreases |tables|
  {
    if |tables| == 0 then Success([])
    else
      var init := tables[..|tables| - 1];
      var t := tables[|tables| - 1];
      var before :- MergeTables(db, init, service);
      var recs :- MergeStep(db, t, service);
      assert forall j :: 0 <= j < |init| ==> init[j] == tables[j];
      Success(before + recs)
  }

  /** Every request and merge succeeding is exactly what lets an upload's
      tables merge. */
  predicate TableMerges(db: string, t: TableSkeleton, service: IntentService) {
    service(t.tableName, t.columnNames, t.dataTypes).Success?
    && MergeTable(db, t, service(t.tableName, t.columnNames, t.dataTypes).value).Success?
  }

  lemma {:induction false} MergeTablesSucceeds(db: string, tables: seq<TableSkeleton>, service: IntentService)
    ensures MergeTables(db, tables, service).Success? <==> forall j :: 0 <= j < |tables| ==> TableMerges(db, tables[j], service)
    decreases |tables|
  {
    if |tables| > 0 {
      var init := tables[..|tables| - 1];
      MergeTablesSucceeds(db, init, service);
      assert forall j :: 0 <= j < |init| ==> init[j] == tables[j];
    }
  }

  /** A single table merges as its own request and merge: the service's
      error if the request fails, otherwise the merge of its reply. */
  lemma MergeTablesSingle(db: string, t: TableSkeleton, service: IntentService)
    ensures service(t.tableName, t.columnNames, t.dataTypes).Failure? ==>
              MergeTables(db, [t], service) == Failure(service(t.tableName, t.columnNames, t.dataTypes).error)
    ensures service(t.tableName, t.columnNames, t.dataTypes).Success? ==>
              MergeTables(db, [t], service) == MergeTable(db, t, service(t.tableName, t.columnNames, t.dataTypes).value)
  {
    assert [t][..0] == [];
    var s := MergeStep(db, t, service);
    if s.Success? {
      assert MergeTables(db, [t], service) == Success([] + s.value);
      assert [] + s.value == s.value;
    }
  }

  /** Two merges run one after the other: the first one's failure, else
      the second one's, else both record lists in order. */
  function Chain(first: Result<seq<ColumnRecord>>, second: Result<seq<ColumnRecord>>): Result<seq<ColumnRecord>> {
    if first.Failure? then first
    else if second.Failure? then second
    else Success(first.value + second.value)
  }

  lemma ChainAssociative(x: Result<seq<ColumnRecord>>, y: Result<seq<ColumnRecord>>, z: Result<seq<ColumnRecord>>)
    ensures Chain(Chain(x, y), z) == Chain(x, Chain(y, z))
  {
    if x.Success? && y.Success? && z.Success? {
      assert x.value + y.value + z.value == x.value + (y.value + z.value);
    }
  }

  /** A table appended last merges after all the ones before it. */
  lemma MergeTablesSnoc(db: string, init: seq<TableSkeleton>, t: TableSkeleton, service: IntentService)
    ensures MergeTables(db, init + [t], service) == Chain(MergeTables(db, init, service), MergeStep(db, t, service))
  {
    assert (init + [t])[..|init + [t]| - 1] == init;
  }

  /** Merging is table by table: the tables of a concatenation merge as the
      first part's records followed by the second part's, and the first
      part's failure, else the second's, is the failure of the whole. */
  lemma {:induction false} MergeTablesAppend(db: string, a: seq<TableSkeleton>, b: seq<TableSkeleton>, service: IntentService)
    ensures MergeTables(db, a + b, service) == Chain(MergeTables(db, a, service), MergeTables(db, b, service))
    decreases |b|
  {
    if |b| == 0 {
      assert a + b == a;
      var ra := MergeTables(db, a, service);
      if ra.Success? {
        assert ra.value + [] == ra.value;
      }
    } else {
      var init, t := b[..|b| - 1], b[|b| - 1];
      assert b == init + [t];
      assert a + b == (a + init) + [t];
      var ra, ri, rs := MergeTables(db, a, service), MergeTables(db, init, service), MergeStep(db, t, service);
      calc {
        MergeTables(db, a + b, service);
      == { MergeTablesSnoc(db, a + init, t, service); }
        Chain(MergeTables(db, a + init, service), rs);
      == { MergeTablesAppend(db, a, init, service); }
        Chain(Chain(ra, ri), rs);
      == { ChainAssociative(ra, ri, rs); }
        Chain(ra, Chain(ri, rs));
      == { MergeTablesSnoc(db, init, t, service); }
        Chain(ra, MergeTables(db, b, service));
      }
    }
  }

  /** Each upload: read its tables; an upload with no tables is skipped,
      which is what merging no table at all gives, and the others have every
      table merged under the database file's name. */
  function MergeUpload(entry: UploadEntry, read: SchemaReader, service: IntentService): (r: Result<seq<ColumnRecord>>)
    ensures r == MergeTables(entry.dbName, read(entry.ddlContents), service)
    ensures |read(entry.ddlContents)| == 0 ==> r == Success([])
    ensures r.Success? ==> forall k :: 0 <= k < |r.value| ==> r.value[k].dbId == entry.dbName
  {
    var tables := read(entry.ddlContents);
    if |tables| == 0 then Success([])
    else MergeTables(entry.dbName, tables, service)
  }

  /** A DDL file without a CREATE statement contributes no record and asks
      the intent service nothing. */
  lemma UploadWithoutCreateSkipped(entry: UploadEntry, tokenize: Tokenizer, service: IntentService)
    requires forall i :: 0 <= i < |tokenize(entry.ddlContents)| ==> tokenize(entry.ddlContents)[i].kind != CreateKind
    ensures MergeUpload(entry, DdlReader(tokenize), service) == Success([])
  {
    NoCreateNoTables(tokenize(entry.ddlContents));
  }

  /** The merged records of all uploads, in upload order; the first failure aborts. */
  function MergeAll(uploads: seq<UploadEntry>, read: SchemaReader, service: IntentService): (r: Result<seq<ColumnRecord>>)
    ensures r.Success? <==> forall i :: 0 <= i < |uploads| ==> MergeUpload(uploads[i], read, service).Success?
    decreases |uploads|
  {
    if |uploads| == 0 then Success([])
    else
      assert forall i :: 0 <= i < |uploads| - 1 ==> uploads[..|uploads| - 1][i] == uploads[i];
      var before :- MergeAll(uploads[..|uploads| - 1], read, service);
      var recs :- MergeUpload(uploads[|uploads| - 1], read, service);
      Success(before + recs)
  }

  /** Every merged record is filed under the database name of one of the uploads. */
  lemma {:induction false} MergeAllDatabases(uploads: seq<UploadEntry>, read: SchemaReader, service: IntentService)
    requires MergeAll(uploads, read, service).Success?
    ensures var all := MergeAll(uploads, read, service).value;
            forall k :: 0 <= k < |all| ==> exists i :: 0 <= i < |uploads| && all[k].dbId == uploads[i].dbName
    decreases |uploads|
  {
    if |uploads| > 0 {
      var init := uploads[..|uploads| - 1];
      var last := |uploads| - 1;
      MergeAllDatabases(init, read, service);
      var before := MergeAll(init, read, service).value;
      var recs := MergeUpload(uploads[last], read, service).value;
      var all := MergeAll(uploads, read, service).value;
      assert all == before + recs;
      forall k | 0 <= k < |all|
        ensures exists i :: 0 <= i < |uploads| && all[k].dbId == uploads[i].dbName
      {
        if k < |before| {
          var i :| 0 <= i < |init| && before[k].dbId == init[i].dbName;
          assert uploads[i] == init[i];
        } else {
          assert all[k] == recs[k - |before|];
          assert all[k].dbId == uploads[last].dbName;
        }
      }
    }
  }

  /** One more upload: its records follow those before it, or its failure
      fails the run. */
  lemma MergeAllStep(uploads: seq<UploadEntry>, i: nat, read: SchemaReader, service: IntentService)
    requires i < |uploads|
    requires MergeAll(uploads[..i], read, service).Success?
    ensures MergeUpload(uploads[i], read, service).Failure? ==> MergeAll(uploads[..i + 1], read, service).Failure?
    ensures MergeUpload(uploads[i], read, service).Success? ==>
              MergeAll(uploads[..i + 1], read, service)
              == Success(MergeAll(uploads[..i], read, service).value + MergeUpload(uploads[i], read, service).value)
  {
    var us := uploads[..i + 1];
    assert us[..|us| - 1] == uploads[..i];
    assert us[|us| - 1] == uploads[i];
  }

  /** A failing upload fails the whole run. */
  lemma FailedUploadFailsRun(uploads: seq<UploadEntry>, i: nat, read: SchemaReader, service: IntentService)
    requires i < |uploads|
    requires MergeAll(uploads[..i], read, service).Success?
    requires MergeUpload(uploads[i], read, service).Failure?
    ensures MergeAll(uploads, read, service).Failure?
  {
    MergeAllStep(uploads, i, read, service);
    MergeAllFailurePersists(uploads, i + 1, read, service);
  }

  /** Once a prefix of the uploads fails, the whole run fails. */
  lemma {:induction false} MergeAllFailurePersists(uploads: seq<UploadEntry>, k: nat, read: SchemaReader, service: IntentService)
    requires k <= |uploads|
    requires MergeAll(uploads[..k], read, service).Failure?
    ensures MergeAll(uploads, read, service).Failure?
    decreases |uploads| - k
  {
    if k < |uploads| {
      assert uploads[..k + 1][..k] == uploads[..k];
      MergeAllFailurePersists(uploads, k + 1, read, service);
    } else {
      assert uploads[..k] == uploads;
    }
  }

  /** The "Run Intent Inference" button: each upload's records are inserted
      once all its tables are merged, and collected in upload order. When an
      upload fails, the run stops there, the records of the uploads before it
      stay inserted, and the error is reported. `done` counts the uploads
      whose records were inserted. */
  method RunInference(store: Store, uploads: seq<UploadEntry>, read: SchemaReader, service: IntentService)
    returns (stored: Store, all: seq<ColumnRecord>, done: nat, error: Option<string>)
    ensures stored == Insert(store, all)
    ensures done <= |uploads| && MergeAll(uploads[..done], read, service) == Success(all)
    ensures error.None? <==> done == |uploads|
    ensures error.Some? ==> done < |uploads| && MergeUpload(uploads[done], read, service).Failure?
    ensures error.None? <==> MergeAll(uploads, read, service).Success?
  {
    stored := store;
    all := [];
    error := None;
    done := 0;
    while done < |uploads|
      invariant 0 <= done <= |uploads|
      invariant MergeAll(uploads[..done], read, service) == Success(all)
      invariant stored == store + all
    {
      var recs := MergeUpload(uploads[done], read, service);
      if recs.Failure? {
        error := Some(recs.error);
        FailedUploadFailsRun(uploads, done, read, service);
        return;
      }
      MergeAllStep(uploads, done, read, service);
      stored := Insert(stored, recs.value);
      all := all + recs.value;
      done := done + 1;
    }
    assert uploads[..done] == uploads;
  }

  // ---------------------------------------------------------------------------
  // What the merge leaves in the store
  // ---------------------------------------------------------------------------

  /** After inserting a table's merged records, the store answers the column
      query for that table with the old rows followed by one row per zipped
      (column, type) pair, carrying the intent found under the exact name. */
  lemma MergedTableStored(store: Store, db: string, t: TableSkeleton, reply: IntentReply)
    requires MergeTable(db, t, reply).Success?
    ensures var recs := MergeTable(db, t, reply).value;
            var rows := ColumnsFor(Insert(store, recs), db, t.tableName);
            |rows| == |ColumnsFor(store, db, t.tableName)| + |recs|
            && forall i :: 0 <= i < |recs| ==>
                 rows[|ColumnsFor(store, db, t.tableName)| + i]
                 == ColumnRow(t.columnNames[i], t.dataTypes[i], ExactIntent(reply.columnIntents.value, t.columnNames[i]))
  {
    var recs := MergeTable(db, t, reply).value;
    ColumnsForInsert(store, recs, db, t.tableName);
    AllBelong(recs, db, t.tableName);
  }

  /** Records that all belong to one table are returned for it, unchanged. */
  lemma {:induction false} AllBelong(recs: seq<ColumnRecord>, db: string, table: string)
    requires forall i :: 0 <= i < |recs| ==> Belongs(recs[i], db, table)
    ensures |ColumnsFor(recs, db, table)| == |recs|
    ensures forall i :: 0 <= i < |recs| ==> ColumnsFor(recs, db, table)[i] == RowOf(recs[i])
    decreases |recs|
  {
    if |recs| > 0 {
      var init := recs[..|recs| - 1];
      AllBelong(init, db, table);
      assert forall i :: 0 <= i < |init| ==> init[i] == recs[i];
    }
  }

  /** The merge looks intents up by exact name while the intent parser keys
      them by lower-cased name: when the service answers with what the
      parser produced, a column whose name is not all lower case always gets
      the empty intent. */
  lemma MixedCaseColumnGetsEmptyIntent(db: string, t: TableSkeleton, generated: string, i: nat)
    requires i < Min(|t.columnNames|, |t.dataTypes|)
    requires Lower(t.columnNames[i]) != t.columnNames[i]
    ensures var p := ParseResponse(generated, t.columnNames);
            var recs := MergeTable(db, t, IntentReply(Some(p.table), Some(p.columns)));
            recs.Success? && recs.value[i].columnIntent == ""
            && recs.value[i].tableIntent == Some(p.table)
  {
    var p := ParseResponse(generated, t.columnNames);
    assert t.columnNames[i] !in p.columns;
  }

  /** A column named in lower case gets the intent the parser found for it. */
  lemma LowerCaseColumnGetsParsedIntent(db: string, t: TableSkeleton, generated: string, i: nat)
    requires i < Min(|t.columnNames|, |t.dataTypes|)
    requires t.columnNames[i] in ParseResponse(generated, t.columnNames).columns
    ensures var p := ParseResponse(generated, t.columnNames);
            var recs := MergeTable(db, t, IntentReply(Some(p.table), Some(p.columns)));
            recs.Success? && recs.value[i].columnIntent == p.columns[t.columnNames[i]]
  {
  }
}
