/** Assembly of the fine-tuning dataset: enriched table descriptions are
    grouped by database, and every training question whose database has a
    description becomes a prompt/completion row whose prompt is the schema
    prompt with the `### SQL:` cue and whose completion is the gold query. */
module FinetuneDataset {
  import opened Wrappers
  import opened Strings
  import opened SchemaPrompt

  /** One training question. */
  datatype Example = Example(dbId: string, question: string, query: string)

  /** One enriched table entry: the database it belongs to and its description. */
  datatype EnrichedTable = EnrichedTable(dbId: string, table: TableDescriptor)

  /** One output row. */
  datatype Row = Row(dbId: string, prompt: string, completion: string)

  /** The databases that have at least one enriched entry. */
  function DbIdsOf(entries: seq<EnrichedTable>): set<string> {
    set i | 0 <= i < |entries| :: entries[i].dbId
  }

  /** The tables of one database, in file order. */
  function GroupOf(entries: seq<EnrichedTable>, db: string): (r: seq<TableDescriptor>)
    ensures |r| <= |entries|
    ensures |r| == 0 <==> db !in DbIdsOf(entries)
    decreases |entries|
  {
    if |entries| == 0 then []
    else
      assert DbIdsOf(entries) == DbIdsOf(entries[..|entries| - 1]) + {entries[|entries| - 1].dbId} by {
        var init := entries[..|entries| - 1];
        assert forall i :: 0 <= i < |init| ==> init[i] == entries[i];
      }
      var r0 := GroupOf(entries[..|entries| - 1], db);
      var e := entries[|entries| - 1];
      if e.dbId == db then r0 + [e.table] else r0
  }

  /** Every table of the group comes from an entry of that database. */
  lemma {:induction false} GroupOfFromEntries(entries: seq<EnrichedTable>, db: string, k: nat)
    requires k < |GroupOf(entries, db)|
    ensures exists i :: 0 <= i < |entries| && entries[i].dbId == db && entries[i].table == GroupOf(entries, db)[k]
    decreases |entries|
  {
    var init := entries[..|entries| - 1];
    var last := |entries| - 1;
    var r := GroupOf(entries, db);
    var r0 := GroupOf(init, db);
    assert r == (if entries[last].dbId == db then r0 + [entries[last].table] else r0);
    if k < |r0| {
      GroupOfFromEntries(init, db, k);
      var i :| 0 <= i < |init| && init[i].dbId == db && init[i].table == r0[k];
      assert entries[i] == init[i] && r[k] == r0[k];
    } else {
      assert entries[last].dbId == db && r == r0 + [entries[last].table];
      assert entries[last].table == r[k];
    }
  }

  /** Every entry of the database has its table in the group. */
  lemma {:induction false} GroupOfHoldsEntries(entries: seq<EnrichedTable>, db: string, i: nat)
    requires i < |entries| && entries[i].dbId == db
    ensures entries[i].table in GroupOf(entries, db)
    decreases |entries|
  {
    var init := entries[..|entries| - 1];
    var last := |entries| - 1;
    var r := GroupOf(entries, db);
    var r0 := GroupOf(init, db);
    assert r == (if entries[last].dbId == db then r0 + [entries[last].table] else r0);
    if i < last {
      assert init[i] == entries[i];
      GroupOfHoldsEntries(init, db, i);
      assert r0 <= r;
    } else {
      assert r[|r| - 1] == entries[last].table;
    }
  }

  /** A database without entries has an empty group. */
  lemma {:induction false} GroupOfAbsent(entries: seq<EnrichedTable>, db: string)
    requires db !in DbIdsOf(entries)
    ensures GroupOf(entries, db) == []
    decreases |entries|
  {
    if |entries| > 0 {
      var init := entries[..|entries| - 1];
      assert DbIdsOf(init) <= DbIdsOf(entries) by {
        forall d | d in DbIdsOf(init) ensures d in DbIdsOf(entries) {
          var i :| 0 <= i < |init| && init[i].dbId == d;
          assert entries[i] == init[i];
        }
      }
      assert entries[|entries| - 1].dbId in DbIdsOf(entries);
      GroupOfAbsent(init, db);
    }
  }

  /** Appending entries appends to each group: file order is kept. */
  lemma {:induction false} GroupOfAppend(a: seq<EnrichedTable>, b: seq<EnrichedTable>, db: string)
    ensures GroupOf(a + b, db) == GroupOf(a, db) + GroupOf(b, db)
    decreases |b|
  {
    if |b| == 0 {
      assert a + b == a;
    } else {
      var b' := b[..|b| - 1];
      var e := b[|b| - 1];
      var s := a + b;
      GroupOfAppend(a, b', db);
      assert s[..|s| - 1] == a + b';
      assert s[|s| - 1] == e;
      var tail := if e.dbId == db then [e.table] else [];
      var x := GroupOf(a, db);
      var y := GroupOf(b', db);
      GroupOfLast(s, db);
      GroupOfLast(b, db);
      assert x + y + tail == x + (y + tail);
    }
  }

  /** One step of the grouping: the last entry adds its table when it belongs to the database. */
  lemma GroupOfLast(entries: seq<EnrichedTable>, db: string)
    requires |entries| > 0
    ensures GroupOf(entries, db)
            == GroupOf(entries[..|entries| - 1], db)
               + (if entries[|entries| - 1].dbId == db then [entries[|entries| - 1].table] else [])
  {
  }

  /** Each database with entries mapped to its group. */
  function GroupMap(entries: seq<EnrichedTable>): map<string, seq<TableDescriptor>> {
    map db | db in DbIdsOf(entries) :: GroupOf(entries, db)
  }

  /** The `defaultdict(list)` grouping loop. */
  method GroupByDb(entries: seq<EnrichedTable>) returns (groups: map<string, seq<TableDescriptor>>)
    ensures groups.Keys == DbIdsOf(entries)
    ensures forall db :: db in groups ==> groups[db] == GroupOf(entries, db)
  {
    groups := map[];
    var i := 0;
    while i < |entries|
      invariant 0 <= i <= |entries|
      invariant groups.Keys == DbIdsOf(entries[..i])
      invariant forall db :: db in groups ==> groups[db] == GroupOf(entries[..i], db)
    {
      var e := entries[i];
      var prefix := entries[..i + 1];
      assert prefix[..i] == entries[..i] && prefix[i] == e;
      assert DbIdsOf(prefix) == DbIdsOf(entries[..i]) + {e.dbId};
      if e.dbId in groups {
        groups := groups[e.dbId := groups[e.dbId] + [e.table]];
      } else {
        GroupOfAbsent(entries[..i], e.dbId);
        groups := groups[e.dbId := [e.table]];
      }
      forall db | db in groups
        ensures groups[db] == GroupOf(prefix, db)
      {
        GroupOfLast(prefix, db);
      }
      i := i + 1;
    }
    assert entries[..i] == entries;
  }

  /** The prompt of one question: `build_prompt(example, schema)`, so the
      `### SQL:` cue is always included. */
  function ExamplePrompt(ex: Example, schema: seq<TableDescriptor>): (r: Result<string>)
    ensures r.Success? <==> Readable(schema)
    ensures r.Success? ==> StartsWith(r.value, DatabaseLine(ex.dbId))
    ensures r.Success? ==> Contains(r.value, "\n" + QuestionLine(ex.question))
    ensures r.Success? ==> EndsWith(r.value, SqlCue)
  {
    BuildPrompt(ex.question, ex.dbId, schema, true)
  }

  /** Every table of a readable schema is shown in the question's prompt:
      its header line and each of its column lines. */
  lemma ExamplePromptShowsTable(ex: Example, schema: seq<TableDescriptor>, i: nat)
    requires i < |schema| && Readable(schema)
    ensures ExamplePrompt(ex, schema).Success?
    ensures Contains(ExamplePrompt(ex, schema).value, "\n" + Header(schema[i]))
    ensures forall j :: 0 <= j < |schema[i].columns| ==>
              Contains(ExamplePrompt(ex, schema).value,
                       "\n" + RenderColumn(schema[i].columns[j], schema[i].columnIntents).value)
  {
    PromptShowsTable(ex.question, ex.dbId, schema, true, i);
  }

  /** The questions that are kept: those whose database has an entry. */
  function Known(questions: seq<Example>, groups: map<string, seq<TableDescriptor>>): (r: seq<Example>)
    ensures |r| <= |questions|
    ensures forall k :: 0 <= k < |r| ==> r[k].dbId in groups
    decreases |questions|
  {
    if |questions| == 0 then []
    else
      var r0 := Known(questions[..|questions| - 1], groups);
      var ex := questions[|questions| - 1];
      if ex.dbId in groups then r0 + [ex] else r0
  }

  /** Exactly the questions of known databases are kept. */
  lemma {:induction false} KnownSpec(questions: seq<Example>, groups: map<string, seq<TableDescriptor>>)
    ensures forall k :: 0 <= k < |Known(questions, groups)| ==> Known(questions, groups)[k] in questions
    ensures forall i :: 0 <= i < |questions| && questions[i].dbId in groups ==> questions[i] in Known(questions, groups)
    decreases |questions|
  {
    if |questions| > 0 {
      var init := questions[..|questions| - 1];
      var ex := questions[|questions| - 1];
      var r := Known(questions, groups);
      var r0 := Known(init, groups);
      assert r == (if ex.dbId in groups then r0 + [ex] else r0);
      KnownSpec(init, groups);
      assert forall i :: 0 <= i < |init| ==> init[i] == questions[i];
      assert forall x :: x in init ==> x in questions;
      assert r0 <= r;
    }
  }

  /** Keeping distributes over concatenation: kept questions stay in order. */
  lemma {:induction false} KnownAppend(a: seq<Example>, b: seq<Example>, groups: map<string, seq<TableDescriptor>>)
    ensures Known(a + b, groups) == Known(a, groups) + Known(b, groups)
    decreases |b|
  {
    if |b| == 0 {
      assert a + b == a;
    } else {
      var b' := b[..|b| - 1];
      var ex := b[|b| - 1];
      var s := a + b;
      KnownAppend(a, b', groups);
      assert s[..|s| - 1] == a + b';
      assert s[|s| - 1] == ex;
      var tail := if ex.dbId in groups then [ex] else [];
      var x := Known(a, groups);
      var y := Known(b', groups);
      assert Known(s, groups) == x + y + tail;
      assert Known(b, groups) == y + tail;
      assert x + y + tail == x + (y + tail);
    }
  }

  /** A question whose database has no entry produces no row, wherever it stands. */
  lemma UnknownQuestionDropped(before: seq<Example>, ex: Example, after: seq<Example>,
                               groups: map<string, seq<TableDescriptor>>)
    requires ex.dbId !in groups
    ensures Known(before + [ex] + after, groups) == Known(before + after, groups)
  {
    KnownAppend(before + [ex], after, groups);
    KnownAppend(before, [ex], groups);
    KnownAppend(before, after, groups);
    assert Known([ex], groups) == [] by {
      assert [ex][..0] == [];
    }
  }

  /** How a question and its database's tables become a prompt; `main`
      uses `ExamplePrompt`. */
  type Renderer = (Example, seq<TableDescriptor>) -> Result<string>

  /** Every kept question's prompt can be rendered. */
  predicate AllRender(kept: seq<Example>, groups: map<string, seq<TableDescriptor>>, render: Renderer)
    requires forall k :: 0 <= k < |kept| ==> kept[k].dbId in groups
  {
    forall k :: 0 <= k < |kept| ==> render(kept[k], groups[kept[k].dbId]).Success?
  }

  /** The row of a question: its database, its rendered prompt and its gold query. */
  predicate RowFor(row: Row, ex: Example, groups: map<string, seq<TableDescriptor>>, render: Renderer)
    requires ex.dbId in groups
  {
    row.dbId == ex.dbId && row.completion == ex.query && render(ex, groups[ex.dbId]) == Success(row.prompt)
  }

  /** One row per kept question, in order; the first prompt that cannot be
      rendered aborts. */
  function RowsFor(kept: seq<Example>, groups: map<string, seq<TableDescriptor>>, render: Renderer): (r: Result<seq<Row>>)
    requires forall k :: 0 <= k < |kept| ==> kept[k].dbId in groups
    ensures r.Success? <==> AllRender(kept, groups, render)
    ensures r.Success? ==> |r.value| == |kept|
    ensures r.Success? ==> forall k :: 0 <= k < |kept| ==> RowFor(r.value[k], kept[k], groups, render)
    decreases |kept|
  {
    if |kept| == 0 then Success([])
    else
      var init := kept[..|kept| - 1];
      var ex := kept[|kept| - 1];
      assert forall k :: 0 <= k < |init| ==> init[k] == kept[k];
      var before :- RowsFor(init, groups, render);
      var prompt :- render(ex, groups[ex.dbId]);
      Success(before + [Row(ex.dbId, prompt, ex.query)])
  }

  /** The row loop of `main`: questions of unknown databases are skipped,
      every other one becomes a row. */
  function AssembleRows(questions: seq<Example>, groups: map<string, seq<TableDescriptor>>, render: Renderer): (r: Result<seq<Row>>)
    ensures r.Success? <==> AllRender(Known(questions, groups), groups, render)
    ensures r.Success? ==> |r.value| == |Known(questions, groups)|
    ensures r.Success? ==> forall k :: 0 <= k < |r.value| ==> RowFor(r.value[k], Known(questions, groups)[k], groups, render)
  {
    RowsFor(Known(questions, groups), groups, render)
  }

  /** With the prompt of `main`, the run fails exactly when a kept
      question's database has a column that cannot be read. */
  lemma AssembleRowsSucceeds(questions: seq<Example>, groups: map<string, seq<TableDescriptor>>)
    ensures AssembleRows(questions, groups, ExamplePrompt).Success? <==>
            forall i :: 0 <= i < |questions| && questions[i].dbId in groups ==> Readable(groups[questions[i].dbId])
  {
    var kept := Known(questions, groups);
    KnownSpec(questions, groups);
    if AssembleRows(questions, groups, ExamplePrompt).Success? {
      forall i | 0 <= i < |questions| && questions[i].dbId in groups
        ensures Readable(groups[questions[i].dbId])
      {
        var k :| 0 <= k < |kept| && kept[k] == questions[i];
        assert ExamplePrompt(kept[k], groups[kept[k].dbId]).Success?;
      }
    } else {
      var k :| 0 <= k < |kept| && !ExamplePrompt(kept[k], groups[kept[k].dbId]).Success?;
      var i :| 0 <= i < |questions| && questions[i] == kept[k];
      assert !Readable(groups[questions[i].dbId]);
    }
  }

  /** `main` without the file I/O: group the entries, then build the rows.
      Every row's prompt names its database first and ends with the
      `### SQL:` cue, and is the prompt of one of the questions over
      exactly the tables of that database. */
  method PrepareDataset(questions: seq<Example>, entries: seq<EnrichedTable>) returns (rows: Result<seq<Row>>)
    ensures rows.Success? ==> forall k :: 0 <= k < |rows.value| ==>
              rows.value[k].dbId in DbIdsOf(entries)
              && StartsWith(rows.value[k].prompt, DatabaseLine(rows.value[k].dbId))
              && EndsWith(rows.value[k].prompt, SqlCue)
    ensures rows.Success? ==> forall k :: 0 <= k < |rows.value| ==>
              (exists ex :: ex in questions && ex.dbId == rows.value[k].dbId && ex.query == rows.value[k].completion
                 && ExamplePrompt(ex, GroupOf(entries, ex.dbId)) == Success(rows.value[k].prompt))
    ensures rows.Success? ==> |rows.value| == |Known(questions, GroupMap(entries))|
    ensures rows == AssembleRows(questions, GroupMap(entries), ExamplePrompt)
    ensures rows.Success? <==> forall i :: 0 <= i < |questions| && questions[i].dbId in DbIdsOf(entries) ==>
                                 Readable(GroupOf(entries, questions[i].dbId))
    ensures rows.Success? ==> forall k :: 0 <= k < |rows.value| ==>
              RowFor(rows.value[k], Known(questions, GroupMap(entries))[k], GroupMap(entries), ExamplePrompt)
  {
    var groups := GroupByDb(entries);
    assert groups == GroupMap(entries);
    rows := AssembleRows(questions, groups, ExamplePrompt);
    AssembleRowsSucceeds(questions, groups);
    if rows.Success? {
      var known := Known(questions, groups);
      KnownSpec(questions, groups);
      forall k | 0 <= k < |rows.value|
        ensures rows.value[k].dbId in DbIdsOf(entries)
        ensures StartsWith(rows.value[k].prompt, DatabaseLine(rows.value[k].dbId))
        ensures EndsWith(rows.value[k].prompt, SqlCue)
        ensures exists ex :: ex in questions && ex.dbId == rows.value[k].dbId && ex.query == rows.value[k].completion
                               && ExamplePrompt(ex, GroupOf(entries, ex.dbId)) == Success(rows.value[k].prompt)
      {
        var ex := known[k];
        assert ex in questions;
        assert ExamplePrompt(ex, groups[ex.dbId]) == Success(rows.value[k].prompt);
      }
    }
  }
}
