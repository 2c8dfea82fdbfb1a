/** The text-to-SQL prompt: a database heading, one block per table (a
    header with the table's intent, one line per column with its type and
    intent, a blank line), the question, and optionally the `### SQL:` cue.
    The same renderer serves the query path and the fine-tuning dataset. */
module SchemaPrompt {
  import opened Wrappers
  import opened Strings

  /** One table as the prompt sees it. Each column is a `name (type)` text;
      column intents are keyed by lower-cased column name. The table intent
      may be absent (SQL NULL), which Python renders as `None`. */
  datatype TableDescriptor = TableDescriptor(
    tableName: string,
    tableIntent: Option<string>,
    columns: seq<string>,
    columnIntents: map<string, string>)

  /** How an f-string renders an optional text. */
  function Show(o: Option<string>): string {
    match o
    case Some(s) => s
    case None => "None"
  }

  /** The separator between a column's name and its parenthesised type. */
  const TypeOpen: string := " ("

  /** How the descriptor builder writes a column: `name (type)`. */
  function ColumnEntry(name: string, typ: string): string {
    name + TypeOpen + typ + ")"
  }

  /** A column text read back: the name before the first ` (`, and the rest
      with every trailing `)` removed. A text without ` (` cannot be unpacked
      into two parts and raises. */
  function ParseColumn(col: string): (r: Result<(string, string)>)
    ensures r.Failure? <==> !Contains(col, TypeOpen)
    ensures r.Success? ==> !Contains(r.value.0, TypeOpen)
    ensures r.Success? ==> |r.value.1| == 0 || r.value.1[|r.value.1| - 1] != ')'
  {
    match SplitOnce(col, TypeOpen)
    case Some((name, rest)) => Success((name, RStrip(rest, IsCloseParen)))
    case None => Failure("ValueError: not enough values to unpack (expected 2, got 1)")
  }

  /** The intent of a column, looked up by its lower-cased name, or empty. */
  function IntentFor(intents: map<string, string>, name: string): string {
    if Lower(name) in intents then intents[Lower(name)] else ""
  }

  function ColumnLine(name: string, typ: string, intent: string): string {
    "- " + name + TypeOpen + typ + "): " + intent
  }

  /** One column rendered as its prompt line, or the reading error. */
  function RenderColumn(col: string, intents: map<string, string>): (r: Result<string>)
    ensures r.Failure? <==> !Contains(col, TypeOpen)
  {
    match ParseColumn(col)
    case Failure(e) => Failure(e)
    case Success((name, typ)) => Success(ColumnLine(name, typ, IntentFor(intents, name)))
  }

  /** A fallible step applied to every element, in order; the first failure aborts. */
  function MapAll<A>(xs: seq<A>, f: A -> Result<string>): (r: Result<seq<string>>)
    ensures r.Failure? <==> exists j :: 0 <= j < |xs| && f(xs[j]).Failure?
    ensures r.Success? ==> |r.value| == |xs|
    ensures r.Success? ==> forall j :: 0 <= j < |xs| ==> f(xs[j]) == Success(r.value[j])
    decreases |xs|
  {
    if |xs| == 0 then Success([])
    else
      var tail := xs[1..];
      assert forall j :: 1 <= j < |xs| ==> xs[j] == tail[j - 1];
      match f(xs[0])
      case Failure(e) => Failure(e)
      case Success(y) =>
        match MapAll(tail, f)
        case Failure(e) => Failure(e)
        case Success(ys) => Success([y] + ys)
  }

  /** The column lines of one table, in column order; the first column that
      cannot be read makes the whole rendering fail. */
  function ColumnLines(cols: seq<string>, intents: map<string, string>): (r: Result<seq<string>>)
    ensures r.Failure? <==> exists j :: 0 <= j < |cols| && RenderColumn(cols[j], intents).Failure?
    ensures r.Success? ==> |r.value| == |cols|
    ensures r.Success? ==> forall j :: 0 <= j < |cols| ==> RenderColumn(cols[j], intents) == Success(r.value[j])
  {
    MapAll(cols, c => RenderColumn(c, intents))
  }

  function DatabaseLine(db: string): string {
    "### Database: " + db
  }

  function QuestionLine(question: string): string {
    "### Question: " + question
  }

  /** The cue after which the model writes the query. */
  const SqlCue: string := "### SQL:"

  function Header(t: TableDescriptor): string {
    "### Table Schema: " + t.tableName + " - " + Show(t.tableIntent)
  }

  /** Every column of the table carries the type marker, so it can be read. */
  predicate TableReadable(t: TableDescriptor) {
    forall j :: 0 <= j < |t.columns| ==> Contains(t.columns[j], TypeOpen)
  }

  /** A table's block: header, column lines, blank line. */
  function TableLines(t: TableDescriptor): (r: Result<seq<string>>)
    ensures r.Success? <==> ColumnLines(t.columns, t.columnIntents).Success?
    ensures r.Success? ==> r.value == [Header(t)] + ColumnLines(t.columns, t.columnIntents).value + [""]
  {
    var cols :- ColumnLines(t.columns, t.columnIntents);
    Success([Header(t)] + cols + [""])
  }

  /** A table's block renders exactly when every column can be read; it is
      the header, then line `j + 1` is column `j` rendered, then a blank line. */
  lemma TableLinesSpec(t: TableDescriptor)
    ensures TableLines(t).Success? <==> TableReadable(t)
    ensures TableLines(t).Success? ==>
              |TableLines(t).value| == |t.columns| + 2
              && TableLines(t).value[0] == Header(t) && TableLines(t).value[|t.columns| + 1] == ""
              && forall j :: 0 <= j < |t.columns| ==>
                   RenderColumn(t.columns[j], t.columnIntents) == Success(TableLines(t).value[j + 1])
  {
    var cl := ColumnLines(t.columns, t.columnIntents);
    if cl.Success? {
      var v := TableLines(t).value;
      assert forall j :: 0 <= j < |t.columns| ==> v[j + 1] == cl.value[j];
    }
  }

  /** Every column of every table can be read. */
  predicate Readable(schema: seq<TableDescriptor>) {
    forall i :: 0 <= i < |schema| ==> TableReadable(schema[i])
  }

  /** Lines of all table blocks: each table contributes its columns plus two. */
  function BlockSize(schema: seq<TableDescriptor>): nat
    decreases |schema|
  {
    if |schema| == 0 then 0 else |schema[0].columns| + 2 + BlockSize(schema[1..])
  }

  /** Tables rendered one by one, their blocks concatenated in order; the
      first table that fails to render makes the whole fail. */
  function Blocks(schema: seq<TableDescriptor>, render: TableDescriptor -> Result<seq<string>>): Result<seq<string>>
    decreases |schema|
  {
    if |schema| == 0 then Success([])
    else
      match render(schema[0])
      case Failure(e) => Failure(e)
      case Success(first) =>
        match Blocks(schema[1..], render)
        case Failure(e) => Failure(e)
        case Success(more) => Success(first + more)
  }

  lemma {:induction false} BlocksAppend(a: seq<TableDescriptor>, b: seq<TableDescriptor>,
                                        render: TableDescriptor -> Result<seq<string>>)
    ensures Blocks(a + b, render).Success? <==> Blocks(a, render).Success? && Blocks(b, render).Success?
    ensures Blocks(a + b, render).Success? ==> Blocks(a + b, render).value == Blocks(a, render).value + Blocks(b, render).value
    decreases |a|
  {
    if |a| == 0 {
      assert a + b == b;
    } else {
      assert (a + b)[0] == a[0];
      assert (a + b)[1..] == a[1..] + b;
      BlocksAppend(a[1..], b, render);
    }
  }

  lemma BlockAt(schema: seq<TableDescriptor>, render: TableDescriptor -> Result<seq<string>>, i: nat)
    requires i < |schema| && Blocks(schema, render).Success?
    ensures Blocks(schema[..i], render).Success? && render(schema[i]).Success?
    ensures var lo := |Blocks(schema[..i], render).value|;
            lo + |render(schema[i]).value| <= |Blocks(schema, render).value|
            && Blocks(schema, render).value[lo..lo + |render(schema[i]).value|] == render(schema[i]).value
  {
    var pre, post := schema[..i], schema[i..];
    assert schema == pre + post;
    BlocksAppend(pre, post, render);
    assert post[0] == schema[i];
    var p, m := Blocks(pre, render).value, render(schema[i]).value;
    var tail := Blocks(post[1..], render).value;
    assert Blocks(schema, render).value == p + (m + tail);
    assert (p + (m + tail))[|p|..|p| + |m|] == m;
  }

  /** Line `k` of table `i`'s block is line `k` past the blocks before it. */
  lemma BlockLineAt(schema: seq<TableDescriptor>, render: TableDescriptor -> Result<seq<string>>, i: nat, k: nat)
    requires i < |schema| && Blocks(schema, render).Success?
    ensures Blocks(schema[..i], render).Success? && render(schema[i]).Success?
    ensures k < |render(schema[i]).value| ==>
              |Blocks(schema[..i], render).value| + k < |Blocks(schema, render).value|
              && Blocks(schema, render).value[|Blocks(schema[..i], render).value| + k] == render(schema[i]).value[k]
  {
    BlockAt(schema, render, i);
    var lo, m := |Blocks(schema[..i], render).value|, render(schema[i]).value;
    if k < |m| {
      InSlice(Blocks(schema, render).value, lo, lo + |m|, m, k);
    }
  }

  /** The blocks of all tables, in schema order. */
  function SchemaLines(schema: seq<TableDescriptor>): (r: Result<seq<string>>)
    ensures r.Success? ==> |r.value| == BlockSize(schema)
  {
    BlocksSize(schema);
    Blocks(schema, TableLines)
  }

  lemma {:induction false} BlocksSize(schema: seq<TableDescriptor>)
    ensures Blocks(schema, TableLines).Success? ==> |Blocks(schema, TableLines).value| == BlockSize(schema)
    decreases |schema|
  {
    if |schema| > 0 {
      BlocksSize(schema[1..]);
      TableLinesSpec(schema[0]);
    }
  }

  /** The blocks render exactly when every column of every table can be read. */
  lemma {:induction false} SchemaLinesReadable(schema: seq<TableDescriptor>)
    ensures SchemaLines(schema).Success? <==> Readable(schema)
    decreases |schema|
  {
    if |schema| > 0 {
      var rest := schema[1..];
      SchemaLinesReadable(rest);
      TableLinesSpec(schema[0]);
      assert forall i :: 1 <= i < |schema| ==> schema[i] == rest[i - 1];
      assert SchemaLines(schema).Success? <==> TableLines(schema[0]).Success? && SchemaLines(rest).Success?;
      assert Readable(schema) <==> TableReadable(schema[0]) && Readable(rest);
    }
  }

  /** Rendering the blocks is table by table: the blocks of a concatenation
      are the blocks of its parts, one after the other. */
  lemma SchemaLinesAppend(a: seq<TableDescriptor>, b: seq<TableDescriptor>)
    ensures SchemaLines(a + b).Success? <==> SchemaLines(a).Success? && SchemaLines(b).Success?
    ensures SchemaLines(a + b).Success? ==> SchemaLines(a + b).value == SchemaLines(a).value + SchemaLines(b).value
  {
    BlocksAppend(a, b, TableLines);
  }

  /** Table `i`'s block sits right after the blocks of the tables before it. */
  lemma TableBlockAt(schema: seq<TableDescriptor>, i: nat)
    requires i < |schema| && SchemaLines(schema).Success?
    ensures TableLines(schema[i]).Success?
    ensures BlockSize(schema[..i]) + |schema[i].columns| + 2 <= |SchemaLines(schema).value|
    ensures SchemaLines(schema).value[BlockSize(schema[..i])..BlockSize(schema[..i]) + |schema[i].columns| + 2]
         == TableLines(schema[i]).value
  {
    BlockAt(schema, TableLines, i);
    BlocksSize(schema[..i]);
    TableLinesSpec(schema[i]);
  }

  /** The prompt's lines around given table blocks: database heading, blank
      line, the blocks, the question and, optionally, the SQL cue. */
  function Framed(question: string, db: string, blocks: seq<string>, includeSql: bool): (r: seq<string>)
    ensures |r| == 3 + |blocks| + (if includeSql then 1 else 0)
    ensures r[0] == DatabaseLine(db) && r[1] == "" && r[2..2 + |blocks|] == blocks
    ensures r[2 + |blocks|] == QuestionLine(question)
    ensures r[|r| - 1] == (if includeSql then SqlCue else QuestionLine(question))
  {
    [DatabaseLine(db), ""] + blocks + [QuestionLine(question)] + (if includeSql then [SqlCue] else [])
  }

  /** All lines of the prompt. */
  function PromptLines(question: string, db: string, schema: seq<TableDescriptor>, includeSql: bool): (r: Result<seq<string>>)
    ensures r.Success? <==> Readable(schema)
    ensures r.Success? <==> SchemaLines(schema).Success?
    ensures r.Success? ==> |r.value| == 3 + BlockSize(schema) + (if includeSql then 1 else 0)
    ensures r.Success? ==> r.value[0] == DatabaseLine(db) && r.value[1] == ""
    ensures r.Success? ==> r.value[2..2 + BlockSize(schema)] == SchemaLines(schema).value
    ensures r.Success? ==> r.value[2 + BlockSize(schema)] == QuestionLine(question)
    ensures r.Success? ==> r.value[|r.value| - 1] == (if includeSql then SqlCue else QuestionLine(question))
  {
    SchemaLinesReadable(schema);
    var blocks :- SchemaLines(schema);
    Success(Framed(question, db, blocks, includeSql))
  }

  /** `build_prompt`: the lines joined by line breaks, with no final break. */
  function BuildPrompt(question: string, db: string, schema: seq<TableDescriptor>, includeSql: bool): (r: Result<string>)
    ensures r.Success? <==> Readable(schema)
    ensures r.Success? ==> StartsWith(r.value, DatabaseLine(db))
    ensures r.Success? && includeSql ==> EndsWith(r.value, SqlCue)
    ensures r.Success? ==> Contains(r.value, "\n" + QuestionLine(question))
  {
    var lines :- PromptLines(question, db, schema, includeSql);
    JoinStartsWithFirst(lines, "\n");
    JoinEndsWithLast(lines, "\n");
    JoinHasLine(lines, "\n", 2 + BlockSize(schema));
    Success(Join(lines, "\n"))
  }

  /** An element read through a slice. */
  lemma InSlice<T>(s: seq<T>, a: nat, b: nat, u: seq<T>, k: nat)
    requires a <= b <= |s| && s[a..b] == u && k < b - a
    ensures s[a + k] == u[k]
  {
    assert s[a..b][k] == s[a + k];
  }

  /** Line `k` of table `i`'s block is line `BlockSize(schema[..i]) + k` of
      the table blocks. */
  lemma TableLineAt(schema: seq<TableDescriptor>, i: nat, k: nat)
    requires i < |schema| && SchemaLines(schema).Success? && k < |schema[i].columns| + 2
    ensures TableLines(schema[i]).Success?
    ensures BlockSize(schema[..i]) + k < |SchemaLines(schema).value|
    ensures SchemaLines(schema).value[BlockSize(schema[..i]) + k] == TableLines(schema[i]).value[k]
  {
    TableLinesSpec(schema[i]);
    BlocksSize(schema[..i]);
    BlockLineAt(schema, TableLines, i, k);
  }

  /** Line `k` of table `i`'s block is a line of the prompt, after the
      database heading, the blank line and the blocks of the tables before it. */
  lemma PromptLineAt(question: string, db: string, schema: seq<TableDescriptor>, includeSql: bool, i: nat, k: nat)
    requires i < |schema| && Readable(schema) && k < |schema[i].columns| + 2
    ensures PromptLines(question, db, schema, includeSql).Success? && TableLines(schema[i]).Success?
    ensures 2 + BlockSize(schema[..i]) + k < |PromptLines(question, db, schema, includeSql).value|
    ensures PromptLines(question, db, schema, includeSql).value[2 + BlockSize(schema[..i]) + k] == TableLines(schema[i]).value[k]
  {
    SchemaLinesReadable(schema);
    TableLineAt(schema, i, k);
    var blocks := SchemaLines(schema).value;
    var m := BlockSize(schema[..i]) + k;
    assert Framed(question, db, blocks, includeSql)[2 + m] == blocks[m];
  }

  lemma BuildPromptJoins(question: string, db: string, schema: seq<TableDescriptor>, includeSql: bool)
    requires PromptLines(question, db, schema, includeSql).Success?
    ensures BuildPrompt(question, db, schema, includeSql) == Success(Join(PromptLines(question, db, schema, includeSql).value, "\n"))
  {
  }

  /** Every line of table `i`'s block shows in the prompt right after a line break. */
  lemma PromptShowsLine(question: string, db: string, schema: seq<TableDescriptor>, includeSql: bool, i: nat, k: nat)
    requires i < |schema| && Readable(schema) && k < |schema[i].columns| + 2
    ensures TableLines(schema[i]).Success?
    ensures Contains(BuildPrompt(question, db, schema, includeSql).value, "\n" + TableLines(schema[i]).value[k])
  {
    PromptLineAt(question, db, schema, includeSql, i, k);
    BuildPromptJoins(question, db, schema, includeSql);
    JoinedHasLine(BuildPrompt(question, db, schema, includeSql).value, PromptLines(question, db, schema, includeSql).value,
                  "\n", 2 + BlockSize(schema[..i]) + k, TableLines(schema[i]).value[k]);
  }

  /** Column `j` of table `i` shows in the prompt as its rendered line,
      right after a line break. */
  lemma PromptShowsColumn(question: string, db: string, schema: seq<TableDescriptor>, includeSql: bool, i: nat, j: nat)
    requires i < |schema| && Readable(schema) && j < |schema[i].columns|
    ensures RenderColumn(schema[i].columns[j], schema[i].columnIntents).Success?
    ensures Contains(BuildPrompt(question, db, schema, includeSql).value,
                     "\n" + RenderColumn(schema[i].columns[j], schema[i].columnIntents).value)
  {
    var t := schema[i];
    PromptShowsLine(question, db, schema, includeSql, i, j + 1);
    assert RenderColumn(t.columns[j], t.columnIntents) == Success(TableLines(t).value[j + 1]) by {
      TableLinesSpec(t);
    }
  }

  /** Every table of the schema shows in the prompt: its header, and each of
      its columns as its rendered line, each right after a line break. */
  lemma PromptShowsTable(question: string, db: string, schema: seq<TableDescriptor>, includeSql: bool, i: nat)
    requires i < |schema| && Readable(schema)
    ensures Contains(BuildPrompt(question, db, schema, includeSql).value, "\n" + Header(schema[i]))
    ensures forall j :: 0 <= j < |schema[i].columns| ==>
              Contains(BuildPrompt(question, db, schema, includeSql).value,
                       "\n" + RenderColumn(schema[i].columns[j], schema[i].columnIntents).value)
  {
    PromptShowsLine(question, db, schema, includeSql, i, 0);
    assert TableLines(schema[i]).value[0] == Header(schema[i]) by { TableLinesSpec(schema[i]); }
    forall j | 0 <= j < |schema[i].columns| {
      PromptShowsColumn(question, db, schema, includeSql, i, j);
    }
  }

  /** When no piece of text holds a line break, splitting the prompt at line
      breaks gives back exactly its lines. */
  lemma PromptLinesRecovered(question: string, db: string, schema: seq<TableDescriptor>, includeSql: bool)
    requires PromptLines(question, db, schema, includeSql).Success?
    requires forall i :: 0 <= i < |PromptLines(question, db, schema, includeSql).value| ==>
               '\n' !in PromptLines(question, db, schema, includeSql).value[i]
    ensures Split(BuildPrompt(question, db, schema, includeSql).value, '\n')
         == PromptLines(question, db, schema, includeSql).value
  {
    JoinThenSplit(PromptLines(question, db, schema, includeSql).value, '\n');
  }

  // ---------------------------------------------------------------------------
  // Column round trip
  // ---------------------------------------------------------------------------

  /** Dropping characters from the right ignores a dropped character appended last. */
  lemma RStripAppendDropped(s: string, c: char, drop: char -> bool)
    requires drop(c)
    ensures RStrip(s + [c], drop) == RStrip(s, drop)
  {
    assert (s + [c])[..|s + [c]| - 1] == s;
  }

  /** A column written by the descriptor builder reads back with its name
      intact and its type stripped of every trailing `)`, provided the name
      holds no ` (` and does not end in a blank or `(`. */
  lemma ColumnEntryRoundTrip(name: string, typ: string)
    requires !Contains(name, TypeOpen)
    requires |name| > 0 ==> CharsOutside([name[|name| - 1]], TypeOpen)
    ensures ParseColumn(ColumnEntry(name, typ)) == Success((name, RStrip(typ, IsCloseParen)))
  {
    SplitOnceAfter(name, TypeOpen, typ + ")");
    assert ColumnEntry(name, typ) == name + TypeOpen + (typ + ")");
    RStripAppendDropped(typ, ')', IsCloseParen);
  }

  /** A type with no trailing `)` survives the round trip unchanged. */
  lemma PlainTypeRoundTrip(name: string, typ: string)
    requires !Contains(name, TypeOpen)
    requires |name| > 0 ==> CharsOutside([name[|name| - 1]], TypeOpen)
    requires |typ| == 0 || typ[|typ| - 1] != ')'
    ensures ParseColumn(ColumnEntry(name, typ)) == Success((name, typ))
  {
    ColumnEntryRoundTrip(name, typ);
  }

  /** A type ending in `)`, such as `DECIMAL(10)`, loses that parenthesis:
      it renders as `DECIMAL(10`. */
  lemma ClosingParenLost(name: string, base: string)
    requires !Contains(name, TypeOpen)
    requires |name| > 0 ==> CharsOutside([name[|name| - 1]], TypeOpen)
    requires |base| == 0 || base[|base| - 1] != ')'
    ensures ParseColumn(ColumnEntry(name, base + ")")) == Success((name, base))
  {
    ColumnEntryRoundTrip(name, base + ")");
    RStripAppendDropped(base, ')', IsCloseParen);
  }
}
