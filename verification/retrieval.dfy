/** Schema retrieval for a question: rank the tables that carry an intent by
    the similarity of that intent to the question, keep the best `top_k`, and
    describe each kept table (columns, types, intents) under the database of
    the best one. The similarity itself comes from a sentence-embedding model
    and is taken here as an oracle. */
module Retrieval {
  import opened Wrappers
  import opened Strings
  import opened Seqs
  import opened MetadataStore
  import opened SchemaPrompt

  /** One row of `SELECT DISTINCT db_id, table_name, table_intent`. */
  datatype Candidate = Candidate(dbId: string, tableName: string, tableIntent: Option<string>)

  function CandidateOf(rec: ColumnRecord): Candidate {
    Candidate(rec.dbId, rec.tableName, rec.tableIntent)
  }

  /** The distinct candidates of the store, in order of first appearance. */
  function Candidates(store: Store): (r: seq<Candidate>)
    ensures NoDuplicates(r)
    ensures forall i :: 0 <= i < |store| ==> CandidateOf(store[i]) in r
    ensures forall k :: 0 <= k < |r| ==> exists i :: 0 <= i < |store| && CandidateOf(store[i]) == r[k]
  {
    var cs := seq(|store|, i requires 0 <= i < |store| => CandidateOf(store[i]));
    var r := Distinct(cs);
    forall i | 0 <= i < |store|
      ensures CandidateOf(store[i]) in r
    {
      assert cs[i] in r;
    }
    assert forall k :: 0 <= k < |r| ==> r[k] in cs;
    r
  }

  /** A table is ranked only when its intent is neither NULL nor empty. */
  function Eligible(c: Candidate): (b: bool)
    ensures b <==> c.tableIntent.GetOr("") != ""
  {
    c.tableIntent.Some? && c.tableIntent.value != ""
  }

  /** The entry `(score, db_id, table_name)` that is sorted. */
  datatype Scored = Scored(score: real, dbId: string, tableName: string)

  /** Similarity of a question to a table intent (cosine similarity of their
      sentence embeddings). */
  type Similarity = (string, string) -> real

  function ScoreOf(c: Candidate, sim: Similarity, question: string): Scored
    requires Eligible(c)
  {
    Scored(sim(question, c.tableIntent.value), c.dbId, c.tableName)
  }

  /** The scored list: one entry per eligible candidate, in candidate order. */
  function ScoreAll(cs: seq<Candidate>, sim: Similarity, question: string): (r: seq<Scored>)
    ensures |r| <= |cs|
    ensures forall i :: 0 <= i < |cs| && Eligible(cs[i]) ==> ScoreOf(cs[i], sim, question) in r
    ensures forall k :: 0 <= k < |r| ==> exists i :: 0 <= i < |cs| && Eligible(cs[i]) && r[k] == ScoreOf(cs[i], sim, question)
    decreases |cs|
  {
    if |cs| == 0 then []
    else
      var init := cs[..|cs| - 1];
      var c := cs[|cs| - 1];
      var r0 := ScoreAll(init, sim, question);
      assert forall i :: 0 <= i < |init| ==> init[i] == cs[i];
      if Eligible(c) then r0 + [ScoreOf(c, sim, question)] else r0
  }

  /** Scoring is candidate by candidate: a lone candidate gives its score
      exactly when it is eligible, and scoring a concatenation concatenates
      the scores. Together these fix every entry and its multiplicity. */
  lemma ScoreSingle(c: Candidate, sim: Similarity, question: string)
    ensures ScoreAll([c], sim, question) == if Eligible(c) then [ScoreOf(c, sim, question)] else []
  {
    assert [c][..0] == [];
  }

  lemma {:induction false} ScoreAllAppend(a: seq<Candidate>, b: seq<Candidate>, sim: Similarity, question: string)
    ensures ScoreAll(a + b, sim, question) == ScoreAll(a, sim, question) + ScoreAll(b, sim, question)
    decreases |b|
  {
    if |b| == 0 {
      assert a + b == a;
    } else {
      var init, c := b[..|b| - 1], b[|b| - 1];
      var last := if Eligible(c) then [ScoreOf(c, sim, question)] else [];
      ScoreAllAppend(a, init, sim, question);
      assert (a + b)[..|a + b| - 1] == a + init;
      assert (a + b)[|a + b| - 1] == c;
      assert ScoreAll(a + b, sim, question) == ScoreAll(a + init, sim, question) + last;
      assert ScoreAll(b, sim, question) == ScoreAll(init, sim, question) + last;
    }
  }

  // ---------------------------------------------------------------------------
  // Descending tuple order
  // ---------------------------------------------------------------------------

  /** Python's tuple comparison `x > y`: score first, then database name,
      then table name. */
  predicate Above(x: Scored, y: Scored) {
    x.score > y.score
    || (x.score == y.score && (StrLess(y.dbId, x.dbId)
                               || (x.dbId == y.dbId && StrLess(y.tableName, x.tableName))))
  }

  predicate AtLeast(x: Scored, y: Scored) {
    x == y || Above(x, y)
  }

  predicate SortedDesc(s: seq<Scored>) {
    forall i, j :: 0 <= i < j < |s| ==> AtLeast(s[i], s[j])
  }

  lemma AtLeastTotal(x: Scored, y: Scored)
    ensures AtLeast(x, y) || AtLeast(y, x)
  {
    StrLessTotal(x.dbId, y.dbId);
    StrLessTotal(x.tableName, y.tableName);
  }

  lemma AtLeastAntisymmetric(x: Scored, y: Scored)
    requires AtLeast(x, y) && AtLeast(y, x)
    ensures x == y
  {
    StrLessAsymmetric(x.dbId, y.dbId);
    StrLessAsymmetric(x.tableName, y.tableName);
    StrLessIrreflexive(x.dbId);
    StrLessIrreflexive(x.tableName);
  }

  lemma AtLeastTransitive(x: Scored, y: Scored, z: Scored)
    requires AtLeast(x, y) && AtLeast(y, z)
    ensures AtLeast(x, z)
  {
    if x != y && y != z && x.score == y.score && y.score == z.score {
      if StrLess(y.dbId, x.dbId) && StrLess(z.dbId, y.dbId) {
        StrLessTransitive(z.dbId, y.dbId, x.dbId);
      } else if x.dbId == y.dbId && y.dbId == z.dbId {
        StrLessTransitive(z.tableName, y.tableName, x.tableName);
      }
    }
  }

  // ---------------------------------------------------------------------------
  // Sorting
  // ---------------------------------------------------------------------------

  /** Insert `x` before the first entry it is at least as high as. */
  function InsertDesc(x: Scored, s: seq<Scored>): (r: seq<Scored>)
    ensures multiset(r) == multiset(s) + multiset{x}
    decreases |s|
  {
    if |s| == 0 then [x]
    else if AtLeast(x, s[0]) then [x] + s
    else
      assert s == [s[0]] + s[1..];
      [s[0]] + InsertDesc(x, s[1..])
  }

  lemma {:induction false} InsertDescSorted(x: Scored, s: seq<Scored>)
    requires SortedDesc(s)
    ensures SortedDesc(InsertDesc(x, s))
    decreases |s|
  {
    if |s| > 0 {
      if AtLeast(x, s[0]) {
        forall j | 0 <= j < |s|
          ensures AtLeast(x, s[j])
        {
          if j > 0 {
            AtLeastTransitive(x, s[0], s[j]);
          }
        }
        ConsSorted(x, s);
      } else {
        AtLeastTotal(x, s[0]);
        var tail := s[1..];
        InsertDescSorted(x, tail);
        HeadAboveInserted(x, s);
        ConsSorted(s[0], InsertDesc(x, tail));
      }
    }
  }

  /** An entry at least as high as every entry of a descending list can lead it. */
  lemma ConsSorted(h: Scored, t: seq<Scored>)
    requires SortedDesc(t)
    requires forall j :: 0 <= j < |t| ==> AtLeast(h, t[j])
    ensures SortedDesc([h] + t)
  {
    var r := [h] + t;
    forall i, j | 0 <= i < j < |r|
      ensures AtLeast(r[i], r[j])
    {
      assert r[j] == t[j - 1];
      if i > 0 {
        assert r[i] == t[i - 1];
      }
    }
  }

  /** The head of a descending list stays above its tail after inserting an
      entry it is at least as high as. */
  lemma HeadAboveInserted(x: Scored, s: seq<Scored>)
    requires SortedDesc(s) && |s| > 0 && AtLeast(s[0], x)
    ensures forall j :: 0 <= j < |InsertDesc(x, s[1..])| ==> AtLeast(s[0], InsertDesc(x, s[1..])[j])
  {
    var tail := s[1..];
    var rt := InsertDesc(x, tail);
    forall j | 0 <= j < |rt|
      ensures AtLeast(s[0], rt[j])
    {
      assert rt[j] in multiset(rt);
      assert rt[j] in multiset(tail) + multiset{x};
      if rt[j] != x {
        assert rt[j] in tail;
        var k :| 0 <= k < |tail| && tail[k] == rt[j];
        assert s[k + 1] == rt[j];
      }
    }
  }

  /** `scored.sort(reverse=True)`: descending on the whole tuple. Entries that
      compare equal are identical, so stability plays no part. */
  function SortDesc(s: seq<Scored>): (r: seq<Scored>)
    ensures multiset(r) == multiset(s)
    ensures SortedDesc(r)
    decreases |s|
  {
    if |s| == 0 then []
    else
      assert s == [s[0]] + s[1..];
      InsertDescSorted(s[0], SortDesc(s[1..]));
      InsertDesc(s[0], SortDesc(s[1..]))
  }

  /** There is only one descending arrangement of a collection of entries. */
  lemma {:induction false} SortedUnique(a: seq<Scored>, b: seq<Scored>)
    requires SortedDesc(a) && SortedDesc(b)
    requires multiset(a) == multiset(b)
    ensures a == b
    decreases |a|
  {
    if |a| == 0 {
      assert |multiset(b)| == 0;
    } else {
      SortedHeadsAgree(a, b);
      MultisetTails(a, b);
      SortedUnique(a[1..], b[1..]);
      assert a == [a[0]] + a[1..] && b == [b[0]] + b[1..];
    }
  }

  /** Two descending arrangements of the same entries start with the same entry. */
  lemma SortedHeadsAgree(a: seq<Scored>, b: seq<Scored>)
    requires SortedDesc(a) && SortedDesc(b)
    requires multiset(a) == multiset(b) && |a| > 0
    ensures |b| > 0 && a[0] == b[0]
  {
    assert |b| == |multiset(b)| == |multiset(a)| == |a|;
    assert a[0] in multiset(b);
    var j :| 0 <= j < |b| && b[j] == a[0];
    assert AtLeast(b[0], a[0]);
    assert b[0] in multiset(a);
    var i :| 0 <= i < |a| && a[i] == b[0];
    assert AtLeast(a[0], b[0]);
    AtLeastAntisymmetric(a[0], b[0]);
  }

  /** Removing the same first entry from equal multisets leaves equal multisets. */
  lemma MultisetTails<T>(a: seq<T>, b: seq<T>)
    requires multiset(a) == multiset(b) && |a| > 0 && |b| > 0 && a[0] == b[0]
    ensures multiset(a[1..]) == multiset(b[1..])
  {
    assert a == [a[0]] + a[1..] && b == [b[0]] + b[1..];
    assert multiset(a) == multiset{a[0]} + multiset(a[1..]);
    assert multiset(b) == multiset{b[0]} + multiset(b[1..]);
    assert multiset(a[1..]) == multiset(a) - multiset{a[0]};
    assert multiset(b[1..]) == multiset(b) - multiset{b[0]};
  }

  /** All scored tables of the store, best first. */
  function Ranked(store: Store, sim: Similarity, question: string): (r: seq<Scored>)
    ensures SortedDesc(r)
    ensures multiset(r) == multiset(ScoreAll(Candidates(store), sim, question))
  {
    SortDesc(ScoreAll(Candidates(store), sim, question))
  }

  /** The ranking is the descending arrangement of exactly the scored
      tables: any other descending arrangement of them is the same list. */
  lemma RankingIsDescendingOrder(store: Store, sim: Similarity, question: string, other: seq<Scored>)
    requires SortedDesc(other)
    requires multiset(other) == multiset(ScoreAll(Candidates(store), sim, question))
    ensures Ranked(store, sim, question) == other
  {
    SortedUnique(Ranked(store, sim, question), other);
  }

  /** Every scored entry is the score of a row with a non-empty table intent. */
  lemma ScoredFromEligibleRows(store: Store, sim: Similarity, question: string, e: Scored)
    requires e in ScoreAll(Candidates(store), sim, question)
    ensures exists i :: 0 <= i < |store| && Eligible(CandidateOf(store[i]))
              && e == ScoreOf(CandidateOf(store[i]), sim, question)
  {
    var cs := Candidates(store);
    var c := ScoredFrom(cs, sim, question, e);
    var i := CandidateFrom(store, c);
    assert Eligible(CandidateOf(store[i])) && e == ScoreOf(CandidateOf(store[i]), sim, question);
  }

  lemma ScoredFrom(cs: seq<Candidate>, sim: Similarity, question: string, e: Scored) returns (c: Candidate)
    requires e in ScoreAll(cs, sim, question)
    ensures c in cs && Eligible(c) && e == ScoreOf(c, sim, question)
  {
    var scored := ScoreAll(cs, sim, question);
    var m :| 0 <= m < |scored| && scored[m] == e;
    var k :| 0 <= k < |cs| && Eligible(cs[k]) && scored[m] == ScoreOf(cs[k], sim, question);
    c := cs[k];
  }

  lemma CandidateFrom(store: Store, c: Candidate) returns (i: nat)
    requires c in Candidates(store)
    ensures i < |store| && CandidateOf(store[i]) == c
  {
    var cs := Candidates(store);
    var k :| 0 <= k < |cs| && cs[k] == c;
    i :| 0 <= i < |store| && CandidateOf(store[i]) == cs[k];
  }

  /** Every ranked entry is the score of a row with a non-empty table intent. */
  lemma RankedFromEligibleRows(store: Store, sim: Similarity, question: string, k: nat)
    requires k < |Ranked(store, sim, question)|
    ensures exists i :: 0 <= i < |store| && Eligible(CandidateOf(store[i]))
              && Ranked(store, sim, question)[k] == ScoreOf(CandidateOf(store[i]), sim, question)
  {
    var scored := ScoreAll(Candidates(store), sim, question);
    var ranked := Ranked(store, sim, question);
    assert ranked[k] in multiset(ranked);
    assert ranked[k] in multiset(scored);
    ScoredFromEligibleRows(store, sim, question, ranked[k]);
  }

  /** Every row with a non-empty table intent is scored and ranked. */
  lemma EligibleRowsRanked(store: Store, sim: Similarity, question: string, i: nat)
    requires i < |store| && Eligible(CandidateOf(store[i]))
    ensures ScoreOf(CandidateOf(store[i]), sim, question) in Ranked(store, sim, question)
  {
    var scored := ScoreAll(Candidates(store), sim, question);
    var cs := Candidates(store);
    var k :| 0 <= k < |cs| && cs[k] == CandidateOf(store[i]);
    assert ScoreOf(CandidateOf(store[i]), sim, question) in multiset(scored);
  }

  /** `get_top_tables_by_semantic_similarity`: the `(db_id, table_name)` of
      the first `top_k` ranked entries (a Python slice, so a negative `top_k`
      counts from the end). */
  function TopTables(store: Store, sim: Similarity, question: string, topK: int): (r: seq<(string, string)>)
    ensures topK >= 0 ==> |r| == Min(topK, |Ranked(store, sim, question)|)
    ensures |r| <= |Ranked(store, sim, question)|
    ensures forall k :: 0 <= k < |r| ==>
              r[k] == (Ranked(store, sim, question)[k].dbId, Ranked(store, sim, question)[k].tableName)
  {
    var kept := Take(Ranked(store, sim, question), topK);
    seq(|kept|, k requires 0 <= k < |kept| => (kept[k].dbId, kept[k].tableName))
  }

  /** Every kept table ranks at least as high as every table cut off. */
  lemma KeptOutrankDropped(store: Store, sim: Similarity, question: string, topK: int, i: nat, j: nat)
    requires i < |TopTables(store, sim, question, topK)| <= j < |Ranked(store, sim, question)|
    ensures AtLeast(Ranked(store, sim, question)[i], Ranked(store, sim, question)[j])
    ensures Ranked(store, sim, question)[i].score >= Ranked(store, sim, question)[j].score
  {
  }

  /** A store in which no table has an intent yields no tables at all. */
  lemma NoIntentNoTables(store: Store, sim: Similarity, question: string, topK: int)
    requires forall i :: 0 <= i < |store| ==> !Eligible(CandidateOf(store[i]))
    ensures TopTables(store, sim, question, topK) == []
  {
    var cs := Candidates(store);
    forall k | 0 <= k < |cs|
      ensures !Eligible(cs[k])
    {
      var i := CandidateFrom(store, cs[k]);
    }
    NothingEligibleNothingScored(cs, sim, question);
    assert multiset(Ranked(store, sim, question)) == multiset(ScoreAll(cs, sim, question));
  }

  /** Candidates none of which has a table intent score to nothing. */
  lemma {:induction false} NothingEligibleNothingScored(cs: seq<Candidate>, sim: Similarity, question: string)
    requires forall k :: 0 <= k < |cs| ==> !Eligible(cs[k])
    ensures ScoreAll(cs, sim, question) == []
    decreases |cs|
  {
    if |cs| > 0 {
      var init := cs[..|cs| - 1];
      assert forall k :: 0 <= k < |init| ==> init[k] == cs[k];
      NothingEligibleNothingScored(init, sim, question);
    }
  }

  // ---------------------------------------------------------------------------
  // Table descriptors
  // ---------------------------------------------------------------------------

  function ColumnEntries(rows: seq<ColumnRow>): (r: seq<string>)
    ensures |r| == |rows|
    ensures forall i :: 0 <= i < |rows| ==> r[i] == ColumnEntry(rows[i].name, rows[i].dataType)
  {
    seq(|rows|, i requires 0 <= i < |rows| => ColumnEntry(rows[i].name, rows[i].dataType))
  }

  /** The intent dict: lower-cased column name to intent, a later row
      overwriting an earlier one with the same lower-cased name. */
  function IntentPairs(rows: seq<ColumnRow>): (r: seq<(string, string)>)
    ensures |r| == |rows|
    ensures forall i :: 0 <= i < |rows| ==> r[i] == (Lower(rows[i].name), rows[i].intent)
  {
    seq(|rows|, i requires 0 <= i < |rows| => (Lower(rows[i].name), rows[i].intent))
  }

  function Describe(rows: seq<ColumnRow>, table: string, intent: Option<string>): (t: TableDescriptor)
    ensures t.tableName == table
  {
    TableDescriptor(table, intent, ColumnEntries(rows), FromPairs(IntentPairs(rows)))
  }

  /** The descriptors of a ranked list of `(db_id, table_name)` pairs: the
      first pair's database, and one descriptor per pair, in order, looked up
      under that database. */
  function SemanticInfo(store: Store, top: seq<(string, string)>): (r: (string, seq<TableDescriptor>))
    ensures |top| == 0 <==> r == ("", [])
    ensures |top| > 0 ==> r.0 == top[0].0 && |r.1| == |top|
                          && forall i :: 0 <= i < |r.1| ==> r.1[i].tableName == top[i].1
  {
    if |top| == 0 then ("", [])
    else
      var db := top[0].0;
      var tables := seq(|top|, i requires 0 <= i < |top| => top[i].1);
      var info := ColumnInfo(store, db, tables);
      assert forall i :: 0 <= i < |tables| ==> tables[i] in info.Keys && tables[i] == top[i].1;
      var descs := seq(|tables|, i requires 0 <= i < |tables| =>
                       Describe(info[tables[i]], tables[i], TableIntentOf(store, db, tables[i])));
      assert forall i :: 0 <= i < |descs| ==> descs[i].tableName == top[i].1 by {
        forall i | 0 <= i < |descs| ensures descs[i].tableName == top[i].1 {
          assert descs[i] == Describe(info[tables[i]], tables[i], TableIntentOf(store, db, tables[i]));
        }
      }
      (db, descs)
  }

  /** `build_semantic_info_dict`: the best table's database, and one
      descriptor per kept table (in rank order) looked up under it. */
  function BuildSemanticInfo(store: Store, sim: Similarity, question: string, topK: int): (r: (string, seq<TableDescriptor>))
    ensures |TopTables(store, sim, question, topK)| == 0 <==> r == ("", [])
    ensures |TopTables(store, sim, question, topK)| > 0 ==>
              r.0 == TopTables(store, sim, question, topK)[0].0
              && |r.1| == |TopTables(store, sim, question, topK)|
              && forall i :: 0 <= i < |r.1| ==> r.1[i].tableName == TopTables(store, sim, question, topK)[i].1
  {
    SemanticInfo(store, TopTables(store, sim, question, topK))
  }

  /** Each descriptor holds exactly the rows stored for that table under the
      chosen database, and that table's intent. */
  lemma DescriptorsFromStore(store: Store, sim: Similarity, question: string, topK: int, i: nat)
    requires i < |BuildSemanticInfo(store, sim, question, topK).1|
    ensures var (db, schema) := BuildSemanticInfo(store, sim, question, topK);
            schema[i] == Describe(ColumnsFor(store, db, schema[i].tableName), schema[i].tableName,
                                  TableIntentOf(store, db, schema[i].tableName))
  {
  }

  /** A kept table that has no row under the chosen database (it belongs to
      another database) is described with no columns and the empty intent. */
  lemma ForeignTableEmpty(store: Store, sim: Similarity, question: string, topK: int, i: nat)
    requires i < |BuildSemanticInfo(store, sim, question, topK).1|
    requires var (db, schema) := BuildSemanticInfo(store, sim, question, topK);
             forall k :: 0 <= k < |store| ==> !Belongs(store[k], db, schema[i].tableName)
    ensures BuildSemanticInfo(store, sim, question, topK).1[i].columns == []
    ensures BuildSemanticInfo(store, sim, question, topK).1[i].tableIntent == Some("")
  {
    var (db, schema) := BuildSemanticInfo(store, sim, question, topK);
    ColumnsForAbsent(store, db, schema[i].tableName);
  }

  /** A column's intent is found under its lower-cased name, and it is the
      intent of the last row sharing that lower-cased name. */
  lemma DescribedIntentLastWins(rows: seq<ColumnRow>, table: string, intent: Option<string>, i: nat)
    requires i < |rows|
    requires forall j :: i < j < |rows| ==> Lower(rows[j].name) != Lower(rows[i].name)
    ensures IntentFor(Describe(rows, table, intent).columnIntents, rows[i].name) == rows[i].intent
  {
    var ps := IntentPairs(rows);
    FromPairsLastWins(ps, i);
  }

  /** A described column whose name holds no ` (` and does not end in a
      blank or `(`, whose type has no trailing `)` and whose lower-cased name
      is not reused by a later row, renders as `- name (type): intent` with
      its own stored values. */
  lemma DescribedColumnRendered(rows: seq<ColumnRow>, table: string, intent: Option<string>, i: nat)
    requires i < |rows|
    requires !Contains(rows[i].name, TypeOpen)
    requires |rows[i].name| > 0 ==> CharsOutside([rows[i].name[|rows[i].name| - 1]], TypeOpen)
    requires |rows[i].dataType| == 0 || rows[i].dataType[|rows[i].dataType| - 1] != ')'
    requires forall j :: i < j < |rows| ==> Lower(rows[j].name) != Lower(rows[i].name)
    ensures var t := Describe(rows, table, intent);
            i < |t.columns|
            && RenderColumn(t.columns[i], t.columnIntents) == Success(ColumnLine(rows[i].name, rows[i].dataType, rows[i].intent))
  {
    PlainTypeRoundTrip(rows[i].name, rows[i].dataType);
    DescribedIntentLastWins(rows, table, intent, i);
  }

  /** From store to prompt: when a described table is part of a readable
      schema, such a column shows in the built prompt as
      `- name (type): intent`, right after a line break. */
  lemma DescribedColumnInPrompt(question: string, db: string, schema: seq<TableDescriptor>, includeSql: bool,
                                k: nat, rows: seq<ColumnRow>, table: string, intent: Option<string>, i: nat)
    requires k < |schema| && Readable(schema) && schema[k] == Describe(rows, table, intent)
    requires i < |rows|
    requires !Contains(rows[i].name, TypeOpen)
    requires |rows[i].name| > 0 ==> CharsOutside([rows[i].name[|rows[i].name| - 1]], TypeOpen)
    requires |rows[i].dataType| == 0 || rows[i].dataType[|rows[i].dataType| - 1] != ')'
    requires forall j :: i < j < |rows| ==> Lower(rows[j].name) != Lower(rows[i].name)
    ensures BuildPrompt(question, db, schema, includeSql).Success?
    ensures Contains(BuildPrompt(question, db, schema, includeSql).value,
                     "\n" + ColumnLine(rows[i].name, rows[i].dataType, rows[i].intent))
  {
    DescribedColumnRendered(rows, table, intent, i);
    PromptShowsColumn(question, db, schema, includeSql, k, i);
  }
}
