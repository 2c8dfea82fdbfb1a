/** CREATE TABLE statements to table skeletons (app/ddl_parser.py).

    The SQL tokenizer is not modelled: each statement arrives already
    classified (`kind`, the tokenizer's statement type) with its top-level
    tokens, of which only identifiers and parenthesised groups matter. */
module DdlParser {
  import opened Wrappers
  import opened Strings

  datatype Token = Identifier(name: string) | Parenthesis(text: string) | Other

  datatype Statement = Statement(kind: string, tokens: seq<Token>)

  /** One parsed table: parallel lists of column names and declared types. */
  datatype TableSkeleton = TableSkeleton(tableName: string, columnNames: seq<string>, dataTypes: seq<string>)

  const CreateKind := "CREATE"
  const ForeignKeyPrefix := "FOREIGN KEY"

  /** A well-formed skeleton: equal-length parallel lists of single words. */
  predicate ValidSkeleton(t: TableSkeleton) {
    && t.tableName != ""
    && |t.columnNames| == |t.dataTypes|
    && (forall i :: 0 <= i < |t.columnNames| ==> IsWord(t.columnNames[i]))
    && (forall i :: 0 <= i < |t.dataTypes| ==> IsWord(t.dataTypes[i]))
  }

  // ---------------------------------------------------------------------------
  // The token walk
  // ---------------------------------------------------------------------------

  /** The column clauses of a parenthesised group: its text with every
      leading and trailing parenthesis removed, cut at every comma. */
  function ClauseTexts(text: string): (r: seq<string>)
    ensures |r| >= 1
    ensures forall i :: 0 <= i < |r| ==> ',' !in r[i]
    ensures Join(r, ",") == StripBy(text, IsParen)
  {
    SplitThenJoin(StripBy(text, IsParen), ',');
    Split(StripBy(text, IsParen), ',')
  }

  /** The walk over a statement's tokens: an identifier sets the table name
      while the name is still empty (Python's `not table_name`); every
      parenthesised group replaces the column clauses found so far. */
  function ScanTokens(tokens: seq<Token>, name: string, clauses: seq<string>): (r: (string, seq<string>))
    ensures name != "" ==> r.0 == name
    ensures (forall i :: 0 <= i < |tokens| ==> !tokens[i].Parenthesis?) ==> r.1 == clauses
    ensures |tokens| > 0 && tokens[|tokens| - 1].Parenthesis? ==> r.1 == ClauseTexts(tokens[|tokens| - 1].text)
    decreases |tokens|
  {
    if |tokens| == 0 then (name, clauses)
    else
      var rest := tokens[1..];
      assert |rest| > 0 ==> rest[|rest| - 1] == tokens[|tokens| - 1];
      match tokens[0]
      case Identifier(n) => ScanTokens(rest, if name == "" then n else name, clauses)
      case Parenthesis(t) => ScanTokens(rest, name, ClauseTexts(t))
      case Other => ScanTokens(rest, name, clauses)
  }

  predicate NamedAt(tokens: seq<Token>, i: int)
    requires 0 <= i < |tokens|
  {
    tokens[i].Identifier? && tokens[i].name != ""
  }

  /** Reference: index of the first identifier with a non-empty name. */
  function FirstNamed(tokens: seq<Token>): (r: Option<nat>)
    ensures r.Some? ==> r.value < |tokens| && NamedAt(tokens, r.value)
    ensures r.Some? ==> forall j :: 0 <= j < r.value ==> !NamedAt(tokens, j)
    ensures r.None? ==> forall j :: 0 <= j < |tokens| ==> !NamedAt(tokens, j)
    decreases |tokens|
  {
    if |tokens| == 0 then None
    else if NamedAt(tokens, 0) then Some(0)
    else
      var rest := tokens[1..];
      assert forall j :: 1 <= j < |tokens| ==> NamedAt(tokens, j) == NamedAt(rest, j - 1);
      match FirstNamed(rest)
      case Some(k) => Some(k + 1)
      case None => None
  }

  /** Reference: index of the last parenthesised group. */
  function LastParenthesis(tokens: seq<Token>): (r: Option<nat>)
    ensures r.Some? ==> r.value < |tokens| && tokens[r.value].Parenthesis?
    ensures r.Some? ==> forall j :: r.value < j < |tokens| ==> !tokens[j].Parenthesis?
    ensures r.None? ==> forall j :: 0 <= j < |tokens| ==> !tokens[j].Parenthesis?
    decreases |tokens|
  {
    if |tokens| == 0 then None
    else if tokens[|tokens| - 1].Parenthesis? then Some(|tokens| - 1)
    else LastParenthesis(tokens[..|tokens| - 1])
  }

  /** The walk finds the first named identifier and the last parenthesised group. */
  lemma ScanTokensFinds(tokens: seq<Token>, name: string, clauses: seq<string>)
    ensures ScanTokens(tokens, name, clauses).0 ==
            (if name != "" then name
             else match FirstNamed(tokens) case Some(i) => tokens[i].name case None => "")
    ensures ScanTokens(tokens, name, clauses).1 ==
            (match LastParenthesis(tokens)
             case Some(p) => ClauseTexts(tokens[p].text)
             case None => clauses)
  {
    ScanTokensName(tokens, name, clauses);
    ScanTokensClauses(tokens, name, clauses);
  }

  /** One token of the walk: the rest is walked with the name and clauses it leaves. */
  lemma ScanTokensStep(tokens: seq<Token>, name: string, clauses: seq<string>)
    requires |tokens| > 0
    ensures ScanTokens(tokens, name, clauses)
         == ScanTokens(tokens[1..], if tokens[0].Identifier? && name == "" then tokens[0].name else name,
                       if tokens[0].Parenthesis? then ClauseTexts(tokens[0].text) else clauses)
  {
  }

  /** The table name is the one already held, or else the first named identifier. */
  lemma {:induction false} ScanTokensName(tokens: seq<Token>, name: string, clauses: seq<string>)
    ensures ScanTokens(tokens, name, clauses).0 ==
            (if name != "" then name
             else match FirstNamed(tokens) case Some(i) => tokens[i].name case None => "")
    decreases |tokens|
  {
    if |tokens| > 0 {
      var rest := tokens[1..];
      var name' := if tokens[0].Identifier? && name == "" then tokens[0].name else name;
      var clauses' := if tokens[0].Parenthesis? then ClauseTexts(tokens[0].text) else clauses;
      ScanTokensName(rest, name', clauses');
      ScanTokensStep(tokens, name, clauses);
      if !NamedAt(tokens, 0) {
        match FirstNamed(rest)
        case Some(k) => assert tokens[k + 1] == rest[k];
        case None =>
      }
    }
  }

  /** The clauses are those of the last parenthesised group, or else the ones already held. */
  lemma {:induction false} ScanTokensClauses(tokens: seq<Token>, name: string, clauses: seq<string>)
    ensures ScanTokens(tokens, name, clauses).1 ==
            (match LastParenthesis(tokens)
             case Some(p) => ClauseTexts(tokens[p].text)
             case None => clauses)
    decreases |tokens|
  {
    if |tokens| > 0 {
      var rest := tokens[1..];
      var name' := if tokens[0].Identifier? && name == "" then tokens[0].name else name;
      var clauses' := if tokens[0].Parenthesis? then ClauseTexts(tokens[0].text) else clauses;
      ScanTokensClauses(rest, name', clauses');
      ScanTokensStep(tokens, name, clauses);
      LastParenthesisOfTail(tokens);
      match LastParenthesis(rest)
      case Some(p) => assert tokens[p + 1] == rest[p];
      case None =>
    }
  }

  /** The last group of a sequence is the tail's last group, or its head. */
  lemma {:induction false} LastParenthesisOfTail(tokens: seq<Token>)
    requires |tokens| > 0
    ensures LastParenthesis(tokens) ==
            (match LastParenthesis(tokens[1..])
             case Some(p) => Some(p + 1)
             case None => if tokens[0].Parenthesis? then Some(0) else None)
    decreases |tokens|
  {
    var r := LastParenthesis(tokens);
    var t := LastParenthesis(tokens[1..]);
    match t
    case Some(p) =>
      assert tokens[p + 1] == tokens[1..][p];
      assert forall j :: p + 1 < j < |tokens| ==> tokens[j] == tokens[1..][j - 1];
      LastParenthesisUnique(tokens, p + 1);
    case None =>
      assert forall j :: 1 <= j < |tokens| ==> tokens[j] == tokens[1..][j - 1];
      if tokens[0].Parenthesis? {
        LastParenthesisUnique(tokens, 0);
      }
  }

  /** The last group is determined by its defining property. */
  lemma LastParenthesisUnique(tokens: seq<Token>, p: nat)
    requires p < |tokens| && tokens[p].Parenthesis?
    requires forall j :: p < j < |tokens| ==> !tokens[j].Parenthesis?
    ensures LastParenthesis(tokens) == Some(p)
  {
  }

  // ---------------------------------------------------------------------------
  // Column clauses
  // ---------------------------------------------------------------------------

  /** One comma-separated clause: trimmed, skipped when empty, when it opens
      with FOREIGN KEY in any letter case, or when it has fewer than two
      whitespace-separated words; otherwise its first word is the column name
      and its second the type, and later words are ignored. */
  function ParseClause(clause: string): (r: Option<(string, string)>)
    ensures r.Some? ==> IsWord(r.value.0) && IsWord(r.value.1)
    ensures r.Some? <==> |Words(clause)| >= 2 && !StartsWith(Upper(Strip(clause)), ForeignKeyPrefix)
    ensures r.Some? ==> r.value == (Words(clause)[0], Words(clause)[1])
  {
    WordsOfStrip(clause);
    assert Words("") == [];
    var c := Strip(clause);
    if c == "" then None
    else if StartsWith(Upper(c), ForeignKeyPrefix) then None
    else
      var parts := Words(c);
      if |parts| < 2 then None else Some((parts[0], parts[1]))
  }

  /** The surviving clauses, in declaration order. */
  function ParseClauses(clauses: seq<string>): (r: seq<(string, string)>)
    ensures |r| <= |clauses|
    ensures forall i :: 0 <= i < |r| ==> IsWord(r[i].0) && IsWord(r[i].1)
    decreases |clauses|
  {
    if |clauses| == 0 then []
    else
      var rest := ParseClauses(clauses[1..]);
      match ParseClause(clauses[0])
      case Some(p) => [p] + rest
      case None => rest
  }

  lemma ParseClausesCons(clauses: seq<string>)
    requires |clauses| > 0
    ensures ParseClauses(clauses) ==
            (match ParseClause(clauses[0]) case Some(p) => [p] case None => []) + ParseClauses(clauses[1..])
  {
  }

  function Names(ps: seq<(string, string)>): (r: seq<string>)
    ensures |r| == |ps| && forall i :: 0 <= i < |ps| ==> r[i] == ps[i].0
  {
    seq(|ps|, i requires 0 <= i < |ps| => ps[i].0)
  }

  function Types(ps: seq<(string, string)>): (r: seq<string>)
    ensures |r| == |ps| && forall i :: 0 <= i < |ps| ==> r[i] == ps[i].1
  {
    seq(|ps|, i requires 0 <= i < |ps| => ps[i].1)
  }

  /** Parsing clause lists distributes over concatenation, so surviving
      clauses keep their relative order. */
  lemma {:induction false} ParseClausesAppend(a: seq<string>, b: seq<string>)
    ensures ParseClauses(a + b) == ParseClauses(a) + ParseClauses(b)
    decreases |a|
  {
    if |a| == 0 {
      assert a + b == b;
    } else {
      assert (a + b)[0] == a[0];
      assert (a + b)[1..] == a[1..] + b;
      ParseClausesAppend(a[1..], b);
    }
  }

  /** Every clause that opens with FOREIGN KEY, in any case, is skipped. */
  lemma ForeignKeyClauseSkipped(clause: string)
    requires StartsWith(Upper(Strip(clause)), ForeignKeyPrefix)
    ensures ParseClause(clause).None?
  {
  }

  /** A clause of two or more whitespace-separated words that does not open
      with FOREIGN KEY gives its first word as the column name and its second
      as the type, however the words are spaced or padded (aligned columns, a
      line break before the closing parenthesis); later words such as
      `NOT NULL` are ignored. */
  lemma ClauseTakesFirstTwoWords(clause: string)
    requires |Words(clause)| >= 2
    requires !StartsWith(Upper(Strip(clause)), ForeignKeyPrefix)
    ensures ParseClause(clause) == Some((Words(clause)[0], Words(clause)[1]))
  {
    WordsOfStrip(clause);
    assert Strip(clause) != "" by {
      assert Words("") == [];
    }
  }

  /** A clause with fewer than two words, whatever its spacing, is skipped. */
  lemma ClauseOfFewWordsSkipped(clause: string)
    requires |Words(clause)| < 2
    ensures ParseClause(clause).None?
  {
    WordsOfStrip(clause);
  }

  /** Blank padding followed by single-space-joined words reads as the first two words. */
  lemma ClauseOfJoinedWords(pad: string, ws: seq<string>)
    requires forall i :: 0 <= i < |pad| ==> IsSpace(pad[i])
    requires |ws| >= 2 && forall i :: 0 <= i < |ws| ==> IsWord(ws[i])
    requires !StartsWith(Upper(Join(ws, " ")), ForeignKeyPrefix)
    ensures ParseClause(pad + Join(ws, " ")) == Some((ws[0], ws[1]))
  {
    var x := Join(ws, " ");
    JoinStartsWithFirst(ws, " ");
    JoinEndsWithLast(ws, " ");
    assert x[0] == ws[0][0];
    assert x[|x| - 1] == ws[|ws| - 1][|ws[|ws| - 1]| - 1];
    StripOfPadded(pad, x, "");
    assert pad + x + "" == pad + x;
    WordsAfterSpaces(pad, x);
    WordsOfJoin(ws);
    ClauseTakesFirstTwoWords(pad + x);
  }

  /** A clause that is a single word, however padded, is skipped. */
  lemma SingleWordClauseSkipped(pre: string, w: string, post: string)
    requires forall i :: 0 <= i < |pre| ==> IsSpace(pre[i])
    requires forall i :: 0 <= i < |post| ==> IsSpace(post[i])
    requires IsWord(w)
    ensures ParseClause(pre + w + post).None?
  {
    StripOfPadded(pre, w, post);
    WordsOfJoin([w]);
  }

  /** A clause of blanks only is skipped. */
  lemma BlankClauseSkipped(pad: string)
    requires forall i :: 0 <= i < |pad| ==> IsSpace(pad[i])
    ensures ParseClause(pad).None?
  {
    assert |LStrip(pad, IsSpace)| == 0;
  }

  // ---------------------------------------------------------------------------
  // Statements
  // ---------------------------------------------------------------------------

  /** One statement: only CREATE statements count, and one is dropped only
      when it has no table name or no parenthesised group; a table whose
      clauses are all skipped is still emitted, with empty lists. */
  function ExtractStatement(stmt: Statement): (r: Option<TableSkeleton>)
    ensures r.Some? ==> ValidSkeleton(r.value)
  {
    if stmt.kind != CreateKind then None
    else
      var (name, clauses) := ScanTokens(stmt.tokens, "", []);
      if name == "" || |clauses| == 0 then None
      else
        var cols := ParseClauses(clauses);
        Some(TableSkeleton(name, Names(cols), Types(cols)))
  }

  /** `extract_schema_metadata`: one skeleton per qualifying statement, in statement order. */
  function ExtractSchema(stmts: seq<Statement>): (r: seq<TableSkeleton>)
    ensures |r| <= |stmts|
    ensures forall i :: 0 <= i < |r| ==> ValidSkeleton(r[i])
    decreases |stmts|
  {
    if |stmts| == 0 then []
    else
      var rest := ExtractSchema(stmts[1..]);
      match ExtractStatement(stmts[0])
      case Some(t) => [t] + rest
      case None => rest
  }

  /** Which statements yield a table, and what that table holds: the name of
      the first named identifier and the clauses of the last parenthesised group. */
  lemma ExtractStatementSpec(stmt: Statement)
    ensures ExtractStatement(stmt).Some? <==>
            stmt.kind == CreateKind && FirstNamed(stmt.tokens).Some? && LastParenthesis(stmt.tokens).Some?
    ensures ExtractStatement(stmt).Some? ==>
            var t := ExtractStatement(stmt).value;
            var cols := ParseClauses(ClauseTexts(stmt.tokens[LastParenthesis(stmt.tokens).value].text));
            && t.tableName == stmt.tokens[FirstNamed(stmt.tokens).value].name
            && t.columnNames == Names(cols)
            && t.dataTypes == Types(cols)
  {
    ScanTokensFinds(stmt.tokens, "", []);
  }

  /** Extraction distributes over concatenation of statement lists: tables
      keep statement order. */
  lemma {:induction false} ExtractSchemaAppend(a: seq<Statement>, b: seq<Statement>)
    ensures ExtractSchema(a + b) == ExtractSchema(a) + ExtractSchema(b)
    decreases |a|
  {
    if |a| == 0 {
      assert a + b == b;
    } else {
      assert (a + b)[0] == a[0];
      assert (a + b)[1..] == a[1..] + b;
      ExtractSchemaAppend(a[1..], b);
    }
  }

  /** A statement that is not a CREATE contributes nothing, wherever it stands. */
  lemma NonCreateContributesNothing(before: seq<Statement>, stmt: Statement, after: seq<Statement>)
    requires stmt.kind != CreateKind
    ensures ExtractSchema(before + [stmt] + after) == ExtractSchema(before + after)
  {
    assert ExtractSchema([stmt]) == [] by {
      assert ExtractStatement(stmt) == None;
    }
    ExtractSchemaAppend(before + [stmt], after);
    ExtractSchemaAppend(before, [stmt]);
    ExtractSchemaAppend(before, after);
  }

  /** A script none of whose statements is a CREATE yields no table. */
  lemma {:induction false} NoCreateNoTables(stmts: seq<Statement>)
    requires forall i :: 0 <= i < |stmts| ==> stmts[i].kind != CreateKind
    ensures ExtractSchema(stmts) == []
    decreases |stmts|
  {
    if |stmts| > 0 {
      NoCreateNoTables(stmts[1..]);
      NonCreateContributesNothing([], stmts[0], stmts[1..]);
      assert [] + [stmts[0]] + stmts[1..] == stmts;
      assert [] + stmts[1..] == stmts[1..];
    }
  }

  // ---------------------------------------------------------------------------
  // Whole tables
  // ---------------------------------------------------------------------------

  /** A FOREIGN KEY clause anywhere in the list does not count as a column. */
  lemma ForeignKeyClauseDropped(before: seq<string>, fk: string, after: seq<string>)
    requires StartsWith(Upper(Strip(fk)), ForeignKeyPrefix)
    ensures ParseClauses(before + [fk] + after) == ParseClauses(before + after)
  {
    var b, a := ParseClauses(before), ParseClauses(after);
    assert ParseClauses(before + [fk]) == b by {
      ForeignKeyClauseSkipped(fk);
      ParseClausesAppend(before, [fk]);
      assert b + [] == b;
    }
    assert ParseClauses(before + [fk] + after) == b + a by {
      ParseClausesAppend(before + [fk], after);
    }
    ParseClausesAppend(before, after);
  }

  /** A column named anything but FOREIGN never reads as a FOREIGN KEY clause. */
  lemma OnlyForeignOpensForeignKey(col: string, typ: string)
    requires IsWord(col) && IsWord(typ) && Upper(col) != "FOREIGN"
    ensures !StartsWith(Upper(Join([col, typ], " ")), ForeignKeyPrefix)
  {
    var c := Join([col, typ], " ");
    JoinPair(col, typ, " ");
    var u := Upper(c);
    if |u| >= 11 {
      if |col| < 7 {
        assert c[|col|] == ' ';
        assert u[|col|] == ' ' && ForeignKeyPrefix[|col|] != ' ';
        assert u[..11][|col|] != ForeignKeyPrefix[|col|];
      } else if |col| > 7 {
        assert c[7] == col[7];
        assert u[7] != ' ' && ForeignKeyPrefix[7] == ' ';
        assert u[..11][7] != ForeignKeyPrefix[7];
      } else {
        assert u[..7] == Upper(col) by {
          assert forall i :: 0 <= i < 7 ==> c[i] == col[i];
        }
        assert ForeignKeyPrefix[..7] == "FOREIGN";
        assert u[..11][..7] != ForeignKeyPrefix[..7];
      }
    }
  }

  /** A clause of the form `blanks name type` whose name is not FOREIGN. */
  predicate WellFormedClause(clause: string, pad: string, col: string, typ: string) {
    && (forall j :: 0 <= j < |pad| ==> IsSpace(pad[j]))
    && IsWord(col) && IsWord(typ) && Upper(col) != "FOREIGN"
    && clause == pad + Join([col, typ], " ")
  }

  lemma WellFormedClauseParses(clause: string, pad: string, col: string, typ: string)
    requires WellFormedClause(clause, pad, col, typ)
    ensures ParseClause(clause) == Some((col, typ))
  {
    OnlyForeignOpensForeignKey(col, typ);
    ClauseOfJoinedWords(pad, [col, typ]);
  }

  /** Well-formed clauses parse to exactly their (name, type) pairs, in order. */
  lemma {:induction false} WellFormedClauses(clauses: seq<string>, pads: seq<string>, cols: seq<string>, types: seq<string>)
    requires |clauses| == |pads| == |cols| == |types|
    requires forall i :: 0 <= i < |clauses| ==> WellFormedClause(clauses[i], pads[i], cols[i], types[i])
    ensures |ParseClauses(clauses)| == |cols|
    ensures forall i :: 0 <= i < |cols| ==> ParseClauses(clauses)[i] == (cols[i], types[i])
    decreases |clauses|
  {
    if |clauses| > 0 {
      WellFormedClauses(clauses[1..], pads[1..], cols[1..], types[1..]);
      WellFormedClauseParses(clauses[0], pads[0], cols[0], types[0]);
      ParseClausesCons(clauses);
    }
  }

  /** Stripping parentheses from `(x)` where `x` neither starts nor ends with one. */
  lemma ParenStripOfWrapped(x: string)
    requires |x| > 0 && !IsParen(x[0]) && !IsParen(x[|x| - 1])
    ensures StripBy("(" + x + ")", IsParen) == x
  {
    var s := "(" + x + ")";
    assert s[1..] == x + ")";
    assert LStrip(x + ")", IsParen) == x + ")";
    assert (x + ")")[..|x|] == x;
  }

  predicate OpensWithParen(s: string) {
    |s| > 0 && IsParen(s[0])
  }

  predicate ClosesWithParen(s: string) {
    |s| > 0 && IsParen(s[|s| - 1])
  }

  /** Comma-free clauses wrapped in one pair of parentheses come back as they
      were, provided the text inside neither opens nor closes with a parenthesis. */
  lemma ClauseTextsOfWrapped(clauses: seq<string>)
    requires |clauses| >= 1
    requires forall i :: 0 <= i < |clauses| ==> ',' !in clauses[i]
    requires |clauses[0]| > 0 && !OpensWithParen(clauses[0])
    requires |clauses[|clauses| - 1]| > 0 && !ClosesWithParen(clauses[|clauses| - 1])
    ensures ClauseTexts("(" + Join(clauses, ",") + ")") == clauses
  {
    var inner := Join(clauses, ",");
    var last := clauses[|clauses| - 1];
    JoinStartsWithFirst(clauses, ",");
    JoinEndsWithLast(clauses, ",");
    assert inner[0] == clauses[0][0];
    assert inner[|inner| - 1] == last[|last| - 1];
    ParenStripOfWrapped(inner);
    JoinThenSplit(clauses, ',');
  }

  /** Clause lists that read back unchanged from their parenthesised group. */
  predicate RecoverableClauses(clauses: seq<string>, pads: seq<string>, cols: seq<string>, types: seq<string>) {
    && |clauses| == |pads| == |cols| == |types| >= 1
    && (forall i :: 0 <= i < |clauses| ==> WellFormedClause(clauses[i], pads[i], cols[i], types[i]))
    && (forall i :: 0 <= i < |clauses| ==> ',' !in clauses[i])
    && !OpensWithParen(pads[0] + cols[0])
    && !ClosesWithParen(types[|types| - 1])
  }

  lemma RecoverableClauseTexts(clauses: seq<string>, pads: seq<string>, cols: seq<string>, types: seq<string>)
    requires RecoverableClauses(clauses, pads, cols, types)
    ensures ClauseTexts("(" + Join(clauses, ",") + ")") == clauses
  {
    var last := |clauses| - 1;
    assert WellFormedClause(clauses[0], pads[0], cols[0], types[0]);
    assert WellFormedClause(clauses[last], pads[last], cols[last], types[last]);
    assert Join([cols[0], types[0]], " ") == cols[0] + " " + types[0];
    assert Join([cols[last], types[last]], " ") == cols[last] + " " + types[last];
    assert clauses[0][0] == (pads[0] + cols[0])[0];
    assert clauses[last][|clauses[last]| - 1] == types[last][|types[last]| - 1];
    ClauseTextsOfWrapped(clauses);
  }

  lemma RecoverableClauseColumns(clauses: seq<string>, pads: seq<string>, cols: seq<string>, types: seq<string>)
    requires RecoverableClauses(clauses, pads, cols, types)
    ensures Names(ParseClauses(clauses)) == cols && Types(ParseClauses(clauses)) == types
  {
    WellFormedClauses(clauses, pads, cols, types);
  }

  /** A two-token CREATE statement, name then group, yields its table. */
  lemma NamedGroupStatement(name: string, group: string)
    requires name != "" && |ClauseTexts(group)| > 0
    ensures ExtractSchema([Statement(CreateKind, [Identifier(name), Parenthesis(group)])])
         == [TableSkeleton(name, Names(ParseClauses(ClauseTexts(group))), Types(ParseClauses(ClauseTexts(group))))]
  {
    var tokens := [Identifier(name), Parenthesis(group)];
    assert FirstNamed(tokens) == Some(0);
    LastParenthesisUnique(tokens, 1);
    ExtractStatementSpec(Statement(CreateKind, tokens));
  }

  /** A CREATE statement whose group lists N clauses `blanks name type`,
      separated by commas, none of them containing a comma, yields exactly one
      table with those N names and types in declaration order. */
  lemma WellFormedCreateTable(name: string, clauses: seq<string>, pads: seq<string>, cols: seq<string>, types: seq<string>)
    requires name != ""
    requires RecoverableClauses(clauses, pads, cols, types)
    ensures ExtractSchema([Statement(CreateKind, [Identifier(name), Parenthesis("(" + Join(clauses, ",") + ")")])])
         == [TableSkeleton(name, cols, types)]
  {
    RecoverableClauseTexts(clauses, pads, cols, types);
    RecoverableClauseColumns(clauses, pads, cols, types);
    NamedGroupStatement(name, "(" + Join(clauses, ",") + ")");
  }

  /** Two comma-free pieces around one comma split back into those pieces. */
  lemma SplitAtOneComma(a: string, b: string)
    requires ',' !in a && ',' !in b
    ensures Split(a + "," + b, ',') == [a, b]
  {
    JoinPair(a, b, ",");
    JoinThenSplit([a, b], ',');
  }

  lemma CommaFreeSpaced(a: string, b: string)
    requires ',' !in a && ',' !in b
    ensures ',' !in a + " " + b
  {
    var c := a + " " + b;
    forall i | 0 <= i < |c|
      ensures c[i] != ','
    {
      if i < |a| { assert c[i] == a[i]; }
      else if i > |a| { assert c[i] == b[i - |a| - 1]; }
    }
  }

  lemma SplitTypeAtComma(name: string, head: string, tail: string)
    requires ',' !in name && ',' !in head && ',' !in tail
    ensures Split(name + " " + head + ", " + tail, ',') == [name + " " + head, " " + tail]
  {
    var first := name + " " + head;
    var second := " " + tail;
    CommaFreeSpaced(name, head);
    assert ',' !in second;
    assert name + " " + head + ", " + tail == first + "," + second by {
      assert ", " == "," + " ";
      ConcatRegroup(first, ",", " ", tail);
    }
    SplitAtOneComma(first, second);
  }

  /** A comma inside a type splits the clause: for `price DECIMAL(10, 2)` the
      column `price` keeps the type `DECIMAL(10`, and the fragment ` 2)` is
      skipped as a one-word clause. */
  lemma CommaInsideTypeSplitsClause(name: string, head: string, tail: string)
    requires IsWord(name) && IsWord(head) && IsWord(tail)
    requires name[0] != 'f' && name[0] != 'F'
    requires ',' !in name && ',' !in head && ',' !in tail
    ensures ParseClauses(Split(name + " " + head + ", " + tail, ',')) == [(name, head)]
  {
    var first := name + " " + head;
    var second := " " + tail;
    SplitTypeAtComma(name, head, tail);
    assert ParseClause(first) == Some((name, head)) by {
      JoinPair(name, head, " ");
      TwoWordClause("", name, head);
      assert "" + Join([name, head], " ") == first;
    }
    assert ParseClause(second) == None by {
      SingleWordClauseSkipped(" ", tail, "");
      assert " " + tail + "" == second;
    }
    ParseClausesCons([first, second]);
    ParseClausesCons([second]);
    assert [first, second][1..] == [second];
    assert [second][1..] == [];
  }

  /** The DECIMAL(10, 2) instance of the above. */
  lemma DecimalTypeSplit()
    ensures ParseClauses(Split("price" + " " + "DECIMAL(10" + ", " + "2)", ',')) == [("price", "DECIMAL(10")]
  {
    CommaInsideTypeSplitsClause("price", "DECIMAL(10", "2)");
  }

  /** A padded two-word clause whose name does not start with F. */
  lemma TwoWordClause(pad: string, name: string, typ: string)
    requires forall i :: 0 <= i < |pad| ==> IsSpace(pad[i])
    requires IsWord(name) && IsWord(typ) && name[0] != 'f' && name[0] != 'F'
    ensures ParseClause(pad + Join([name, typ], " ")) == Some((name, typ))
  {
    assert Upper(name)[0] != 'F';
    OnlyForeignOpensForeignKey(name, typ);
    ClauseOfJoinedWords(pad, [name, typ]);
  }

  /** A zero-column table is still emitted: a CREATE statement whose group is `()`. */
  lemma EmptyGroupStillEmitted(name: string)
    requires name != ""
    ensures ExtractSchema([Statement(CreateKind, [Identifier(name), Parenthesis("()")])])
         == [TableSkeleton(name, [], [])]
  {
    var tokens := [Identifier(name), Parenthesis("()")];
    assert ClauseTexts("()") == [""] by {
      assert StripBy("()", IsParen) == "" by {
        assert LStrip("()", IsParen) == LStrip(")", IsParen);
        assert ")"[1..] == "";
      }
      SplitWithoutSep("", ',');
    }
    assert ParseClauses([""]) == [] by {
      assert Strip("") == "";
    }
    assert FirstNamed(tokens) == Some(0);
    LastParenthesisUnique(tokens, 1);
    ExtractStatementSpec(Statement(CreateKind, tokens));
  }
}
