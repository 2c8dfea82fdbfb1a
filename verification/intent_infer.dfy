/** The intent generator: the prompt that asks a language model to describe a
    table and its columns, and the post-processing that turns the model's
    free text into a table intent and a map of column intents. The model
    itself is a parameter of the operations, a function from prompt to
    generated text. */
module IntentInfer {
  import opened Wrappers
  import opened Strings
  import opened Seqs

  /** The outcome of intent generation: the table's purpose and one
      description per recognised, lower-cased column name. */
  datatype Intents = Intents(table: string, columns: map<string, string>)

  // ---------------------------------------------------------------------------
  // Prompt
  // ---------------------------------------------------------------------------

  /** The fixed instructions and two worked examples that open every prompt,
      with the surrounding blank lines already stripped. */
  const FewShot: string :=
      "You're a helpful assistant. You are given the name of a SQL table and a list of columns with their types. \n"
    + "Your task is to describe the likely purpose of this table in one sentence, and then describe what each listed column likely represents.\n"
    + "\n"
    + "Only describe the columns listed. Do not add or describe any columns that are not explicitly given.\n"
    + "\n"
    + "Example 1:\n"
    + "Table: inventory\n"
    + "Columns:\n"
    + "- item_id (INTEGER)\n"
    + "- item_name (TEXT)\n"
    + "- quantity (INTEGER)\n"
    + "- restock_date (DATE)\n"
    + "\n"
    + "Table Purpose:\n"
    + "Tracks the stock levels and restocking schedules of items in a warehouse.\n"
    + "\n"
    + "Column Descriptions:\n"
    + "- item_id: Unique identifier for each inventory item.\n"
    + "- item_name: Name or label of the item.\n"
    + "- quantity: Number of units currently in stock.\n"
    + "- restock_date: Date when the item is expected to be restocked.\n"
    + "\n"
    + "---\n"
    + "\n"
    + "Example 2:\n"
    + "Table: employee_attendance\n"
    + "Columns:\n"
    + "- employee_id (INTEGER)\n"
    + "- date (DATE)\n"
    + "- status (TEXT)\n"
    + "\n"
    + "Table Purpose:\n"
    + "Logs the daily attendance status of company employees.\n"
    + "\n"
    + "Column Descriptions:\n"
    + "- employee_id: Unique identifier for the employee.\n"
    + "- date: The calendar date of the attendance record.\n"
    + "- status: Attendance status for the day (e.g., Present, Absent, Sick).\n"
    + "\n"
    + "---"

  /** One `- name (TYPE)` line per column, paired as `zip` pairs them: a
      surplus of names or of types is dropped. */
  function ColumnLines(cols: seq<string>, types: seq<string>): (r: seq<string>)
    ensures |r| == Min(|cols|, |types|)
    ensures forall i :: 0 <= i < |r| ==> r[i] == "- " + cols[i] + " (" + types[i] + ")"
  {
    var pairs := Zip(cols, types);
    seq(|pairs|, i requires 0 <= i < |pairs| => "- " + pairs[i].0 + " (" + pairs[i].1 + ")")
  }

  /** The prompt: the opening text, a blank line, the table and its columns,
      a blank line, and the open `Table Purpose:` heading the model is to
      continue. The opening text is `FewShot`. */
  function PromptWith(preamble: string, table: string, cols: seq<string>, types: seq<string>): string {
    preamble + "\n\n"
    + "Table: " + table + "\n"
    + "Columns:\n" + Join(ColumnLines(cols, types), "\n") + "\n\n"
    + "Table Purpose:\n"
  }

  function IntentPrompt(table: string, cols: seq<string>, types: seq<string>): (r: string)
    ensures r == Join(IntentLines(FewShot, table, cols, types), "\n")
  {
    PromptLayout(FewShot, table, cols, types);
    PromptWith(FewShot, table, cols, types)
  }

  /** The prompt as lines: the opening text, a blank line, the table line,
      `Columns:`, the column lines, a blank line and `Table Purpose:`, each
      followed by a line break. With no columns at all, an extra blank line
      takes the place of the list. */
  function IntentLines(preamble: string, table: string, cols: seq<string>, types: seq<string>): seq<string> {
    [preamble, "", "Table: " + table, "Columns:"]
    + (if |cols| == 0 || |types| == 0 then [""] else ColumnLines(cols, types))
    + ["", "Table Purpose:", ""]
  }

  /** The prompt text is its lines joined by line breaks. */
  lemma PromptLayout(preamble: string, table: string, cols: seq<string>, types: seq<string>)
    ensures PromptWith(preamble, table, cols, types) == Join(IntentLines(preamble, table, cols, types), "\n")
  {
    var lines := ColumnLines(cols, types);
    var body := if |cols| == 0 || |types| == 0 then [""] else lines;
    PromptBodyLines(cols, types);
    LayoutOf(preamble, table, lines, body);
  }

  /** The layout for any list of column lines, written out as `body`. */
  lemma LayoutOf(preamble: string, table: string, lines: seq<string>, body: seq<string>)
    requires |body| > 0 && Join(body, "\n") == Join(lines, "\n")
    ensures preamble + "\n\n" + "Table: " + table + "\n" + "Columns:\n" + Join(lines, "\n") + "\n\n" + "Table Purpose:\n"
         == Join([preamble, "", "Table: " + table, "Columns:"] + body + ["", "Table Purpose:", ""], "\n")
  {
    var head := [preamble, "", "Table: " + table, "Columns:"];
    var tail := ["", "Table Purpose:", ""];
    var c := Join(lines, "\n");
    var h := preamble + "\n\n" + "Table: " + table + "\n" + "Columns:";
    var t := "\nTable Purpose:\n";
    var p := preamble + "\n\n" + "Table: " + table + "\n" + "Columns:\n" + c + "\n\n" + "Table Purpose:\n";
    assert p == h + "\n" + c + "\n" + t by {
      PromptPieces(preamble, "Table: " + table, c);
    }
    JoinAppend3(head, body, tail, "\n");
    PromptHeadLines(preamble, table);
    PromptTailLines();
    ConcatPieces(Join(head + body + tail, "\n"), Join(head, "\n"), Join(body, "\n"), Join(tail, "\n"), h, c, t, p, "\n");
  }

  /** With no column line the list is one blank line, which joins to the
      same empty text. */
  lemma PromptBodyLines(cols: seq<string>, types: seq<string>)
    ensures Join(if |cols| == 0 || |types| == 0 then [""] else ColumnLines(cols, types), "\n")
         == Join(ColumnLines(cols, types), "\n")
  {
  }

  /** Equal pieces make equal concatenations. */
  lemma ConcatPieces(whole: string, first: string, middle: string, back: string,
              h: string, c: string, t: string, p: string, n: string)
    requires whole == first + n + middle + n + back
    requires first == h && middle == c && back == t && p == h + n + c + n + t
    ensures p == whole
  {
  }

  /** The prompt's literal pieces regrouped into its lines. */
  lemma PromptPieces(p: string, t: string, c: string)
    ensures p + "\n\n" + t + "\n" + "Columns:\n" + c + "\n\n" + "Table Purpose:\n"
         == (p + "\n\n" + t + "\n" + "Columns:") + "\n" + c + "\n" + "\nTable Purpose:\n"
  {
    var n := "\n";
    assert "\n\n" == n + n;
    assert "Columns:\n" == "Columns:" + n;
    assert "\nTable Purpose:\n" == n + "Table Purpose:\n";
    Regrouped(p + "\n\n" + t + n, "Columns:", n, c, "Table Purpose:\n");
  }

  lemma Regrouped(x: string, a: string, n: string, c: string, e: string)
    ensures x + (a + n) + c + (n + n) + e == x + a + n + c + n + (n + e)
  {
  }

  lemma PromptHeadLines(preamble: string, table: string)
    ensures Join([preamble, "", "Table: " + table, "Columns:"], "\n")
         == preamble + "\n\n" + "Table: " + table + "\n" + "Columns:"
  {
    var head := [preamble, "", "Table: " + table, "Columns:"];
    JoinCons(preamble, head[1..], "\n");
    JoinCons("", head[2..], "\n");
    JoinPair("Table: " + table, "Columns:", "\n");
    assert head[1..][1..] == head[2..] == ["Table: " + table, "Columns:"];
    assert [preamble] + head[1..] == head;
    assert [""] + head[2..] == head[1..];
    assert preamble + "\n" + "" + "\n" + "Table: " + table + "\n" + "Columns:"
        == preamble + "\n\n" + "Table: " + table + "\n" + "Columns:";
  }

  lemma PromptTailLines()
    ensures Join(["", "Table Purpose:", ""], "\n") == "\nTable Purpose:\n"
  {
    var tail := ["", "Table Purpose:", ""];
    JoinCons("", tail[1..], "\n");
    JoinPair("Table Purpose:", "", "\n");
    assert [""] + tail[1..] == tail;
  }

  // ---------------------------------------------------------------------------
  // Post-processing the generated text
  // ---------------------------------------------------------------------------

  /** Markers after which the generated text is discarded, tried in this order. */
  const StopTokens: seq<string> := ["```", "2. Write a", "CREATE TABLE", "# Solution"]

  /** The heading that separates the table purpose from the column list. */
  const Marker: string := "Column Descriptions:"

  /** Cut the text before the first occurrence of `tok` and strip it, or leave
      it alone when `tok` does not occur. */
  function CutAt(g: string, tok: string): (r: string)
    requires |tok| > 0
    ensures !Contains(r, tok)
    ensures !Contains(g, tok) ==> r == g
  {
    match SplitOnce(g, tok)
    case Some((before, _)) =>
      StripKeepsAbsence(before, tok);
      Strip(before)
    case None => g
  }

  /** A marker that occurs cuts the text to the stripped part before its
      first occurrence. */
  lemma CutAtFirstOccurrence(g: string, tok: string)
    requires |tok| > 0 && Contains(g, tok)
    ensures Find(g, tok).Some? && CutAt(g, tok) == Strip(g[..Find(g, tok).value])
  {
    var i := Find(g, tok).value;
    assert SplitOnce(g, tok) == Some((g[..i], g[i + |tok|..]));
  }

  /** Cutting at one marker keeps out every text the input already lacked. */
  lemma CutAtKeepsAbsence(g: string, tok: string, t: string)
    requires |tok| > 0 && !Contains(g, t)
    ensures !Contains(CutAt(g, tok), t)
  {
    match SplitOnce(g, tok)
    case Some((before, after)) =>
      assert before == g[..|before|];
      InfixKeepsAbsence(g, 0, |before|, t);
      StripKeepsAbsence(before, t);
    case None =>
  }

  predicate NonEmptyAll(toks: seq<string>) {
    forall i :: 0 <= i < |toks| ==> |toks[i]| > 0
  }

  /** The markers applied in order, each to the result of the previous one. */
  function CutAll(g: string, toks: seq<string>): string
    requires NonEmptyAll(toks)
    decreases |toks|
  {
    if |toks| == 0 then g
    else
      var rest := toks[1..];
      assert NonEmptyAll(rest) by {
        assert forall i :: 1 <= i < |toks| ==> toks[i] == rest[i - 1];
      }
      CutAll(CutAt(g, toks[0]), rest)
  }

  /** None of the markers is left in the output. */
  lemma {:induction false} CutAllRemoves(g: string, toks: seq<string>, i: nat)
    requires NonEmptyAll(toks) && i < |toks|
    ensures !Contains(CutAll(g, toks), toks[i])
    decreases |toks|
  {
    var rest := TailNonEmpty(toks);
    if i == 0 {
      CutAllKeepsAbsence(CutAt(g, toks[0]), rest, toks[0]);
    } else {
      assert toks[i] == rest[i - 1];
      CutAllRemoves(CutAt(g, toks[0]), rest, i - 1);
    }
  }

  lemma TailNonEmpty(toks: seq<string>) returns (rest: seq<string>)
    requires NonEmptyAll(toks) && |toks| > 0
    ensures rest == toks[1..] && NonEmptyAll(rest)
  {
    rest := toks[1..];
    assert forall k :: 1 <= k < |toks| ==> toks[k] == rest[k - 1];
  }

  /** A text the input lacks stays absent from the output. */
  lemma {:induction false} CutAllKeepsAbsence(g: string, toks: seq<string>, t: string)
    requires NonEmptyAll(toks) && !Contains(g, t)
    ensures !Contains(CutAll(g, toks), t)
    decreases |toks|
  {
    if |toks| > 0 {
      var rest := toks[1..];
      assert NonEmptyAll(rest) by {
        assert forall i :: 1 <= i < |toks| ==> toks[i] == rest[i - 1];
      }
      CutAtKeepsAbsence(g, toks[0], t);
      CutAllKeepsAbsence(CutAt(g, toks[0]), rest, t);
    }
  }

  /** Text free of every marker passes through unchanged. */
  lemma {:induction false} CutAllUnchanged(g: string, toks: seq<string>)
    requires NonEmptyAll(toks)
    requires forall i :: 0 <= i < |toks| ==> !Contains(g, toks[i])
    ensures CutAll(g, toks) == g
    decreases |toks|
  {
    if |toks| > 0 {
      assert forall i :: 1 <= i < |toks| ==> toks[1..][i - 1] == toks[i];
      CutAllUnchanged(g, toks[1..]);
    }
  }

  /** Cutting is idempotent: a second pass changes nothing. */
  lemma CutAllIdempotent(g: string, toks: seq<string>)
    requires NonEmptyAll(toks)
    ensures CutAll(CutAll(g, toks), toks) == CutAll(g, toks)
  {
    var r := CutAll(g, toks);
    forall i | 0 <= i < |toks|
      ensures !Contains(r, toks[i])
    {
      CutAllRemoves(g, toks, i);
    }
    CutAllUnchanged(r, toks);
  }

  /** The generated text after stripping and cutting at every stop marker. */
  function Cleaned(generated: string): (r: string)
    ensures forall i :: 0 <= i < |StopTokens| ==> !Contains(r, StopTokens[i])
  {
    StopTokensNonEmpty();
    var r := CutAll(Strip(generated), StopTokens);
    assert forall i :: 0 <= i < |StopTokens| ==> !Contains(r, StopTokens[i]) by {
      forall i | 0 <= i < |StopTokens|
        ensures !Contains(r, StopTokens[i])
      {
        CutAllRemoves(Strip(generated), StopTokens, i);
      }
    }
    r
  }

  lemma StopTokensNonEmpty()
    ensures NonEmptyAll(StopTokens)
  {
  }

  // ---------------------------------------------------------------------------
  // Parsing the column list
  // ---------------------------------------------------------------------------

  /** The lower-cased names of the table's columns. */
  function ExpectedColumns(cols: seq<string>): set<string> {
    set i | 0 <= i < |cols| :: Lower(cols[i])
  }

  /** One line of the column list. Only lines that open with `-` and contain
      a colon are read; the name before the first colon is stripped and
      lower-cased and kept only when it is one of the expected columns, and
      the stripped text after the colon is its intent. */
  function ParseLine(line: string, expected: set<string>): (r: Option<(string, string)>)
    ensures r.Some? ==> StartsWith(line, "-") && Contains(line, ":")
    ensures r.Some? ==> r.value.0 in expected && Lower(r.value.0) == r.value.0
  {
    if StartsWith(line, "-") && Contains(line, ":") then
      match SplitOnce(line[1..], ":")
      case Some((name, intent)) =>
        var col := Lower(Strip(name));
        LowerIdempotent(Strip(name));
        if col in expected then Some((col, Strip(intent))) else None
      case None => None
    else None
  }

  /** The fall-back for a line that would not split at its colon never fires:
      a line that opens with `-` and holds a colon still holds one after the dash. */
  lemma SplitAfterDashSucceeds(line: string)
    requires StartsWith(line, "-") && Contains(line, ":")
    ensures SplitOnce(line[1..], ":").Some?
  {
    var j :| 0 <= j <= |line| && StartsWith(line[j..], ":");
    assert j != 0 by {
      assert line[0] == '-';
    }
    assert line[1..][j - 1..] == line[j..];
  }

  /** The recognised lines, in order. */
  function ParsedLines(lines: seq<string>, expected: set<string>): (r: seq<(string, string)>)
    ensures |r| <= |lines|
    ensures forall i :: 0 <= i < |r| ==> r[i].0 in expected && Lower(r[i].0) == r[i].0
    decreases |lines|
  {
    if |lines| == 0 then []
    else
      var rest := ParsedLines(lines[1..], expected);
      match ParseLine(lines[0], expected)
      case Some(p) => [p] + rest
      case None => rest
  }

  lemma ParsedLinesCons(lines: seq<string>, expected: set<string>)
    requires |lines| > 0
    ensures ParsedLines(lines, expected) ==
            (match ParseLine(lines[0], expected) case Some(p) => [p] case None => [])
            + ParsedLines(lines[1..], expected)
  {
  }

  /** The results of a partial reader over a list, in order, skipping the
      items it does not recognise. */
  function Recognised<T>(items: seq<string>, read: string -> Option<T>): (r: seq<T>)
    decreases |items|
  {
    if |items| == 0 then []
    else
      match read(items[0])
      case Some(x) => [x] + Recognised(items[1..], read)
      case None => Recognised(items[1..], read)
  }

  /** Result `i` of the reader comes from item `j`. */
  lemma {:induction false} RecognisedSource<T>(items: seq<string>, read: string -> Option<T>, i: nat) returns (j: nat)
    requires i < |Recognised(items, read)|
    ensures j < |items| && read(items[j]) == Some(Recognised(items, read)[i])
    decreases |items|
  {
    var tail := items[1..];
    match read(items[0])
    case Some(x) =>
      if i == 0 {
        j := 0;
      } else {
        var k := RecognisedSource(tail, read, i - 1);
        j := k + 1;
        assert tail[k] == items[j];
      }
    case None =>
      var k := RecognisedSource(tail, read, i);
      j := k + 1;
      assert tail[k] == items[j];
  }

  /** The column list is read line by line by `ParseLine`. */
  lemma {:induction false} ParsedLinesRecognised(lines: seq<string>, expected: set<string>)
    ensures ParsedLines(lines, expected) == Recognised(lines, line => ParseLine(line, expected))
    decreases |lines|
  {
    if |lines| > 0 {
      ParsedLinesRecognised(lines[1..], expected);
    }
  }

  /** Every recognised pair is what some line of the list parses to: pair
      `i` comes from line `j`. */
  lemma ParsedLineSource(lines: seq<string>, expected: set<string>, i: nat) returns (j: nat)
    requires i < |ParsedLines(lines, expected)|
    ensures j < |lines| && ParseLine(lines[j], expected) == Some(ParsedLines(lines, expected)[i])
  {
    ParsedLinesRecognised(lines, expected);
    j := RecognisedSource(lines, line => ParseLine(line, expected), i);
  }

  /** The post-processing of one generation: the text is stripped and cut at
      the stop markers, then read as below. */
  function ParseResponse(generated: string, cols: seq<string>): (r: Intents)
    ensures r.columns.Keys <= ExpectedColumns(cols)
    ensures forall k :: k in r.columns ==> Lower(k) == k
    ensures !Contains(r.table, Marker)
    ensures forall i :: 0 <= i < |StopTokens| ==> !Contains(r.table, StopTokens[i])
  {
    ReadCleaned(Cleaned(generated), cols)
  }

  /** Reading a cleaned generation. Without the `Column Descriptions:`
      heading the whole text is the table intent and no column intent is
      found; with it, the text before the heading is the table intent and the
      lines after it give the column intents, a later line for the same
      column overriding an earlier one. */
  function ReadCleaned(g: string, cols: seq<string>): (r: Intents)
    ensures r.columns.Keys <= ExpectedColumns(cols)
    ensures forall k :: k in r.columns ==> Lower(k) == k
    ensures !Contains(r.table, Marker)
    ensures forall i :: 0 <= i < |StopTokens| && !Contains(g, StopTokens[i]) ==> !Contains(r.table, StopTokens[i])
  {
    var expected := ExpectedColumns(cols);
    match SplitOnce(g, Marker)
    case Some((purpose, block)) =>
      var pairs := ParsedLines(SplitLines(Strip(block)), expected);
      StripKeepsAbsence(purpose, Marker);
      PurposeLacksStops(g, purpose, block);
      FromPairsKeys(pairs);
      Intents(Strip(purpose), FromPairs(pairs))
    case None => Intents(g, map[])
  }

  lemma PurposeLacksStops(g: string, purpose: string, block: string)
    requires g == purpose + Marker + block
    ensures forall i :: 0 <= i < |StopTokens| && !Contains(g, StopTokens[i]) ==> !Contains(Strip(purpose), StopTokens[i])
  {
    forall i | 0 <= i < |StopTokens| && !Contains(g, StopTokens[i])
      ensures !Contains(Strip(purpose), StopTokens[i])
    {
      assert purpose == g[..|purpose|];
      InfixKeepsAbsence(g, 0, |purpose|, StopTokens[i]);
      StripKeepsAbsence(purpose, StopTokens[i]);
    }
  }

  /** Every key of the built map comes from some pair. */
  lemma FromPairsKeys(ps: seq<(string, string)>)
    ensures forall k :: k in FromPairs(ps) ==> exists i :: 0 <= i < |ps| && ps[i].0 == k
  {
  }

  // ---------------------------------------------------------------------------
  // Round trip: a response in the format of the worked examples
  // ---------------------------------------------------------------------------

  /** A text with no blank at either end. */
  predicate Trimmed(s: string) {
    |s| > 0 && !IsSpace(s[0]) && !IsSpace(s[|s| - 1])
  }

  predicate NoLineBreak(s: string) {
    forall j :: 0 <= j < |s| ==> !IsLineBreak(s[j])
  }

  /** A column description the parser can read back: a lower-case expected
      name without blanks or colons, and a one-line description. */
  predicate ReadablePair(p: (string, string), expected: set<string>) {
    && IsWord(p.0) && Lower(p.0) == p.0 && ':' !in p.0 && p.0 in expected
    && Trimmed(p.1) && NoLineBreak(p.1)
  }

  function DescriptionLine(col: string, intent: string): string {
    "- " + col + ": " + intent
  }

  function DescriptionLines(pairs: seq<(string, string)>): (r: seq<string>)
    ensures |r| == |pairs|
    ensures forall i :: 0 <= i < |r| ==> r[i] == DescriptionLine(pairs[i].0, pairs[i].1)
  {
    seq(|pairs|, i requires 0 <= i < |pairs| => DescriptionLine(pairs[i].0, pairs[i].1))
  }

  /** A generation laid out as the worked examples are: the purpose, a blank
      line, the `Column Descriptions:` heading and one `- name: intent` line
      per column. */
  function RenderResponse(purpose: string, pairs: seq<(string, string)>): string {
    purpose + "\n\n" + Marker + "\n" + Join(DescriptionLines(pairs), "\n")
  }

  lemma LineBreakIsSpace(c: char)
    ensures IsLineBreak(c) ==> IsSpace(c)
  {
  }

  /** One description line reads back as its (name, intent) pair. */
  lemma ParseDescriptionLine(p: (string, string), expected: set<string>)
    requires ReadablePair(p, expected)
    ensures ParseLine(DescriptionLine(p.0, p.1), expected) == Some(p)
  {
    ParseNamedLine(p.0, p.1, expected);
  }

  /** A `- Name: intent` line, whatever the letter case of the name, is read
      under the lower-cased name with the intent unchanged when that name is
      an expected column, and is dropped otherwise. */
  lemma ParseNamedLine(name: string, intent: string, expected: set<string>)
    requires IsWord(name) && ':' !in name && Trimmed(intent)
    ensures ParseLine(DescriptionLine(name, intent), expected)
         == if Lower(name) in expected then Some((Lower(name), intent)) else None
  {
    DescriptionLineSplits(name, intent);
    StripAfterBlank(name);
    StripAfterBlank(intent);
  }

  /** A description line opens with `-`, and after the dash splits at its
      first colon into the blank-led name and the blank-led intent. */
  lemma DescriptionLineSplits(c: string, d: string)
    requires IsWord(c) && ':' !in c
    ensures StartsWith(DescriptionLine(c, d), "-") && Contains(DescriptionLine(c, d), ":")
    ensures SplitOnce(DescriptionLine(c, d)[1..], ":") == Some((" " + c, " " + d))
  {
    var line := DescriptionLine(c, d);
    assert line[..1] == "-";
    assert line[2 + |c|] == ':';
    ContainsChar(line, ':');
    assert line[1..] == (" " + c) + ":" + (" " + d);
    ContainsChar(" " + c, ':');
    assert (" " + c)[|c|] == c[|c| - 1];
    assert CharsOutside([(" " + c)[|c|]], ":");
    SplitOnceAfter(" " + c, ":", " " + d);
  }

  /** Lines that each read back as their pair read back as the pair list. */
  lemma {:induction false} ParsedLinesAll(lines: seq<string>, pairs: seq<(string, string)>, expected: set<string>)
    requires |lines| == |pairs|
    requires forall i :: 0 <= i < |lines| ==> ParseLine(lines[i], expected) == Some(pairs[i])
    ensures ParsedLines(lines, expected) == pairs
    decreases |lines|
  {
    if |lines| > 0 {
      ParsedLinesAll(lines[1..], pairs[1..], expected);
      ParsedLinesCons(lines, expected);
      assert [pairs[0]] + pairs[1..] == pairs;
    }
  }

  /** The pairs as the parser keys them: each name lower-cased. */
  function LoweredNames(pairs: seq<(string, string)>): seq<(string, string)> {
    seq(|pairs|, i requires 0 <= i < |pairs| => (Lower(pairs[i].0), pairs[i].1))
  }

  /** Description lines whose names, in any letter case, lower-case to
      expected columns read back as the pairs with lower-cased names, in order. */
  lemma ParseMixedCaseLines(pairs: seq<(string, string)>, expected: set<string>)
    requires forall i :: 0 <= i < |pairs| ==>
               IsWord(pairs[i].0) && ':' !in pairs[i].0 && Lower(pairs[i].0) in expected && Trimmed(pairs[i].1)
    ensures ParsedLines(DescriptionLines(pairs), expected) == LoweredNames(pairs)
  {
    var lines := DescriptionLines(pairs);
    var want := LoweredNames(pairs);
    forall i | 0 <= i < |lines|
      ensures ParseLine(lines[i], expected) == Some(want[i])
    {
      ParseNamedLine(pairs[i].0, pairs[i].1, expected);
    }
    ParsedLinesAll(lines, want, expected);
  }

  lemma ParseDescriptionLines(pairs: seq<(string, string)>, expected: set<string>)
    requires forall i :: 0 <= i < |pairs| ==> ReadablePair(pairs[i], expected)
    ensures ParsedLines(DescriptionLines(pairs), expected) == pairs
  {
    var lines := DescriptionLines(pairs);
    forall i | 0 <= i < |lines|
      ensures ParseLine(lines[i], expected) == Some(pairs[i])
    {
      ParseDescriptionLine(pairs[i], expected);
    }
    ParsedLinesAll(lines, pairs, expected);
  }

  /** The description lines have no line break inside them, and the last one is not empty. */
  lemma DescriptionLinesUnbroken(pairs: seq<(string, string)>, expected: set<string>)
    requires forall i :: 0 <= i < |pairs| ==> ReadablePair(pairs[i], expected)
    ensures forall i :: 0 <= i < |pairs| ==> NoLineBreak(DescriptionLines(pairs)[i])
  {
    forall i | 0 <= i < |pairs|
      ensures NoLineBreak(DescriptionLines(pairs)[i])
    {
      var (c, d) := pairs[i];
      var line := DescriptionLine(c, d);
      forall j | 0 <= j < |line|
        ensures !IsLineBreak(line[j])
      {
        if 2 <= j < 2 + |c| {
          assert line[j] == c[j - 2];
          LineBreakIsSpace(line[j]);
        } else if j >= 4 + |c| {
          assert line[j] == d[j - 4 - |c|];
        }
      }
    }
  }

  /** The column block of a rendered response: its lines are the description
      lines, it opens with a dash and ends with the last description's end. */
  lemma DescriptionBlock(pairs: seq<(string, string)>, expected: set<string>)
    requires |pairs| > 0
    requires forall i :: 0 <= i < |pairs| ==> ReadablePair(pairs[i], expected)
    ensures Trimmed(Join(DescriptionLines(pairs), "\n"))
    ensures SplitLines(Join(DescriptionLines(pairs), "\n")) == DescriptionLines(pairs)
  {
    var lines := DescriptionLines(pairs);
    var body := Join(lines, "\n");
    var last := lines[|lines| - 1];
    JoinStartsWithFirst(lines, "\n");
    JoinEndsWithLast(lines, "\n");
    assert body[0] == lines[0][0] == '-';
    assert ReadablePair(pairs[|pairs| - 1], expected);
    assert body[|body| - 1] == last[|last| - 1];
    DescriptionLinesUnbroken(pairs, expected);
    SplitLinesOfJoin(lines);
  }

  /** The purpose and the column block are what splitting at the heading and
      stripping leaves. */
  lemma SplitRendered(purpose: string, body: string)
    requires Trimmed(purpose) && !Contains(purpose, Marker) && Trimmed(body)
    ensures SplitOnce(purpose + "\n\n" + Marker + "\n" + body, Marker)
         == Some((purpose + "\n\n", "\n" + body))
    ensures Strip(purpose + "\n\n") == purpose
    ensures Strip("\n" + body) == body
  {
    SplitAtHeading(purpose, body);
    StripOfPadded("", purpose, "\n\n");
    assert "" + purpose + "\n\n" == purpose + "\n\n";
    StripOfPadded("\n", body, "");
    assert "\n" + body + "" == "\n" + body;
  }

  lemma SplitAtHeading(purpose: string, body: string)
    requires |purpose| > 0 && !Contains(purpose, Marker)
    ensures SplitOnce(purpose + "\n\n" + Marker + "\n" + body, Marker)
         == Some((purpose + "\n\n", "\n" + body))
  {
    assert CharsOutside("\n\n", Marker);
    ContainsAppendFresh(purpose, "\n\n", Marker);
    var a := purpose + "\n\n";
    assert [a[|a| - 1]] == "\n";
    SplitOnceAfter(a, Marker, "\n" + body);
    assert purpose + "\n\n" + Marker + "\n" + body == a + Marker + ("\n" + body);
  }

  /** A rendered response has no blank at either end. */
  lemma RenderedTrimmed(purpose: string, body: string)
    requires Trimmed(purpose) && Trimmed(body)
    ensures Strip(purpose + "\n\n" + Marker + "\n" + body) == purpose + "\n\n" + Marker + "\n" + body
  {
    var s := purpose + "\n\n" + Marker + "\n" + body;
    assert s[0] == purpose[0];
    assert s[|s| - 1] == body[|body| - 1];
    StripOfPadded("", s, "");
    assert "" + s + "" == s;
  }

  /** Parsing undoes rendering: a response laid out like the worked examples,
      free of stop markers, gives back its purpose as the table intent and its
      descriptions as the column intents, a later line for a column winning. */
  lemma ResponseRoundTrip(purpose: string, pairs: seq<(string, string)>, cols: seq<string>)
    requires Trimmed(purpose) && !Contains(purpose, Marker)
    requires |pairs| > 0
    requires forall i :: 0 <= i < |pairs| ==> ReadablePair(pairs[i], ExpectedColumns(cols))
    requires forall i :: 0 <= i < |StopTokens| ==> !Contains(RenderResponse(purpose, pairs), StopTokens[i])
    ensures ParseResponse(RenderResponse(purpose, pairs), cols) == Intents(purpose, FromPairs(pairs))
  {
    var expected := ExpectedColumns(cols);
    var lines := DescriptionLines(pairs);
    var body := Join(lines, "\n");
    var s := RenderResponse(purpose, pairs);
    DescriptionBlock(pairs, expected);
    RenderedTrimmed(purpose, body);
    StopTokensNonEmpty();
    CutAllUnchanged(s, StopTokens);
    assert Cleaned(s) == s;
    SplitRendered(purpose, body);
    ParseDescriptionLines(pairs, expected);
  }

  /** Of several lines for one column, the last is the one kept. */
  lemma RepeatedColumnLastWins(purpose: string, pairs: seq<(string, string)>, cols: seq<string>, i: nat)
    requires Trimmed(purpose) && !Contains(purpose, Marker)
    requires |pairs| > 0
    requires forall j :: 0 <= j < |pairs| ==> ReadablePair(pairs[j], ExpectedColumns(cols))
    requires forall j :: 0 <= j < |StopTokens| ==> !Contains(RenderResponse(purpose, pairs), StopTokens[j])
    requires i < |pairs| && forall j :: i < j < |pairs| ==> pairs[j].0 != pairs[i].0
    ensures var r := ParseResponse(RenderResponse(purpose, pairs), cols);
            pairs[i].0 in r.columns && r.columns[pairs[i].0] == pairs[i].1
  {
    ResponseRoundTrip(purpose, pairs, cols);
    FromPairsLastWins(pairs, i);
  }

  /** A generation without the heading gives the cleaned text as the table
      intent and no column intents. */
  lemma NoHeadingNoColumns(generated: string, cols: seq<string>)
    requires !Contains(Cleaned(generated), Marker)
    ensures ParseResponse(generated, cols) == Intents(Cleaned(generated), map[])
  {
  }

  /** With the heading, the table intent is the stripped text before its
      first occurrence, and the column intents come from the stripped text
      after that occurrence, line by line. */
  lemma HeadingSplitsResponse(g: string, cols: seq<string>)
    requires Contains(g, Marker)
    ensures Find(g, Marker).Some?
    ensures ReadCleaned(g, cols).table == Strip(g[..Find(g, Marker).value])
    ensures ReadCleaned(g, cols).columns
         == FromPairs(ParsedLines(SplitLines(Strip(g[Find(g, Marker).value + |Marker|..])), ExpectedColumns(cols)))
  {
    var i := Find(g, Marker).value;
    assert SplitOnce(g, Marker) == Some((g[..i], g[i + |Marker|..]));
  }

  // ---------------------------------------------------------------------------
  // generate_intents
  // ---------------------------------------------------------------------------

  /** `generate_intents` as written. The model is optional; without one the
      source calls its loader with an argument the loader does not accept,
      so the call raises before any prompt is built. */
  function GenerateIntents(table: string, cols: seq<string>, types: seq<string>,
                           llm: Option<string -> string>): (r: Result<Intents>)
    ensures r.Failure? <==> llm.None?
    ensures r.Success? ==> r.value.columns.Keys <= ExpectedColumns(cols)
  {
    match llm
    case None => Failure("TypeError: _load_intent_model() takes 0 positional arguments but 1 was given")
    case Some(model) => Success(ParseResponse(model(IntentPrompt(table, cols, types)), cols))
  }

  /** The call without a model always raises. */
  lemma MissingModelRaises(table: string, cols: seq<string>, types: seq<string>)
    ensures GenerateIntents(table, cols, types, None).Failure?
  {
  }

  /** `generate_intents` as evidently intended: without a model, the default
      model (here a parameter standing for the loaded pipeline) is used. */
  function GenerateIntentsWithDefault(table: string, cols: seq<string>, types: seq<string>,
                                      llm: Option<string -> string>, default: string -> string): (r: Intents)
    ensures r.columns.Keys <= ExpectedColumns(cols)
  {
    ParseResponse(llm.GetOr(default)(IntentPrompt(table, cols, types)), cols)
  }

  /** The corrected call agrees with the written one whenever a model is given,
      and without one it answers as the default model would. */
  lemma DefaultAgreesWithGiven(table: string, cols: seq<string>, types: seq<string>,
                               llm: Option<string -> string>, default: string -> string)
    ensures llm.Some? ==> GenerateIntents(table, cols, types, llm)
                          == Success(GenerateIntentsWithDefault(table, cols, types, llm, default))
    ensures llm.None? ==> GenerateIntentsWithDefault(table, cols, types, llm, default)
                          == GenerateIntentsWithDefault(table, cols, types, Some(default), default)
  {
    var prompt := IntentPrompt(table, cols, types);
    var model := llm.GetOr(default);
    assert GenerateIntentsWithDefault(table, cols, types, llm, default) == ParseResponse(model(prompt), cols);
    if llm.Some? {
      assert model == llm.value;
      assert GenerateIntents(table, cols, types, llm) == Success(ParseResponse(model(prompt), cols));
    } else {
      assert model == default;
      assert GenerateIntentsWithDefault(table, cols, types, Some(default), default) == ParseResponse(default(prompt), cols);
      assert GenerateIntentsWithDefault(table, cols, types, llm, default)
          == GenerateIntentsWithDefault(table, cols, types, Some(default), default);
    }
  }
}
