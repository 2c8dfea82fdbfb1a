/** The Python string operations the pipeline relies on, over `string`
    (a sequence of code points): `strip`, `rstrip`, `split(sep)`, `split()`,
    `splitlines()`, `find` / `in`, `startswith`, `join`, `lower`, `upper`. */
module Strings {
  import opened Wrappers

  /** Python's `str.isspace()` for a single character. */
  predicate IsSpace(c: char) {
    || c == ' ' || c == '\t' || c == '\n' || c == '\r' || c == '\U{0b}' || c == '\U{0c}'
    || ('\U{1c}' <= c <= '\U{1f}') || c == '\U{85}' || c == '\U{a0}' || c == '\U{1680}'
    || ('\U{2000}' <= c <= '\U{200a}') || c == '\U{2028}' || c == '\U{2029}'
    || c == '\U{202f}' || c == '\U{205f}' || c == '\U{3000}'
  }

  /** The characters at which Python's `str.splitlines()` ends a line. */
  predicate IsLineBreak(c: char) {
    || c == '\n' || c == '\r' || c == '\U{0b}' || c == '\U{0c}'
    || ('\U{1c}' <= c <= '\U{1e}') || c == '\U{85}' || c == '\U{2028}' || c == '\U{2029}'
  }

  predicate IsParen(c: char) {
    c == '(' || c == ')'
  }

  predicate IsCloseParen(c: char) {
    c == ')'
  }

  // ---------------------------------------------------------------------------
  // Prefixes, occurrences, first occurrence
  // ---------------------------------------------------------------------------

  predicate StartsWith(s: string, p: string) {
    |p| <= |s| && s[..|p|] == p
  }

  predicate EndsWith(s: string, p: string) {
    |p| <= |s| && s[|s| - |p|..] == p
  }

  /** Python's `t in s`. */
  predicate Contains(s: string, t: string) {
    exists j :: 0 <= j <= |s| && StartsWith(s[j..], t)
  }

  /** Python's `s.find(t)`: the first index at which `t` occurs, if any. */
  function Find(s: string, t: string): (r: Option<nat>)
    ensures r.Some? ==> r.value <= |s| && StartsWith(s[r.value..], t)
    ensures r.Some? ==> forall j :: 0 <= j < r.value ==> !StartsWith(s[j..], t)
    ensures r.None? <==> !Contains(s, t)
    decreases |s|
  {
    if StartsWith(s, t) then
      assert s[0..] == s;
      Some(0)
    else if |s| == 0 then
      assert !Contains(s, t) by {
        assert s[0..] == s;
      }
      None
    else
      var tail := s[1..];
      SuffixesOfTail(s);
      assert s[0..] == s;
      match Find(tail, t)
      case Some(k) => Some(k + 1)
      case None => None
  }

  /** The suffixes of a non-empty text past its first character are the tail's suffixes. */
  lemma SuffixesOfTail(s: string)
    requires |s| > 0
    ensures forall j :: 1 <= j <= |s| ==> s[j..] == s[1..][j - 1..]
  {
  }

  /** A substring of a text that does not contain `t` does not contain `t` either. */
  lemma InfixKeepsAbsence(s: string, lo: nat, hi: nat, t: string)
    requires lo <= hi <= |s|
    requires !Contains(s, t)
    ensures !Contains(s[lo..hi], t)
  {
    forall j | 0 <= j <= hi - lo
      ensures !StartsWith(s[lo..hi][j..], t)
    {
      assert !StartsWith(s[lo + j..], t);
      assert s[lo..hi][j..] == s[lo + j..hi];
    }
  }

  /** The text before the first occurrence of a non-empty `t` does not contain `t`. */
  lemma BeforeFirstLacks(s: string, t: string)
    requires |t| > 0 && Find(s, t).Some?
    ensures !Contains(s[..Find(s, t).value], t)
  {
    var i := Find(s, t).value;
    forall j | 0 <= j <= i
      ensures !StartsWith(s[..i][j..], t)
    {
      if j < i {
        assert !StartsWith(s[j..], t);
        assert s[..i][j..] == s[j..i];
      }
    }
  }

  /** A single character occurs as a substring exactly when it occurs in the text. */
  lemma ContainsChar(s: string, c: char)
    ensures Contains(s, [c]) <==> c in s
  {
    if c in s {
      var k :| 0 <= k < |s| && s[k] == c;
      assert StartsWith(s[k..], [c]);
    }
    forall j | 0 <= j <= |s| && StartsWith(s[j..], [c])
      ensures c in s
    {
      assert s[j] == c;
    }
  }

  /** No character of `b` occurs in `t`. */
  predicate CharsOutside(b: string, t: string) {
    forall k, i :: 0 <= k < |b| && 0 <= i < |t| ==> b[k] != t[i]
  }

  /** Appending characters that `t` does not use cannot create an occurrence of `t`. */
  lemma ContainsAppendFresh(a: string, b: string, t: string)
    requires |t| > 0 && !Contains(a, t) && CharsOutside(b, t)
    ensures !Contains(a + b, t)
  {
    var s := a + b;
    forall j | 0 <= j <= |s|
      ensures !StartsWith(s[j..], t)
    {
      if j + |t| <= |a| {
        assert s[j..][..|t|] == a[j..][..|t|];
      } else if j + |t| <= |s| {
        var k := if j < |a| then |a| else j;
        assert s[j..][..|t|][k - j] == b[k - |a|];
      }
    }
  }

  /** When `a` has no occurrence of `t` and its last character is not in `t`,
      the first occurrence of `t` in `a + t + b` is the one right after `a`. */
  lemma FindAfter(a: string, t: string, b: string)
    requires |t| > 0 && !Contains(a, t)
    requires |a| > 0 ==> CharsOutside([a[|a| - 1]], t)
    ensures Find(a + t + b, t) == Some(|a|)
  {
    var s := a + t + b;
    assert s[|a|..][..|t|] == t;
    forall j | 0 <= j < |a|
      ensures !StartsWith(s[j..], t)
    {
      NoStartBefore(a, t, b, j);
    }
    FindIs(s, t, |a|);
  }

  /** `t` starts nowhere inside `a` in `a + t + b`, under the conditions of `FindAfter`. */
  lemma NoStartBefore(a: string, t: string, b: string, j: nat)
    requires |t| > 0 && !Contains(a, t)
    requires |a| > 0 ==> CharsOutside([a[|a| - 1]], t)
    requires j < |a|
    ensures !StartsWith((a + t + b)[j..], t)
  {
    var s := a + t + b;
    if j + |t| <= |a| {
      assert s[j..][..|t|] == a[j..][..|t|];
      assert !StartsWith(a[j..], t);
    } else {
      var w := s[j..][..|t|];
      assert w[|a| - 1 - j] == a[|a| - 1];
      assert [a[|a| - 1]][0] != t[|a| - 1 - j];
      assert w != t;
    }
  }

  /** The first index at which `t` starts is what `Find` returns. */
  lemma FindIs(s: string, t: string, i: nat)
    requires i <= |s| && StartsWith(s[i..], t)
    requires forall j :: 0 <= j < i ==> !StartsWith(s[j..], t)
    ensures Find(s, t) == Some(i)
  {
    assert Contains(s, t);
  }

  /** Python's `s.split(sep, 1)` when it yields two parts: the text before the
      first occurrence of `sep` and the text after it. */
  function SplitOnce(s: string, sep: string): (r: Option<(string, string)>)
    requires |sep| > 0
    ensures r.Some? ==> s == r.value.0 + sep + r.value.1 && !Contains(r.value.0, sep)
    ensures r.None? <==> !Contains(s, sep)
  {
    match Find(s, sep)
    case Some(i) =>
      BeforeFirstLacks(s, sep);
      SplitAround(s, i, sep);
      Some((s[..i], s[i + |sep|..]))
    case None => None
  }

  lemma SplitAround(s: string, i: nat, sep: string)
    requires i <= |s| && StartsWith(s[i..], sep)
    ensures i + |sep| <= |s| && s == s[..i] + sep + s[i + |sep|..]
  {
    assert s[i..] == s[i..][..|sep|] + s[i..][|sep|..];
    assert s[i..][|sep|..] == s[i + |sep|..];
    assert s == s[..i] + s[i..];
  }

  /** Splitting once at the first occurrence recovers the two sides. */
  lemma SplitOnceAfter(a: string, sep: string, b: string)
    requires |sep| > 0 && !Contains(a, sep)
    requires |a| > 0 ==> CharsOutside([a[|a| - 1]], sep)
    ensures SplitOnce(a + sep + b, sep) == Some((a, b))
  {
    FindAfter(a, sep, b);
    var s := a + sep + b;
    assert s[..|a|] == a;
    assert s[|a| + |sep|..] == b;
  }

  // ---------------------------------------------------------------------------
  // strip
  // ---------------------------------------------------------------------------

  /** Python's `s.lstrip(chars)`, the characters to drop given as a predicate. */
  function LStrip(s: string, drop: char -> bool): (r: string)
    ensures |r| <= |s| && r == s[|s| - |r|..]
    ensures forall i :: 0 <= i < |s| - |r| ==> drop(s[i])
    ensures |r| > 0 ==> !drop(r[0])
    decreases |s|
  {
    if |s| > 0 && drop(s[0]) then LStrip(s[1..], drop) else s
  }

  /** Python's `s.rstrip(chars)`, the characters to drop given as a predicate. */
  function RStrip(s: string, drop: char -> bool): (r: string)
    ensures |r| <= |s| && r == s[..|r|]
    ensures forall i :: |r| <= i < |s| ==> drop(s[i])
    ensures |r| > 0 ==> !drop(r[|r| - 1])
    decreases |s|
  {
    if |s| > 0 && drop(s[|s| - 1]) then RStrip(s[..|s| - 1], drop) else s
  }

  /** Python's `s.strip(chars)`. */
  function StripBy(s: string, drop: char -> bool): (r: string)
  {
    RStrip(LStrip(s, drop), drop)
  }

  /** Python's `s.strip()`: the text without leading and trailing whitespace. */
  function Strip(s: string): (r: string)
    ensures |r| > 0 ==> !IsSpace(r[0]) && !IsSpace(r[|r| - 1])
  {
    RStrip(LStrip(s, IsSpace), IsSpace)
  }

  /** `strip()` keeps a contiguous piece of its argument, so it cannot
      create an occurrence of a text the argument lacks. */
  lemma StripKeepsAbsence(s: string, t: string)
    requires !Contains(s, t)
    ensures !Contains(Strip(s), t)
  {
    var l := LStrip(s, IsSpace);
    assert !Contains(l, t) by {
      InfixKeepsAbsence(s, |s| - |l|, |s|, t);
    }
    var r := RStrip(l, IsSpace);
    assert !Contains(r, t) by {
      InfixKeepsAbsence(l, 0, |r|, t);
    }
  }

  /** Whitespace around a text with non-blank ends is what `strip()` removes. */
  lemma {:induction false} StripOfPadded(pre: string, x: string, post: string)
    requires forall i :: 0 <= i < |pre| ==> IsSpace(pre[i])
    requires forall i :: 0 <= i < |post| ==> IsSpace(post[i])
    requires |x| > 0 && !IsSpace(x[0]) && !IsSpace(x[|x| - 1])
    ensures Strip(pre + x + post) == x
  {
    var s := pre + x + post;
    assert s == pre + (x + post);
    LStripPadded(pre, x + post);
    assert LStrip(s, IsSpace) == x + post;
    RStripPadded(x, post);
    assert Strip(s) == RStrip(x + post, IsSpace);
  }

  /** A single leading blank is stripped off a trimmed text. */
  lemma StripAfterBlank(x: string)
    requires |x| > 0 && !IsSpace(x[0]) && !IsSpace(x[|x| - 1])
    ensures Strip(" " + x) == x
  {
    StripOfPadded(" ", x, "");
    assert " " + x + "" == " " + x;
  }

  lemma {:induction false} LStripPadded(pre: string, y: string)
    requires forall i :: 0 <= i < |pre| ==> IsSpace(pre[i])
    requires |y| > 0 && !IsSpace(y[0])
    ensures LStrip(pre + y, IsSpace) == y
    decreases |pre|
  {
    if |pre| > 0 {
      assert (pre + y)[1..] == pre[1..] + y;
      LStripPadded(pre[1..], y);
    }
  }

  lemma {:induction false} RStripPadded(x: string, post: string)
    requires forall i :: 0 <= i < |post| ==> IsSpace(post[i])
    requires |x| > 0 && !IsSpace(x[|x| - 1])
    ensures RStrip(x + post, IsSpace) == x
    decreases |post|
  {
    if |post| > 0 {
      var p' := post[..|post| - 1];
      assert (x + post)[..|x + post| - 1] == x + p';
      RStripPadded(x, p');
    } else {
      assert x + post == x;
    }
  }

  // ---------------------------------------------------------------------------
  // join and split on a separator character
  // ---------------------------------------------------------------------------

  /** Python's `sep.join(xs)`. */
  function Join(xs: seq<string>, sep: string): string
  {
    if |xs| == 0 then ""
    else if |xs| == 1 then xs[0]
    else xs[0] + sep + Join(xs[1..], sep)
  }

  /** A first piece joins the rest after one separator. */
  lemma JoinCons(x: string, xs: seq<string>, sep: string)
    requires |xs| > 0
    ensures Join([x] + xs, sep) == x + sep + Join(xs, sep)
  {
    assert ([x] + xs)[1..] == xs;
  }

  /** Two pieces join around one separator. */
  lemma JoinPair(a: string, b: string, sep: string)
    ensures Join([a, b], sep) == a + sep + b
  {
    assert [a, b][1..] == [b];
  }

  /** Joining two non-empty runs puts exactly one separator between them. */
  lemma {:induction false} JoinAppend(a: seq<string>, b: seq<string>, sep: string)
    requires |a| > 0 && |b| > 0
    ensures Join(a + b, sep) == Join(a, sep) + sep + Join(b, sep)
    decreases |a|
  {
    if |a| == 1 {
      assert (a + b)[1..] == b;
    } else {
      assert (a + b)[1..] == a[1..] + b;
      JoinAppend(a[1..], b, sep);
    }
  }

  /** Moving a split piece across the middle of a concatenation. */
  lemma ConcatRegroup(x: string, a: string, b: string, t: string)
    ensures x + (a + b) + t == x + a + (b + t)
  {
  }

  /** Joining three non-empty runs puts one separator between each. */
  lemma JoinAppend3(a: seq<string>, b: seq<string>, c: seq<string>, sep: string)
    requires |a| > 0 && |b| > 0 && |c| > 0
    ensures Join(a + b + c, sep) == Join(a, sep) + sep + Join(b, sep) + sep + Join(c, sep)
  {
    JoinAppend(a + b, c, sep);
    JoinAppend(a, b, sep);
  }

  /** A joined sequence ends with its last element. */
  lemma {:induction false} JoinEndsWithLast(xs: seq<string>, sep: string)
    requires |xs| > 0
    ensures EndsWith(Join(xs, sep), xs[|xs| - 1])
    decreases |xs|
  {
    if |xs| > 1 {
      JoinEndsWithLast(xs[1..], sep);
      var j := Join(xs[1..], sep);
      assert (xs[0] + sep + j)[|xs[0] + sep + j| - |xs[|xs| - 1]|..] == j[|j| - |xs[|xs| - 1]|..];
    }
  }

  /** A joined non-empty sequence starts with its first element. */
  lemma {:induction false} JoinStartsWithFirst(xs: seq<string>, sep: string)
    requires |xs| > 0
    ensures StartsWith(Join(xs, sep), xs[0])
  {
    if |xs| > 1 {
      assert (xs[0] + sep + Join(xs[1..], sep))[..|xs[0]|] == xs[0];
    }
  }

  /** Every element after the first appears in the joined text right after a separator. */
  lemma JoinHasLine(xs: seq<string>, sep: string, k: nat)
    requires 0 < k < |xs|
    ensures Contains(Join(xs, sep), sep + xs[k])
  {
    var a, b := xs[..k], xs[k..];
    assert a + b == xs;
    JoinAppend(a, b, sep);
    JoinStartsWithFirst(b, sep);
    var s := Join(xs, sep);
    var j := |Join(a, sep)|;
    assert s[j..] == sep + Join(b, sep);
    assert b[0] == xs[k];
    assert s[j..][..|sep + xs[k]|] == sep + xs[k];
  }

  /** A text that is the join of `lines` holds line `m` (not the first)
      right after a separator. */
  lemma JoinedHasLine(text: string, lines: seq<string>, sep: string, m: nat, line: string)
    requires text == Join(lines, sep) && 0 < m < |lines| && lines[m] == line
    ensures Contains(text, sep + line)
  {
    JoinHasLine(lines, sep, m);
  }

  /** Python's `s.split(sep)` for a one-character separator: every piece,
      empty ones included, in order. */
  function Split(s: string, sep: char): (r: seq<string>)
    ensures |r| >= 1
    ensures forall i :: 0 <= i < |r| ==> sep !in r[i]
    decreases |s|
  {
    if |s| == 0 then [""]
    else
      var rest := Split(s[1..], sep);
      if s[0] == sep then [""] + rest
      else [[s[0]] + rest[0]] + rest[1..]
  }

  /** Joining the pieces again with the separator gives back the text. */
  lemma {:induction false} SplitThenJoin(s: string, sep: char)
    ensures Join(Split(s, sep), [sep]) == s
    decreases |s|
  {
    if |s| > 0 {
      SplitThenJoin(s[1..], sep);
      var rest := Split(s[1..], sep);
      if s[0] == sep {
        assert ([""] + rest)[1..] == rest;
      } else if |rest| > 1 {
        var r := [[s[0]] + rest[0]] + rest[1..];
        assert r[1..] == rest[1..];
        assert Join(rest, [sep]) == rest[0] + [sep] + Join(rest[1..], [sep]);
        assert s == [s[0]] + s[1..];
      } else {
        assert s == [s[0]] + s[1..];
      }
    }
  }

  lemma {:induction false} SplitWithoutSep(s: string, sep: char)
    requires sep !in s
    ensures Split(s, sep) == [s]
    decreases |s|
  {
    if |s| > 0 {
      assert sep !in s[1..];
      SplitWithoutSep(s[1..], sep);
      assert [s[0]] + s[1..] == s;
    }
  }

  lemma {:induction false} SplitAfterPiece(a: string, sep: char, t: string)
    requires sep !in a
    ensures Split(a + [sep] + t, sep) == [a] + Split(t, sep)
    decreases |a|
  {
    var s := a + [sep] + t;
    if |a| == 0 {
      assert s[1..] == t;
    } else {
      assert s[1..] == a[1..] + [sep] + t;
      assert sep !in a[1..];
      SplitAfterPiece(a[1..], sep, t);
      assert [a[0]] + a[1..] == a;
    }
  }

  /** Splitting a join of separator-free pieces gives back the pieces. */
  lemma {:induction false} JoinThenSplit(xs: seq<string>, sep: char)
    requires |xs| >= 1
    requires forall i :: 0 <= i < |xs| ==> sep !in xs[i]
    ensures Split(Join(xs, [sep]), sep) == xs
    decreases |xs|
  {
    if |xs| == 1 {
      SplitWithoutSep(xs[0], sep);
    } else {
      JoinThenSplit(xs[1..], sep);
      SplitAfterPiece(xs[0], sep, Join(xs[1..], [sep]));
      assert [xs[0]] + xs[1..] == xs;
    }
  }

  // ---------------------------------------------------------------------------
  // split() on runs of whitespace
  // ---------------------------------------------------------------------------

  predicate IsWord(w: string) {
    |w| > 0 && forall i :: 0 <= i < |w| ==> !IsSpace(w[i])
  }

  /** Length of the leading run of non-whitespace characters. */
  function WordEnd(s: string): (k: nat)
    ensures k <= |s|
    ensures forall i :: 0 <= i < k ==> !IsSpace(s[i])
    ensures k < |s| ==> IsSpace(s[k])
    decreases |s|
  {
    if |s| == 0 || IsSpace(s[0]) then 0 else 1 + WordEnd(s[1..])
  }

  /** Python's `s.split()`: the maximal whitespace-free runs, in order. */
  function Words(s: string): (r: seq<string>)
    ensures forall i :: 0 <= i < |r| ==> IsWord(r[i])
    decreases |s|
  {
    if |s| == 0 then []
    else if IsSpace(s[0]) then Words(s[1..])
    else
      var k := WordEnd(s);
      [s[..k]] + Words(s[k..])
  }

  lemma {:induction false} WordsOfWord(w: string, t: string)
    requires IsWord(w)
    requires |t| > 0 ==> IsSpace(t[0])
    ensures Words(w + t) == [w] + Words(t)
  {
    var s := w + t;
    assert forall i :: 0 <= i < |w| ==> s[i] == w[i];
    assert |t| > 0 ==> s[|w|] == t[0];
    assert WordEnd(s) == |w|;
    assert s[..|w|] == w && s[|w|..] == t;
  }

  /** `split()` undoes a single-space join of words. */
  lemma {:induction false} WordsOfJoin(ws: seq<string>)
    requires forall i :: 0 <= i < |ws| ==> IsWord(ws[i])
    ensures Words(Join(ws, " ")) == ws
    decreases |ws|
  {
    if |ws| == 1 {
      WordsOfWord(ws[0], "");
      assert ws[0] + "" == ws[0];
    } else if |ws| > 1 {
      var rest := Join(ws[1..], " ");
      assert Join(ws, " ") == ws[0] + (" " + rest) by {
        JoinCons(ws[0], ws[1..], " ");
        assert [ws[0]] + ws[1..] == ws;
      }
      WordsOfWord(ws[0], " " + rest);
      WordsAfterBlank(rest);
      WordsOfJoin(ws[1..]);
      assert [ws[0]] + ws[1..] == ws;
    }
  }

  lemma WordsAfterBlank(s: string)
    ensures Words(" " + s) == Words(s)
  {
    assert (" " + s)[1..] == s;
  }

  /** Leading whitespace does not change `split()`. */
  lemma {:induction false} WordsAfterSpaces(pre: string, s: string)
    requires forall i :: 0 <= i < |pre| ==> IsSpace(pre[i])
    ensures Words(pre + s) == Words(s)
    decreases |pre|
  {
    if |pre| > 0 {
      assert (pre + s)[0] == pre[0];
      assert (pre + s)[1..] == pre[1..] + s;
      WordsAfterSpaces(pre[1..], s);
    } else {
      assert pre + s == s;
    }
  }

  /** Trailing whitespace does not change `split()`. */
  lemma {:induction false} WordsBeforeSpaces(s: string, post: string)
    requires forall i :: 0 <= i < |post| ==> IsSpace(post[i])
    ensures Words(s + post) == Words(s)
    decreases |s|
  {
    if |s| == 0 {
      assert s + post == post && post + "" == post;
      WordsAfterSpaces(post, "");
      assert Words(s) == [] == Words("");
    } else if IsSpace(s[0]) {
      assert (s + post)[1..] == s[1..] + post;
      WordsBeforeSpaces(s[1..], post);
    } else {
      var k := WordEnd(s);
      var w, t := s[..k], s[k..];
      assert s == w + t;
      assert s + post == w + (t + post);
      WordsOfWord(w, t + post);
      WordsOfWord(w, t);
      if k < |s| {
        WordsBeforeSpaces(t, post);
      } else {
        assert t == "" && t + post == post;
        WordsAfterSpaces(post, "");
        assert post + "" == post;
        assert Words("") == [];
      }
    }
  }

  /** `split()` ignores the whitespace that `strip()` removes. */
  lemma WordsOfStrip(s: string)
    ensures Words(Strip(s)) == Words(s)
  {
    WordsOfLStrip(s);
    WordsOfRStrip(LStrip(s, IsSpace));
  }

  lemma {:induction false} WordsOfLStrip(s: string)
    ensures Words(LStrip(s, IsSpace)) == Words(s)
    decreases |s|
  {
    if |s| > 0 && IsSpace(s[0]) {
      WordsOfLStrip(s[1..]);
    }
  }

  lemma {:induction false} WordsOfRStrip(s: string)
    ensures Words(RStrip(s, IsSpace)) == Words(s)
    decreases |s|
  {
    if |s| > 0 && IsSpace(s[|s| - 1]) {
      var init := s[..|s| - 1];
      assert s == init + [s[|s| - 1]];
      WordsBeforeSpaces(init, [s[|s| - 1]]);
      WordsOfRStrip(init);
    }
  }

  // ---------------------------------------------------------------------------
  // splitlines()
  // ---------------------------------------------------------------------------

  /** Index of the first line-break character, or |s|. */
  function LineEnd(s: string): (k: nat)
    ensures k <= |s|
    ensures forall i :: 0 <= i < k ==> !IsLineBreak(s[i])
    ensures k < |s| ==> IsLineBreak(s[k])
    decreases |s|
  {
    if |s| == 0 || IsLineBreak(s[0]) then 0 else 1 + LineEnd(s[1..])
  }

  /** Python's `s.splitlines()`: "\r\n" counts as one break and a final
      break does not open an empty last line. */
  function SplitLines(s: string): (r: seq<string>)
    ensures forall i, j :: 0 <= i < |r| && 0 <= j < |r[i]| ==> !IsLineBreak(r[i][j])
    decreases |s|
  {
    if |s| == 0 then []
    else
      var k := LineEnd(s);
      if k == |s| then [s]
      else
        var skip := if s[k] == '\r' && k + 1 < |s| && s[k + 1] == '\n' then 2 else 1;
        [s[..k]] + SplitLines(s[k + skip..])
  }

  /** A break-free line followed by a line feed is split off as the first line. */
  lemma SplitLinesStep(line: string, rest: string)
    requires forall j :: 0 <= j < |line| ==> !IsLineBreak(line[j])
    ensures SplitLines(line + "\n" + rest) == [line] + SplitLines(rest)
  {
    var s := line + "\n" + rest;
    LineEndOfLine(line, "\n" + rest);
    assert s == line + ("\n" + rest);
    var k := |line|;
    assert s[k] == '\n';
    assert s[..k] == line;
    assert s[k + 1..] == rest;
  }

  lemma {:induction false} LineEndOfLine(line: string, t: string)
    requires forall j :: 0 <= j < |line| ==> !IsLineBreak(line[j])
    requires |t| > 0 ==> IsLineBreak(t[0])
    ensures LineEnd(line + t) == |line|
  {
    var s := line + t;
    assert forall i :: 0 <= i < |line| ==> s[i] == line[i];
    assert |t| > 0 ==> s[|line|] == t[0];
  }

  /** `splitlines()` undoes a "\n"-join of break-free lines whose last line is not empty. */
  lemma {:induction false} SplitLinesOfJoin(lines: seq<string>)
    requires forall i, j :: 0 <= i < |lines| && 0 <= j < |lines[i]| ==> !IsLineBreak(lines[i][j])
    requires |lines| > 0 ==> |lines[|lines| - 1]| > 0
    ensures SplitLines(Join(lines, "\n")) == lines
    decreases |lines|
  {
    if |lines| == 1 {
      LineEndOfLine(lines[0], "");
      assert lines[0] + "" == lines[0];
    } else if |lines| > 1 {
      var tail := lines[1..];
      assert forall i :: 0 <= i < |tail| ==> tail[i] == lines[i + 1];
      SplitLinesOfJoin(tail);
      SplitLinesStep(lines[0], Join(tail, "\n"));
      assert [lines[0]] + tail == lines;
    }
  }

  // ---------------------------------------------------------------------------
  // Case mapping (ASCII letters)
  // ---------------------------------------------------------------------------

  function LowerChar(c: char): char {
    if 'A' <= c <= 'Z' then (c as int + 32) as char else c
  }

  function UpperChar(c: char): char {
    if 'a' <= c <= 'z' then (c as int - 32) as char else c
  }

  /** Python's `s.lower()` on ASCII letters. */
  function Lower(s: string): (r: string)
    ensures |r| == |s|
    ensures forall i :: 0 <= i < |s| ==> !('A' <= r[i] <= 'Z')
    ensures forall i :: 0 <= i < |s| ==> (r[i] == s[i] <==> !('A' <= s[i] <= 'Z'))
  {
    seq(|s|, i requires 0 <= i < |s| => LowerChar(s[i]))
  }

  /** Python's `s.upper()` on ASCII letters. */
  function Upper(s: string): (r: string)
    ensures |r| == |s|
    ensures forall i :: 0 <= i < |s| ==> !('a' <= r[i] <= 'z')
    ensures forall i :: 0 <= i < |s| ==> (r[i] == s[i] <==> !('a' <= s[i] <= 'z'))
  {
    seq(|s|, i requires 0 <= i < |s| => UpperChar(s[i]))
  }

  /** Lower-casing is idempotent: a lowered text is its own lower case. */
  lemma LowerIdempotent(s: string)
    ensures Lower(Lower(s)) == Lower(s)
  {
    var l := Lower(s);
    assert forall i :: 0 <= i < |l| ==> LowerChar(l[i]) == l[i];
  }

  // ---------------------------------------------------------------------------
  // Ordering (Python's `<` on str: code points, a proper prefix first)
  // ---------------------------------------------------------------------------

  predicate StrLess(a: string, b: string)
    decreases |a|
  {
    if |a| == 0 then |b| > 0
    else if |b| == 0 then false
    else if a[0] != b[0] then a[0] < b[0]
    else StrLess(a[1..], b[1..])
  }

  lemma {:induction false} StrLessIrreflexive(a: string)
    ensures !StrLess(a, a)
    decreases |a|
  {
    if |a| > 0 {
      StrLessIrreflexive(a[1..]);
    }
  }

  lemma {:induction false} StrLessAsymmetric(a: string, b: string)
    ensures StrLess(a, b) ==> !StrLess(b, a)
    decreases |a|
  {
    if |a| > 0 && |b| > 0 && a[0] == b[0] {
      StrLessAsymmetric(a[1..], b[1..]);
    }
  }

  lemma {:induction false} StrLessTotal(a: string, b: string)
    ensures a == b || StrLess(a, b) || StrLess(b, a)
    decreases |a|
  {
    if |a| > 0 && |b| > 0 && a[0] == b[0] {
      StrLessTotal(a[1..], b[1..]);
      if a[1..] == b[1..] {
        assert a == [a[0]] + a[1..] && b == [b[0]] + b[1..];
      }
    }
  }

  lemma {:induction false} StrLessTransitive(a: string, b: string, c: string)
    requires StrLess(a, b) && StrLess(b, c)
    ensures StrLess(a, c)
    decreases |a|
  {
    if |a| > 0 && a[0] == b[0] && b[0] == c[0] {
      StrLessTransitive(a[1..], b[1..], c[1..]);
    }
  }
}
