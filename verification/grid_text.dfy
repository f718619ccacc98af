/**
 * The grid text parser `string_to_grid`: strip the text, split it into lines, drop the blank
 * ones, split every remaining line on whitespace into tokens, and reject the grid with a
 * `ValueError` when some row has a different number of tokens than the first.
 */
module GridText {
  import opened Grids

  /** The `ValueError` that `string_to_grid` raises, with its message. */
  datatype ParseError = ValueError(message: string)

  datatype Result<T> = Ok(value: T) | Err(error: ParseError)

  const RaggedMessage: string := "All rows must have the same number of letters"

  /** Python's `str.isspace` on one character: the whitespace that `strip()` removes and that
      `split()` with no argument splits on (tab to carriage return, the four information
      separators, space, next line, no-break space and the Unicode space separators). */
  predicate IsSpace(c: char) {
    '\t' <= c <= '\r' || '\U{1C}' <= c <= ' ' || c == '\U{85}' || c == '\U{A0}' ||
    c == '\U{1680}' || '\U{2000}' <= c <= '\U{200A}' || c == '\U{2028}' || c == '\U{2029}' ||
    c == '\U{202F}' || c == '\U{205F}' || c == '\U{3000}'
  }

  predicate AllSpace(s: string) {
    forall i :: 0 <= i < |s| ==> IsSpace(s[i])
  }

  predicate NoSpace(s: string) {
    forall i :: 0 <= i < |s| ==> !IsSpace(s[i])
  }

  /** Neither begins nor ends with whitespace. */
  predicate Stripped(s: string) {
    s == [] || (!IsSpace(s[0]) && !IsSpace(s[|s| - 1]))
  }

  /* ---------------------------------------------------------------------------------------- */
  /* str.strip()                                                                              */
  /* ---------------------------------------------------------------------------------------- */

  /** `s` without its leading whitespace. */
  function TrimStart(s: string): (r: string)
    ensures |r| <= |s|
    ensures r == [] || !IsSpace(r[0])
    decreases |s|
  {
    if s != [] && IsSpace(s[0]) then TrimStart(s[1..]) else s
  }

  /** `s` without its trailing whitespace. */
  function TrimEnd(s: string): (r: string)
    ensures |r| <= |s|
    ensures r == [] || (r[0] == s[0] && !IsSpace(r[|r| - 1]))
    decreases |s|
  {
    if s != [] && IsSpace(s[|s| - 1]) then TrimEnd(s[..|s| - 1]) else s
  }

  /** `str.strip()`: the middle of `s` between its leading and its trailing whitespace. */
  function Strip(s: string): (r: string)
    ensures Stripped(r)
  {
    TrimEnd(TrimStart(s))
  }

  /** TrimStart keeps a suffix of `s` and cuts whitespace only. */
  lemma {:induction false} TrimStartCuts(s: string)
    ensures TrimStart(s) == s[|s| - |TrimStart(s)|..]
    ensures AllSpace(s[..|s| - |TrimStart(s)|])
    decreases |s|
  {
    if s != [] && IsSpace(s[0]) {
      TrimStartCuts(s[1..]);
      var k := |s| - |TrimStart(s)|;
      assert s[1..][k - 1..] == s[k..];
      assert forall i :: 1 <= i < k ==> s[i] == s[1..][..k - 1][i - 1];
    }
  }

  /** TrimEnd keeps a prefix of `s` and cuts whitespace only. */
  lemma {:induction false} TrimEndCuts(s: string)
    ensures TrimEnd(s) == s[..|TrimEnd(s)|]
    ensures AllSpace(s[|TrimEnd(s)|..])
    decreases |s|
  {
    if s != [] && IsSpace(s[|s| - 1]) {
      var init := s[..|s| - 1];
      TrimEndCuts(init);
      var n := |TrimEnd(s)|;
      assert init[..n] == s[..n];
      assert forall i :: n <= i < |s| - 1 ==> s[i] == init[n..][i - n];
    }
  }

  /** What `strip()` keeps is a contiguous part of `s`, and what it cuts on either side is
      whitespace only. */
  lemma StripKeepsMiddle(s: string)
    ensures var k := |s| - |TrimStart(s)|; var n := |Strip(s)|;
      k + n <= |s| && Strip(s) == s[k..k + n] && AllSpace(s[..k]) && AllSpace(s[k + n..])
  {
    var t := TrimStart(s);
    var r := TrimEnd(t);
    var k := |s| - |t|;
    TrimStartCuts(s);
    TrimEndCuts(t);
    SliceOfSuffix(s, k, |r|);
    assert t == s[k..];
    assert r == s[k..k + |r|];
    assert s[k + |r|..] == t[|r|..];
  }

  lemma SliceOfSuffix(s: string, k: nat, n: nat)
    requires k + n <= |s|
    ensures s[k..][..n] == s[k..k + n] && s[k..][n..] == s[k + n..]
  {
  }

  /* ---------------------------------------------------------------------------------------- */
  /* str.split('\n') and str.join                                                             */
  /* ---------------------------------------------------------------------------------------- */

  /** `sep.join(pieces)`. */
  function JoinWith(pieces: seq<string>, sep: char): string
    decreases |pieces|
  {
    if pieces == [] then []
    else if |pieces| == 1 then pieces[0]
    else pieces[0] + [sep] + JoinWith(pieces[1..], sep)
  }

  /** `s.split(sep)`: the pieces between the occurrences of `sep`; there is always at least one. */
  function SplitOn(s: string, sep: char): (pieces: seq<string>)
    ensures |pieces| >= 1
    decreases |s|
  {
    if s == [] then [[]]
    else
      var rest := SplitOn(s[1..], sep);
      if s[0] == sep then [[]] + rest
      else [[s[0]] + rest[0]] + rest[1..]
  }

  /** No piece contains `sep`, and joining the pieces with `sep` gives back `s`. */
  lemma {:induction false} SplitOnJoinsBack(s: string, sep: char)
    ensures forall i :: 0 <= i < |SplitOn(s, sep)| ==> sep !in SplitOn(s, sep)[i]
    ensures JoinWith(SplitOn(s, sep), sep) == s
    decreases |s|
  {
    if s != [] {
      SplitOnJoinsBack(s[1..], sep);
      var rest := SplitOn(s[1..], sep);
      if s[0] != sep {
        assert JoinWith([[s[0]] + rest[0]] + rest[1..], sep) == [s[0]] + JoinWith(rest, sep);
      }
      assert s == [s[0]] + s[1..];
    }
  }

  /* ---------------------------------------------------------------------------------------- */
  /* str.split()                                                                              */
  /* ---------------------------------------------------------------------------------------- */

  function Concat(pieces: seq<string>): string
    decreases |pieces|
  {
    if pieces == [] then [] else pieces[0] + Concat(pieces[1..])
  }

  /** The characters of `s` that are not whitespace, in order. */
  function RemoveSpaces(s: string): string
    decreases |s|
  {
    if s == [] then [] else (if IsSpace(s[0]) then [] else [s[0]]) + RemoveSpaces(s[1..])
  }

  /** `s.split()`: the maximal runs of non-whitespace characters. Every token is non-empty and
      free of whitespace, and together the tokens hold exactly the non-whitespace characters of
      `s`, in order. */
  function SplitWhitespace(s: string): (tokens: seq<string>)
    ensures forall i :: 0 <= i < |tokens| ==> tokens[i] != [] && NoSpace(tokens[i])
    ensures s != [] && !IsSpace(s[0]) ==> tokens != [] && tokens[0][0] == s[0]
    decreases |s|
  {
    if s == [] then []
    else
      var rest := SplitWhitespace(s[1..]);
      if IsSpace(s[0]) then rest
      else if |s| > 1 && !IsSpace(s[1]) then [[s[0]] + rest[0]] + rest[1..]
      else [[s[0]]] + rest
  }

  /* ---------------------------------------------------------------------------------------- */
  /* string_to_grid                                                                           */
  /* ---------------------------------------------------------------------------------------- */

  /** Every line stripped: `line.strip()` for each line. */
  function StripEach(lines: seq<string>): (stripped: seq<string>)
    ensures |stripped| == |lines|
    ensures forall i :: 0 <= i < |lines| ==> stripped[i] == Strip(lines[i]) && Stripped(stripped[i])
  {
    seq(|lines|, i requires 0 <= i < |lines| => Strip(lines[i]))
  }

  /** The non-empty strings among `xs`, in order (the `if line.strip()` filter). */
  function DropEmpty(xs: seq<string>): (kept: seq<string>)
    requires forall i :: 0 <= i < |xs| ==> Stripped(xs[i])
    ensures |kept| <= |xs|
    ensures forall i :: 0 <= i < |kept| ==> kept[i] != [] && Stripped(kept[i])
    decreases |xs|
  {
    if xs == [] then []
    else (if xs[0] != [] then [xs[0]] else []) + DropEmpty(xs[1..])
  }

  /** The lines of `s`, each stripped, without the blank ones. */
  function KeptLines(s: string): (rows: seq<string>)
    ensures forall i :: 0 <= i < |rows| ==> rows[i] != [] && Stripped(rows[i])
  {
    DropEmpty(StripEach(SplitOn(s, '\n')))
  }

  /** `[line.strip() for line in text.strip().split('\n') if line.strip()]`: the non-blank
      lines of the text, each stripped. */
  function NonBlankLines(text: string): (rows: seq<string>)
    ensures forall i :: 0 <= i < |rows| ==> rows[i] != [] && Stripped(rows[i])
  {
    KeptLines(Strip(text))
  }

  /** `[row.split() for row in rows]`: on non-blank stripped rows, no row of tokens is empty and
      no token is empty or holds whitespace. */
  function SplitEach(rows: seq<string>): (grid: Grid)
    requires forall i :: 0 <= i < |rows| ==> rows[i] != [] && Stripped(rows[i])
    ensures |grid| == |rows|
    ensures forall i :: 0 <= i < |rows| ==> grid[i] == SplitWhitespace(rows[i])
    ensures forall i :: 0 <= i < |grid| ==> grid[i] != []
    ensures forall i, j :: 0 <= i < |grid| && 0 <= j < |grid[i]| ==>
      grid[i][j] != [] && NoSpace(grid[i][j])
  {
    assert forall i :: 0 <= i < |rows| ==> rows[i] != [] && Stripped(rows[i]);
    assert forall i :: 0 <= i < |rows| ==> !IsSpace(rows[i][0]);
    assert forall i :: 0 <= i < |rows| ==> SplitWhitespace(rows[i]) != [];
    seq(|rows|, i requires 0 <= i < |rows| => SplitWhitespace(rows[i]))
  }

  /** The token rows of the text, before the shape check. */
  function TokenRows(text: string): Grid {
    SplitEach(NonBlankLines(text))
  }

  /** `string_to_grid`: the token rows when they all have as many tokens as the first row, and
      the `ValueError` otherwise. */
  function StringToGrid(text: string): (r: Result<Grid>)
    ensures r.Err? <==> exists i :: 0 <= i < |TokenRows(text)| && |TokenRows(text)[i]| != |TokenRows(text)[0]|
    ensures r.Err? ==> r.error == ValueError(RaggedMessage)
    ensures r.Ok? ==> r.value == TokenRows(text)
    ensures r.Ok? ==> Rectangular(r.value)
    ensures r.Ok? ==> forall i :: 0 <= i < |r.value| ==> r.value[i] != []
    ensures r.Ok? ==> forall i, j :: 0 <= i < |r.value| && 0 <= j < |r.value[i]| ==>
      r.value[i][j] != [] && NoSpace(r.value[i][j])
  {
    var grid := TokenRows(text);
    if forall i :: 0 <= i < |grid| ==> |grid[i]| == |grid[0]| then Ok(grid)
    else Err(ValueError(RaggedMessage))
  }

  /* ---------------------------------------------------------------------------------------- */
  /* Blank input                                                                              */
  /* ---------------------------------------------------------------------------------------- */

  lemma StripOfBlank(s: string)
    ensures Strip(s) == [] <==> AllSpace(s)
  {
    StripKeepsMiddle(s);
    var k := |s| - |TrimStart(s)|;
    if Strip(s) == [] {
      assert s == s[..k] + s[k..];
    } else {
      assert Strip(s)[0] == s[k];
    }
  }

  lemma {:induction false} DropEmptyOfBlank(xs: seq<string>)
    requires forall i :: 0 <= i < |xs| ==> Stripped(xs[i])
    requires DropEmpty(xs) == []
    ensures forall i :: 0 <= i < |xs| ==> xs[i] == []
    decreases |xs|
  {
    if xs != [] {
      DropEmptyOfBlank(xs[1..]);
      assert forall i :: 1 <= i < |xs| ==> xs[i] == xs[1..][i - 1];
    }
  }

  lemma {:induction false} JoinOfBlank(lines: seq<string>, sep: char)
    requires IsSpace(sep)
    requires forall i :: 0 <= i < |lines| ==> AllSpace(lines[i])
    ensures AllSpace(JoinWith(lines, sep))
    decreases |lines|
  {
    if |lines| > 1 {
      JoinOfBlank(lines[1..], sep);
      assert forall i :: 0 <= i < |lines[1..]| ==> lines[1..][i] == lines[i + 1];
    }
  }

  lemma BlankTextHasNoLines(text: string)
    requires AllSpace(text)
    ensures NonBlankLines(text) == []
  {
    StripOfBlank(text);
    assert SplitOn([], '\n') == [[]];
    assert Strip([]) == [];
  }

  lemma NoLinesMeansBlank(text: string)
    requires NonBlankLines(text) == []
    ensures AllSpace(text)
  {
    var stripped := Strip(text);
    var lines := SplitOn(stripped, '\n');
    DropEmptyOfBlank(StripEach(lines));
    forall i | 0 <= i < |lines| ensures AllSpace(lines[i]) {
      assert StripEach(lines)[i] == Strip(lines[i]) == [];
      StripOfBlank(lines[i]);
    }
    JoinOfBlank(lines, '\n');
    SplitOnJoinsBack(stripped, '\n');
    StripOfBlank(text);
  }

  /** Blank input: the grid is empty, without error, exactly when the text is whitespace only. */
  lemma BlankInputGivesEmptyGrid(text: string)
    ensures StringToGrid(text) == Ok([]) <==> AllSpace(text)
  {
    if AllSpace(text) {
      BlankTextHasNoLines(text);
    } else if StringToGrid(text) == Ok([]) {
      assert |NonBlankLines(text)| == |TokenRows(text)| == 0;
      NoLinesMeansBlank(text);
    }
  }

  /* ---------------------------------------------------------------------------------------- */
  /* Which lines are kept                                                                     */
  /* ---------------------------------------------------------------------------------------- */

  /** Leading whitespace is what `lstrip()` removes: one more in front changes nothing. */
  lemma StripSpaceFront(c: char, s: string)
    requires IsSpace(c)
    ensures Strip([c] + s) == Strip(s)
  {
    assert ([c] + s)[1..] == s;
  }

  lemma {:induction false} TrimStartSnoc(s: string, c: char)
    requires IsSpace(c)
    ensures TrimStart(s + [c]) == TrimStart(s) + [c] || (TrimStart(s + [c]) == [] && TrimStart(s) == [])
    decreases |s|
  {
    if s != [] {
      assert (s + [c])[0] == s[0] && (s + [c])[1..] == s[1..] + [c];
      if IsSpace(s[0]) {
        TrimStartSnoc(s[1..], c);
      }
    }
  }

  /** Trailing whitespace is what `rstrip()` removes: one more at the end changes nothing. */
  lemma StripSpaceBack(s: string, c: char)
    requires IsSpace(c)
    ensures Strip(s + [c]) == Strip(s)
  {
    TrimStartSnoc(s, c);
    var t := TrimStart(s);
    if TrimStart(s + [c]) == t + [c] {
      assert (t + [c])[..|t + [c]| - 1] == t;
    }
  }

  /** Splitting at one occurrence of `sep` splits the pieces there. */
  lemma {:induction false} SplitOnAppend(a: string, sep: char, b: string)
    ensures SplitOn(a + [sep] + b, sep) == SplitOn(a, sep) + SplitOn(b, sep)
    decreases |a|
  {
    var x := a + [sep] + b;
    if a == [] {
      assert x == [sep] + b && x[1..] == b;
    } else {
      assert x[0] == a[0] && x[1..] == a[1..] + [sep] + b;
      SplitOnAppend(a[1..], sep, b);
      if a[0] != sep {
        GlueFirst(a[0], SplitOn(a[1..], sep), SplitOn(b, sep));
      }
    }
  }

  /** `p` with `c` appended to its last string. */
  function LengthenLast(p: seq<string>, c: char): seq<string>
    requires p != []
  {
    p[..|p| - 1] + [p[|p| - 1] + [c]]
  }

  lemma LengthenLastCons(h: string, r: seq<string>, c: char)
    requires r != []
    ensures LengthenLast([h] + r, c) == [h] + LengthenLast(r, c)
  {
    var p := [h] + r;
    assert p[..|p| - 1] == [h] + r[..|r| - 1];
  }

  lemma LengthenLastGlue(g: char, r: seq<string>, c: char)
    requires r != []
    ensures var t := LengthenLast(r, c);
      [[g] + t[0]] + t[1..] == LengthenLast([[g] + r[0]] + r[1..], c)
  {
    var t := LengthenLast(r, c);
    if |r| == 1 {
      assert t == [r[0] + [c]];
      assert [g] + (r[0] + [c]) == ([g] + r[0]) + [c];
    } else {
      assert t[0] == r[0] && t[1..] == LengthenLast(r[1..], c);
      LengthenLastCons([g] + r[0], r[1..], c);
    }
  }

  /** A character other than `sep` at the end lengthens the last piece. */
  lemma {:induction false} SplitOnSnoc(s: string, sep: char, c: char)
    requires c != sep
    ensures SplitOn(s + [c], sep) == LengthenLast(SplitOn(s, sep), c)
    decreases |s|
  {
    if s == [] {
      assert s + [c] == [c];
      SplitOnPiece([c], sep);
    } else {
      var x := s + [c];
      assert x[0] == s[0] && x[1..] == s[1..] + [c];
      SplitOnSnoc(s[1..], sep, c);
      var r := SplitOn(s[1..], sep);
      if s[0] == sep {
        LengthenLastCons([], r, c);
      } else {
        LengthenLastGlue(s[0], r, c);
      }
    }
  }

  lemma StripEachAppend(xs: seq<string>, ys: seq<string>)
    ensures StripEach(xs + ys) == StripEach(xs) + StripEach(ys)
  {
  }

  lemma StripEachSameLast(p: seq<string>, x: string)
    requires p != [] && Strip(x) == Strip(p[|p| - 1])
    ensures StripEach(p[..|p| - 1] + [x]) == StripEach(p)
  {
    var q := p[..|p| - 1] + [x];
    forall i | 0 <= i < |p| ensures StripEach(q)[i] == StripEach(p)[i] {
      if i < |p| - 1 {
        assert q[i] == p[i];
      }
    }
  }

  /** The filter keeps the non-empty strings of two lists, in order: it distributes over `+`. */
  lemma {:induction false} DropEmptyAppend(xs: seq<string>, ys: seq<string>)
    requires forall i :: 0 <= i < |xs| ==> Stripped(xs[i])
    requires forall i :: 0 <= i < |ys| ==> Stripped(ys[i])
    ensures DropEmpty(xs + ys) == DropEmpty(xs) + DropEmpty(ys)
    decreases |xs|
  {
    if xs == [] {
      assert xs + ys == ys;
    } else {
      assert (xs + ys)[0] == xs[0] && (xs + ys)[1..] == xs[1..] + ys;
      DropEmptyAppend(xs[1..], ys);
    }
  }

  /** A single string is kept exactly when it is non-empty. */
  lemma DropEmptySingle(x: string)
    requires Stripped(x)
    ensures DropEmpty([x]) == if x == [] then [] else [x]
  {
  }

  /** A line break splits the kept lines: those before it, then those after it. */
  lemma KeptLinesAppend(a: string, b: string)
    ensures KeptLines(a + "\n" + b) == KeptLines(a) + KeptLines(b)
  {
    SplitOnAppend(a, '\n', b);
    StripEachAppend(SplitOn(a, '\n'), SplitOn(b, '\n'));
    DropEmptyAppend(StripEach(SplitOn(a, '\n')), StripEach(SplitOn(b, '\n')));
  }

  /** A whitespace character in front adds no kept line and changes none. */
  lemma KeptLinesSpaceFront(c: char, s: string)
    requires IsSpace(c)
    ensures KeptLines([c] + s) == KeptLines(s)
  {
    var p := SplitOn(s, '\n');
    if c == '\n' {
      KeptLinesAppend([], s);
      assert [] + "\n" + s == [c] + s;
      assert KeptLines([]) == [];
    } else {
      assert ([c] + s)[1..] == s;
      var q := SplitOn([c] + s, '\n');
      assert q == [[c] + p[0]] + p[1..];
      StripSpaceFront(c, p[0]);
      assert StripEach(q) == StripEach(p);
    }
  }

  /** A whitespace character at the end adds no kept line and changes none. */
  lemma KeptLinesSpaceBack(s: string, c: char)
    requires IsSpace(c)
    ensures KeptLines(s + [c]) == KeptLines(s)
  {
    var p := SplitOn(s, '\n');
    if c == '\n' {
      KeptLinesAppend(s, []);
      assert s + "\n" + [] == s + [c];
      assert KeptLines([]) == [];
    } else {
      SplitOnSnoc(s, '\n', c);
      StripSpaceBack(p[|p| - 1], c);
      StripEachSameLast(p, p[|p| - 1] + [c]);
    }
  }

  lemma {:induction false} KeptLinesPadFront(lead: string, s: string)
    requires AllSpace(lead)
    ensures KeptLines(lead + s) == KeptLines(s)
    decreases |lead|
  {
    if lead == [] {
      assert lead + s == s;
    } else {
      assert lead + s == [lead[0]] + (lead[1..] + s);
      assert IsSpace(lead[0]) && AllSpace(lead[1..]);
      KeptLinesSpaceFront(lead[0], lead[1..] + s);
      KeptLinesPadFront(lead[1..], s);
    }
  }

  lemma {:induction false} KeptLinesPadBack(s: string, trail: string)
    requires AllSpace(trail)
    ensures KeptLines(s + trail) == KeptLines(s)
    decreases |trail|
  {
    if trail == [] {
      assert s + trail == s;
    } else {
      var n := |trail|;
      assert s + trail == (s + trail[..n - 1]) + [trail[n - 1]];
      assert IsSpace(trail[n - 1]) && AllSpace(trail[..n - 1]);
      KeptLinesSpaceBack(s + trail[..n - 1], trail[n - 1]);
      KeptLinesPadBack(s, trail[..n - 1]);
    }
  }

  /** The outer `text.strip()` changes no kept line: stripping each line already removes the
      whitespace it would cut. */
  lemma StripKeepsLines(text: string)
    ensures NonBlankLines(text) == KeptLines(text)
  {
    StripKeepsMiddle(text);
    var k := |text| - |TrimStart(text)|;
    var m := Strip(text);
    var trail := text[k + |m|..];
    assert text == text[..k] + (m + trail);
    KeptLinesPadFront(text[..k], m + trail);
    KeptLinesPadBack(m, trail);
  }

  /** The rows of two texts joined by a line break are the rows of the first, then those of the
      second. */
  lemma NonBlankLinesJoin(a: string, b: string)
    ensures NonBlankLines(a + "\n" + b) == NonBlankLines(a) + NonBlankLines(b)
  {
    StripKeepsLines(a + "\n" + b);
    StripKeepsLines(a);
    StripKeepsLines(b);
    KeptLinesAppend(a, b);
  }

  /** A text of one line gives no row when it is blank, and otherwise that line stripped. */
  lemma NonBlankLinesOfLine(line: string)
    requires '\n' !in line
    ensures NonBlankLines(line) == if AllSpace(line) then [] else [Strip(line)]
  {
    StripKeepsLines(line);
    SplitOnPiece(line, '\n');
    assert StripEach([line]) == [Strip(line)];
    DropEmptySingle(Strip(line));
    StripOfBlank(line);
  }

  /* ---------------------------------------------------------------------------------------- */
  /* Round trip with the one-space, one-line-per-row text format                              */
  /* ---------------------------------------------------------------------------------------- */

  /** The text form of a grid: tokens joined by one space, rows joined by line breaks. */
  function Serialize(g: Grid): string {
    JoinWith(RowTexts(g), '\n')
  }

  /** Each row's tokens joined by one space. */
  function RowTexts(g: Grid): (texts: seq<string>)
    ensures |texts| == |g|
  {
    seq(|g|, i requires 0 <= i < |g| => JoinWith(g[i], ' '))
  }

  /** A grid that its text form can represent: rectangular, no empty row, and every token
      non-empty and free of whitespace. */
  predicate WellFormed(g: Grid) {
    Rectangular(g) &&
    (forall i :: 0 <= i < |g| ==> g[i] != []) &&
    (forall i, j :: 0 <= i < |g| && 0 <= j < |g[i]| ==> g[i][j] != [] && NoSpace(g[i][j]))
  }

  lemma StripOfStripped(s: string)
    requires Stripped(s)
    ensures Strip(s) == s
  {
  }

  lemma {:induction false} JoinStripped(pieces: seq<string>, sep: char)
    requires forall i :: 0 <= i < |pieces| ==> pieces[i] != [] && Stripped(pieces[i])
    ensures Stripped(JoinWith(pieces, sep))
    ensures pieces != [] ==> JoinWith(pieces, sep) != []
    decreases |pieces|
  {
    if |pieces| > 1 {
      JoinStripped(pieces[1..], sep);
      assert pieces[1..][0] == pieces[1];
    }
  }

  lemma {:induction false} SplitOnPiece(p: string, sep: char)
    requires sep !in p
    ensures SplitOn(p, sep) == [p]
    decreases |p|
  {
    if p != [] {
      SplitOnPiece(p[1..], sep);
      assert [p[0]] + p[1..] == p;
    }
  }

  lemma {:induction false} SplitOnCons(p: string, sep: char, t: string)
    requires sep !in p
    ensures SplitOn(p + [sep] + t, sep) == [p] + SplitOn(t, sep)
    decreases |p|
  {
    if p == [] {
      assert p + [sep] + t == [sep] + t;
      assert ([sep] + t)[1..] == t;
    } else {
      SplitOnCons(p[1..], sep, t);
      assert (p + [sep] + t)[1..] == p[1..] + [sep] + t;
      assert [p[0]] + p[1..] == p;
    }
  }

  /** Splitting on `sep` undoes joining with `sep`, for pieces without `sep`. */
  lemma {:induction false} SplitOnJoin(pieces: seq<string>, sep: char)
    requires pieces != []
    requires forall i :: 0 <= i < |pieces| ==> sep !in pieces[i]
    ensures SplitOn(JoinWith(pieces, sep), sep) == pieces
    decreases |pieces|
  {
    if |pieces| == 1 {
      SplitOnPiece(pieces[0], sep);
    } else {
      SplitOnJoin(pieces[1..], sep);
      SplitOnCons(pieces[0], sep, JoinWith(pieces[1..], sep));
      assert [pieces[0]] + pieces[1..] == pieces;
    }
  }

  lemma {:induction false} SplitWhitespaceToken(t: string, s: string)
    requires t != [] && NoSpace(t)
    requires s == [] || IsSpace(s[0])
    ensures SplitWhitespace(t + s) == [t] + SplitWhitespace(s)
    decreases |t|
  {
    assert (t + s)[1..] == t[1..] + s;
    if |t| == 1 {
      assert t == [t[0]];
    } else {
      SplitWhitespaceToken(t[1..], s);
      assert [t[0]] + t[1..] == t;
    }
  }

  /** Splitting on whitespace undoes joining with one space, for non-empty whitespace-free
      tokens. */
  lemma {:induction false} SplitWhitespaceJoin(tokens: seq<string>)
    requires forall i :: 0 <= i < |tokens| ==> tokens[i] != [] && NoSpace(tokens[i])
    ensures SplitWhitespace(JoinWith(tokens, ' ')) == tokens
    decreases |tokens|
  {
    if |tokens| == 1 {
      SplitWhitespaceToken(tokens[0], []);
      assert tokens[0] + [] == tokens[0];
    } else if |tokens| > 1 {
      var rest := JoinWith(tokens[1..], ' ');
      SplitWhitespaceJoin(tokens[1..]);
      SplitWhitespaceToken(tokens[0], [' '] + rest);
      assert tokens[0] + [' '] + rest == tokens[0] + ([' '] + rest);
      assert ([' '] + rest)[1..] == rest;
      assert [tokens[0]] + tokens[1..] == tokens;
    }
  }

  /** A non-empty run of non-whitespace characters stays one whole token. */
  lemma SplitWhitespaceWholeToken(t: string)
    requires t != [] && NoSpace(t)
    ensures SplitWhitespace(t) == [t]
  {
    SplitWhitespaceToken(t, []);
    assert t + [] == t;
  }

  /** Leading whitespace yields no token. */
  lemma {:induction false} SplitWhitespaceSkipsSpace(w: string, b: string)
    requires AllSpace(w)
    ensures SplitWhitespace(w + b) == SplitWhitespace(b)
    decreases |w|
  {
    if w == [] {
      assert w + b == b;
    } else {
      SplitWhitespaceSkipsSpace(w[1..], b);
      assert (w + b)[1..] == w[1..] + b;
    }
  }

  /** Gluing a letter onto the first token commutes with appending further tokens. */
  lemma GlueFirst(c: char, xs: seq<string>, ys: seq<string>)
    requires xs != []
    ensures [[c] + (xs + ys)[0]] + (xs + ys)[1..] == ([[c] + xs[0]] + xs[1..]) + ys
  {
    assert (xs + ys)[0] == xs[0];
    assert (xs + ys)[1..] == xs[1..] + ys;
  }

  /** A letter followed by a letter joins the first token of the rest. */
  lemma SplitWhitespaceGlued(x: string)
    requires |x| > 1 && !IsSpace(x[0]) && !IsSpace(x[1])
    ensures SplitWhitespace(x[1..]) != []
    ensures SplitWhitespace(x) ==
      [[x[0]] + SplitWhitespace(x[1..])[0]] + SplitWhitespace(x[1..])[1..]
  {
    assert x[1..][0] == x[1];
  }

  /** A letter followed by whitespace or by nothing is a token of its own. */
  lemma SplitWhitespaceAlone(x: string)
    requires x != [] && !IsSpace(x[0]) && (|x| == 1 || IsSpace(x[1]))
    ensures SplitWhitespace(x) == [[x[0]]] + SplitWhitespace(x[1..])
  {
  }

  /** A letter in front of a glued letter joins the first token on both sides of the append. */
  lemma {:induction false} SplitWhitespaceAppendGlued(a: string, t: string)
    requires |a| > 1 && !IsSpace(a[0]) && !IsSpace(a[1])
    requires SplitWhitespace(a[1..] + t) == SplitWhitespace(a[1..]) + SplitWhitespace(t)
    ensures SplitWhitespace(a + t) == SplitWhitespace(a) + SplitWhitespace(t)
  {
    var x := a + t;
    assert x[1..] == a[1..] + t && x[0] == a[0] && x[1] == a[1];
    SplitWhitespaceGlued(x);
    SplitWhitespaceGlued(a);
    GlueFirst(a[0], SplitWhitespace(a[1..]), SplitWhitespace(t));
  }

  /** A letter in front of whitespace is a token of its own on both sides of the append. */
  lemma {:induction false} SplitWhitespaceAppendAlone(a: string, t: string)
    requires |a| > 1 && !IsSpace(a[0]) && IsSpace(a[1])
    requires SplitWhitespace(a[1..] + t) == SplitWhitespace(a[1..]) + SplitWhitespace(t)
    ensures SplitWhitespace(a + t) == SplitWhitespace(a) + SplitWhitespace(t)
  {
    var x := a + t;
    assert x[1..] == a[1..] + t && x[0] == a[0] && x[1] == a[1];
    SplitWhitespaceAlone(x);
    SplitWhitespaceAlone(a);
    var ta, tt := SplitWhitespace(a[1..]), SplitWhitespace(t);
    assert [[a[0]]] + (ta + tt) == ([[a[0]]] + ta) + tt;
  }

  /** A one-letter text followed by whitespace is one token before those of the rest. */
  lemma SplitWhitespaceAppendLetter(c: char, t: string)
    requires !IsSpace(c) && t != [] && IsSpace(t[0])
    ensures SplitWhitespace([c] + t) == SplitWhitespace([c]) + SplitWhitespace(t)
  {
    var x := [c] + t;
    assert x[1..] == t && x[1] == t[0];
    SplitWhitespaceAlone(x);
    SplitWhitespaceAlone([c]);
  }

  /** Text that starts with whitespace starts a new token: the tokens of `a + t` are those of
      `a` followed by those of `t`. */
  lemma {:induction false} SplitWhitespaceAppend(a: string, t: string)
    requires t != [] && IsSpace(t[0])
    ensures SplitWhitespace(a + t) == SplitWhitespace(a) + SplitWhitespace(t)
    decreases |a|
  {
    if a == [] {
      assert a + t == t;
    } else {
      SplitWhitespaceAppend(a[1..], t);
      if IsSpace(a[0]) {
        assert (a + t)[0] == a[0] && (a + t)[1..] == a[1..] + t;
      } else if |a| > 1 && !IsSpace(a[1]) {
        SplitWhitespaceAppendGlued(a, t);
      } else if |a| > 1 {
        SplitWhitespaceAppendAlone(a, t);
      } else {
        assert a == [a[0]];
        SplitWhitespaceAppendLetter(a[0], t);
      }
    }
  }

  /** Any non-empty run of whitespace is one separator: the tokens of `a + w + b` are those of
      `a` followed by those of `b`, with no token spanning the run and no empty token for it. */
  lemma SplitWhitespaceSeparates(a: string, w: string, b: string)
    requires w != [] && AllSpace(w)
    ensures SplitWhitespace(a + w + b) == SplitWhitespace(a) + SplitWhitespace(b)
  {
    assert a + w + b == a + (w + b);
    SplitWhitespaceAppend(a, w + b);
    SplitWhitespaceSkipsSpace(w, b);
  }

  lemma {:induction false} DropEmptyOfNonEmpty(xs: seq<string>)
    requires forall i :: 0 <= i < |xs| ==> xs[i] != [] && Stripped(xs[i])
    ensures DropEmpty(xs) == xs
    decreases |xs|
  {
    if xs != [] {
      DropEmptyOfNonEmpty(xs[1..]);
      assert [xs[0]] + xs[1..] == xs;
    }
  }

  lemma StripEachOfStripped(lines: seq<string>)
    requires forall i :: 0 <= i < |lines| ==> Stripped(lines[i])
    ensures StripEach(lines) == lines
  {
    forall i | 0 <= i < |lines| ensures Strip(lines[i]) == lines[i] {
      StripOfStripped(lines[i]);
    }
  }

  /** A row's text is a non-empty stripped line without a line break. */
  lemma RowText(row: seq<Token>)
    requires row != []
    requires forall j :: 0 <= j < |row| ==> row[j] != [] && NoSpace(row[j])
    ensures var t := JoinWith(row, ' '); t != [] && Stripped(t) && '\n' !in t
  {
    forall j | 0 <= j < |row| ensures row[j] != [] && Stripped(row[j]) {
    }
    JoinStripped(row, ' ');
    NoLineBreak(row);
  }

  lemma {:induction false} NoLineBreak(row: seq<Token>)
    requires forall j :: 0 <= j < |row| ==> NoSpace(row[j])
    ensures '\n' !in JoinWith(row, ' ')
    decreases |row|
  {
    if |row| > 1 {
      NoLineBreak(row[1..]);
    }
  }

  lemma RowTextsLines(g: Grid)
    requires WellFormed(g)
    ensures forall i :: 0 <= i < |g| ==>
      RowTexts(g)[i] != [] && Stripped(RowTexts(g)[i]) && '\n' !in RowTexts(g)[i]
  {
    forall i | 0 <= i < |g|
      ensures RowTexts(g)[i] != [] && Stripped(RowTexts(g)[i]) && '\n' !in RowTexts(g)[i]
    {
      RowText(g[i]);
    }
  }

  lemma NonBlankLinesOfSerialized(g: Grid)
    requires WellFormed(g) && g != []
    ensures NonBlankLines(Serialize(g)) == RowTexts(g)
  {
    var rowTexts := RowTexts(g);
    RowTextsLines(g);
    JoinStripped(rowTexts, '\n');
    StripOfStripped(Serialize(g));
    SplitOnJoin(rowTexts, '\n');
    StripEachOfStripped(rowTexts);
    DropEmptyOfNonEmpty(rowTexts);
  }

  lemma SplitEachOfRowTexts(g: Grid)
    requires WellFormed(g)
    ensures forall i :: 0 <= i < |g| ==> RowTexts(g)[i] != [] && Stripped(RowTexts(g)[i])
    ensures SplitEach(RowTexts(g)) == g
  {
    RowTextsLines(g);
    forall i | 0 <= i < |g| ensures SplitWhitespace(RowTexts(g)[i]) == g[i] {
      SplitWhitespaceJoin(g[i]);
    }
  }

  /** Round trip: parsing the text form of a well-formed grid gives that grid back. */
  lemma ParseSerialized(g: Grid)
    requires WellFormed(g)
    ensures StringToGrid(Serialize(g)) == Ok(g)
  {
    if g == [] {
      assert Serialize(g) == [];
      assert Strip([]) == [];
      assert SplitOn([], '\n') == [[]];
      assert TokenRows(Serialize(g)) == [];
    } else {
      NonBlankLinesOfSerialized(g);
      SplitEachOfRowTexts(g);
      assert TokenRows(Serialize(g)) == g;
    }
  }

  /** A row of five one-letter tokens is written as the letters separated by single spaces. */
  lemma FiveLetterRow(a: char, b: char, c: char, d: char, e: char)
    ensures JoinWith([[a], [b], [c], [d], [e]], ' ') == [a, ' ', b, ' ', c, ' ', d, ' ', e]
  {
    var row: seq<Token> := [[a], [b], [c], [d], [e]];
    assert JoinWith(row[4..], ' ') == [e];
    assert JoinWith(row[3..], ' ') == [d, ' ', e];
    assert JoinWith(row[2..], ' ') == [c, ' ', d, ' ', e];
    assert JoinWith(row[1..], ' ') == [b, ' ', c, ' ', d, ' ', e];
  }

  lemma DocumentedGridWellFormed()
    ensures WellFormed([["H", "E", "L", "L", "O"], ["W", "O", "R", "L", "D"], ["H", "E", "Y", "H", "I"]])
  {
  }

  /** Three lines joined by line breaks. */
  lemma ThreeLines(x: string, y: string, z: string)
    ensures JoinWith([x, y, z], '\n') == x + "\n" + y + "\n" + z
  {
    var lines := [x, y, z];
    assert lines[1..] == [y, z] && lines[1..][1..] == [z];
    assert JoinWith([z], '\n') == z;
    assert JoinWith([y, z], '\n') == y + "\n" + z;
  }

  /** The text of the grid of the `string_to_grid` documentation. */
  lemma DocumentedRows(g: Grid)
    requires g == [["H", "E", "L", "L", "O"], ["W", "O", "R", "L", "D"], ["H", "E", "Y", "H", "I"]]
    ensures RowTexts(g) == ["H E L L O", "W O R L D", "H E Y H I"]
  {
    FiveLetterRow('H', 'E', 'L', 'L', 'O');
    FiveLetterRow('W', 'O', 'R', 'L', 'D');
    FiveLetterRow('H', 'E', 'Y', 'H', 'I');
  }

  lemma DocumentedText(g: Grid)
    requires g == [["H", "E", "L", "L", "O"], ["W", "O", "R", "L", "D"], ["H", "E", "Y", "H", "I"]]
    ensures Serialize(g) == "H E L L O\nW O R L D\nH E Y H I"
  {
    DocumentedRows(g);
    ThreeLines("H E L L O", "W O R L D", "H E Y H I");
  }

  /** The example grid of the `string_to_grid` documentation parses to its rows of letters. */
  lemma DocumentedExample()
    ensures StringToGrid("H E L L O\nW O R L D\nH E Y H I") ==
      Ok([["H", "E", "L", "L", "O"], ["W", "O", "R", "L", "D"], ["H", "E", "Y", "H", "I"]])
  {
    var g: Grid := [["H", "E", "L", "L", "O"], ["W", "O", "R", "L", "D"], ["H", "E", "Y", "H", "I"]];
    DocumentedGridWellFormed();
    DocumentedText(g);
    ParseSerialized(g);
  }

  /* ---------------------------------------------------------------------------------------- */
  /* No letter is lost or invented                                                            */
  /* ---------------------------------------------------------------------------------------- */

  /** The non-whitespace characters of the lines, line after line. */
  function Letters(lines: seq<string>): string
    decreases |lines|
  {
    if lines == [] then [] else RemoveSpaces(lines[0]) + Letters(lines[1..])
  }

  /** All tokens of the grid, concatenated row by row. */
  function GridLetters(g: Grid): string
    decreases |g|
  {
    if g == [] then [] else Concat(g[0]) + GridLetters(g[1..])
  }

  lemma {:induction false} RemoveSpacesAppend(a: string, b: string)
    ensures RemoveSpaces(a + b) == RemoveSpaces(a) + RemoveSpaces(b)
    decreases |a|
  {
    if a != [] {
      RemoveSpacesAppend(a[1..], b);
      assert (a + b)[1..] == a[1..] + b;
    } else {
      assert a + b == b;
    }
  }

  lemma {:induction false} RemoveSpacesOfBlank(s: string)
    requires AllSpace(s)
    ensures RemoveSpaces(s) == []
    decreases |s|
  {
    if s != [] {
      RemoveSpacesOfBlank(s[1..]);
    }
  }

  lemma {:induction false} SplitWhitespaceLetters(s: string)
    ensures Concat(SplitWhitespace(s)) == RemoveSpaces(s)
    decreases |s|
  {
    if s != [] {
      SplitWhitespaceLetters(s[1..]);
      var rest := SplitWhitespace(s[1..]);
      if !IsSpace(s[0]) && |s| > 1 && !IsSpace(s[1]) {
        assert Concat([[s[0]] + rest[0]] + rest[1..]) == [s[0]] + rest[0] + Concat(rest[1..]);
        assert Concat(rest) == rest[0] + Concat(rest[1..]);
      } else if !IsSpace(s[0]) {
        assert Concat([[s[0]]] + rest) == [s[0]] + Concat(rest);
      }
    }
  }

  /** Whitespace around `m` adds no letters. */
  lemma RemoveSpacesFrame(lead: string, m: string, trail: string)
    requires AllSpace(lead) && AllSpace(trail)
    ensures RemoveSpaces(lead + m + trail) == RemoveSpaces(m)
  {
    RemoveSpacesAppend(lead + m, trail);
    RemoveSpacesAppend(lead, m);
    RemoveSpacesOfBlank(lead);
    RemoveSpacesOfBlank(trail);
  }

  lemma StripLetters(s: string)
    ensures RemoveSpaces(Strip(s)) == RemoveSpaces(s)
  {
    StripKeepsMiddle(s);
    var k := |s| - |TrimStart(s)|;
    var m := Strip(s);
    var lead, trail := s[..k], s[k + |m|..];
    assert s == lead + m + trail;
    RemoveSpacesFrame(lead, m, trail);
  }

  lemma {:induction false} JoinLetters(lines: seq<string>, sep: char)
    requires IsSpace(sep)
    ensures RemoveSpaces(JoinWith(lines, sep)) == Letters(lines)
    decreases |lines|
  {
    if |lines| == 1 {
      assert Letters(lines) == RemoveSpaces(lines[0]) + Letters([]);
    } else if |lines| > 1 {
      JoinLetters(lines[1..], sep);
      RemoveSpacesAppend(lines[0] + [sep], JoinWith(lines[1..], sep));
      RemoveSpacesAppend(lines[0], [sep]);
      assert RemoveSpaces([sep]) == [];
    }
  }

  lemma {:induction false} StripEachLetters(lines: seq<string>)
    ensures Letters(StripEach(lines)) == Letters(lines)
    decreases |lines|
  {
    if lines != [] {
      StripEachLetters(lines[1..]);
      StripLetters(lines[0]);
      var stripped := StripEach(lines);
      assert stripped[0] == Strip(lines[0]);
      assert stripped[1..] == StripEach(lines[1..]);
      assert Letters(stripped) == RemoveSpaces(stripped[0]) + Letters(stripped[1..]);
    }
  }

  lemma {:induction false} DropEmptyLetters(xs: seq<string>)
    requires forall i :: 0 <= i < |xs| ==> Stripped(xs[i])
    ensures Letters(DropEmpty(xs)) == Letters(xs)
    decreases |xs|
  {
    if xs != [] {
      DropEmptyLetters(xs[1..]);
      if xs[0] != [] {
        var rest := DropEmpty(xs[1..]);
        assert DropEmpty(xs) == [xs[0]] + rest;
        assert ([xs[0]] + rest)[1..] == rest;
        assert Letters([xs[0]] + rest) == RemoveSpaces(xs[0]) + Letters(rest);
      } else {
        assert DropEmpty(xs) == [] + DropEmpty(xs[1..]) == DropEmpty(xs[1..]);
        assert Letters(xs) == RemoveSpaces(xs[0]) + Letters(xs[1..]) == Letters(xs[1..]);
      }
    }
  }

  lemma {:induction false} SplitEachLetters(rows: seq<string>)
    requires forall i :: 0 <= i < |rows| ==> rows[i] != [] && Stripped(rows[i])
    ensures GridLetters(SplitEach(rows)) == Letters(rows)
    decreases |rows|
  {
    if rows != [] {
      SplitEachLetters(rows[1..]);
      SplitWhitespaceLetters(rows[0]);
      assert SplitEach(rows)[1..] == SplitEach(rows[1..]);
    }
  }

  /** The tokens of the parsed grid, read row by row, are exactly the non-whitespace
      characters of the text, in order: parsing drops whitespace and nothing else. */
  lemma ParsingKeepsEveryLetter(text: string)
    ensures GridLetters(TokenRows(text)) == RemoveSpaces(text)
    ensures StringToGrid(text).Ok? ==> GridLetters(StringToGrid(text).value) == RemoveSpaces(text)
  {
    var stripped := Strip(text);
    var lines := SplitOn(stripped, '\n');
    SplitEachLetters(NonBlankLines(text));
    DropEmptyLetters(StripEach(lines));
    StripEachLetters(lines);
    SplitOnJoinsBack(stripped, '\n');
    JoinLetters(lines, '\n');
    StripLetters(text);
  }
}
