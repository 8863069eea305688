/**
 * The `git diff --unified=0` reader of lintlens/git.py: hunk headers, the
 * `start,count` ranges inside them, the `---`/`+++` file name lines, and the
 * scanning loop that groups hunks per file section.
 *
 * A hunk header is the hunk-range line of the unified format ("Detailed Description
 * of Unified Format" in the GNU diffutils manual): `@@ -a[,b] +c[,d] @@ text`, where
 * an omitted count means 1.
 */
module Git {
  import opened Wrappers
  import opened Text

  /** A `(start, count)` pair as `parse_file_line_numbers` returns it. */
  datatype LineRange = LineRange(start: int, count: int)

  /** `(line_from, line_to, code)`: old side, new side and the text after the closing `@@`. */
  datatype Hunk = Hunk(changeFrom: LineRange, changeTo: LineRange, text: string)

  /** `((a_filename, b_filename), hunks)`; a name is `None` while no `---`/`+++` line was seen. */
  datatype FileEntry = FileEntry(srcName: Option<string>, dstName: Option<string>, hunks: seq<Hunk>)

  datatype DiffError =
    | MalformedHunkHeader(line: string)   // the header regex does not match
    | BadLineNumber(field: string)        // `int()` rejects a start or a count
    | HunkOutsideFile(line: string)       // `@@` before any `diff --git`: `hunks` is still None

  // ---------------------------------------------------------------- parse_file_line_numbers

  /**
   * `parse_file_line_numbers`: drop the first character (the `-`/`+` sign), split the
   * rest at commas, read the start from the first piece and the count from the second
   * (1 when there is no comma). Pieces after the second are ignored.
   */
  function ParseFileLineNumbers(formatted: string): (r: Result<LineRange, DiffError>)
    ensures r.Err? ==> r.error == BadLineNumber(formatted)
    ensures r.Ok? && ',' !in formatted ==> r.value.count == 1
  {
    SplitWithoutSep(Drop(formatted, 1), ',');
    DropKeepsOut(formatted, 1, ',');
    var parts := Split(Drop(formatted, 1), ',');
    match ParseInt(parts[0])
    case None => Err(BadLineNumber(formatted))
    case Some(start) =>
      if |parts| > 1 then
        match ParseInt(parts[1])
        case None => Err(BadLineNumber(formatted))
        case Some(count) => Ok(LineRange(start, count))
      else Ok(LineRange(start, 1))
  }

  /** Formatting `S,C` behind any sign character and parsing gives `(S, C)` back. */
  lemma LineNumbersRoundTrip(sign: char, start: nat, count: nat)
    ensures ParseFileLineNumbers(FormatRange(sign, start, count)) == Ok(LineRange(start, count))
  {
    var f := FormatRange(sign, start, count);
    assert Drop(f, 1) == Join([NatToString(start), NatToString(count)], ',');
    DigitsHaveNoComma(NatToString(start));
    DigitsHaveNoComma(NatToString(count));
    JoinThenSplit([NatToString(start), NatToString(count)], ',');
    ParseIntRoundTrip(start);
    ParseIntRoundTrip(count);
  }

  /** With no `,C` part the count defaults to 1. */
  lemma LineNumbersDefaultCount(sign: char, start: nat)
    ensures ParseFileLineNumbers([sign] + NatToString(start)) == Ok(LineRange(start, 1))
  {
    var f := [sign] + NatToString(start);
    assert Drop(f, 1) == NatToString(start);
    DigitsHaveNoComma(NatToString(start));
    JoinThenSplit([NatToString(start)], ',');
    ParseIntRoundTrip(start);
  }

  lemma DigitsHaveNoComma(s: string)
    requires AllDigits(s)
    ensures ',' !in s
  {
  }

  /** The examples of `parse_file_line_numbers`'s docstring without a count. */
  lemma LineNumbersExamplesDefault()
    ensures ParseFileLineNumbers("-0") == Ok(LineRange(0, 1))
    ensures ParseFileLineNumbers("+0") == Ok(LineRange(0, 1))
  {
    assert NatToString(0) == "0";
    assert ['-'] + NatToString(0) == "-0";
    LineNumbersDefaultCount('-', 0);
    assert ['+'] + NatToString(0) == "+0";
    LineNumbersDefaultCount('+', 0);
  }

  /** The examples of `parse_file_line_numbers`'s docstring with a count. */
  lemma LineNumbersExampleEmpty()
    ensures ParseFileLineNumbers("+0,0") == Ok(LineRange(0, 0))
  {
    assert NatToString(0) == "0";
    assert ['+'] + NatToString(0) + "," + NatToString(0) == "+0,0";
    LineNumbersRoundTrip('+', 0, 0);
  }

  lemma LineNumbersExampleOne()
    ensures ParseFileLineNumbers("+0,1") == Ok(LineRange(0, 1))
  {
    assert NatToString(0) == "0" && NatToString(1) == "1";
    assert ['+'] + NatToString(0) + "," + NatToString(1) == "+0,1";
    LineNumbersRoundTrip('+', 0, 1);
  }

  /** `int()` skips whitespace after the sign, so a tab may sit inside a range field. */
  lemma LineNumbersExampleSpacedSign()
    ensures ParseFileLineNumbers("+-\t3") == Ok(LineRange(-3, 1))
  {
    assert NatToString(3) == "3";
    assert Drop("+-\t3", 1) == "-" + "\t" + NatToString(3);
    ParseIntSpacedSign("\t", 3);
    SplitWithoutSep("-\t3", ',');
  }

  lemma LineNumbersExampleFive()
    ensures ParseFileLineNumbers("+0,5") == Ok(LineRange(0, 5))
  {
    assert NatToString(0) == "0" && NatToString(5) == "5";
    assert ['+'] + NatToString(0) + "," + NatToString(5) == "+0,5";
    LineNumbersRoundTrip('+', 0, 5);
  }

  lemma LineNumbersExampleWide()
    ensures ParseFileLineNumbers("+123,5") == Ok(LineRange(123, 5))
  {
    assert NatToString(123) == "123" by {
      assert NatToString(1) == "1";
      assert NatToString(12) == "12";
    }
    assert NatToString(5) == "5";
    assert ['+'] + NatToString(123) + "," + NatToString(5) == "+123,5";
    LineNumbersRoundTrip('+', 123, 5);
  }

  // ---------------------------------------------------------------- parse_hunk

  /** `[^@ ]`: a character allowed inside a range field of a hunk header. */
  predicate IsFieldChar(c: char) {
    c != '@' && c != ' '
  }

  predicate IsField(s: string) {
    s != [] && forall i :: 0 <= i < |s| ==> IsFieldChar(s[i])
  }

  /** The longest prefix of `s` made of field characters (`[^@ ]*`). */
  function TakeField(s: string): (r: string)
    ensures |r| <= |s|
  {
    if s == [] || !IsFieldChar(s[0]) then [] else [s[0]] + TakeField(s[1..])
  }

  lemma {:induction false} TakeFieldOf(field: string, rest: string)
    requires forall i :: 0 <= i < |field| ==> IsFieldChar(field[i])
    requires rest == [] || !IsFieldChar(rest[0])
    ensures TakeField(field + rest) == field
  {
    if field == [] {
      assert field + rest == rest;
    } else {
      assert (field + rest)[1..] == field[1..] + rest;
      TakeFieldOf(field[1..], rest);
    }
  }

  /**
   * `(.*)$` without MULTILINE or DOTALL: the text may not hold a line break, except
   * one final line break, which `$` accepts before and which is not captured.
   */
  function RestOfLine(t: string): (r: Option<string>)
    ensures r.Some? ==> '\n' !in r.value && (r.value == t || r.value + "\n" == t)
    ensures '\n' !in t ==> r == Some(t)
  {
    if '\n' !in t then Some(t)
    else if t[|t| - 1] == '\n' && '\n' !in t[..|t| - 1] then Some(t[..|t| - 1])
    else None
  }

  /** The three groups of the hunk header pattern. */
  datatype HeaderGroups = HeaderGroups(lineFrom: string, lineTo: string, code: string)

  /**
   * `re.match(r"^@@ ([^@ ]+) ([^@ ]+) @@ ?(.*)$", line)`. Neither field can hold a space,
   * so each is the longest run of field characters and the match is unique.
   */
  function MatchHunkHeader(line: string): (r: Option<HeaderGroups>)
    ensures r.Some? ==> "@@ " <= line && '\n' !in r.value.code
  {
    if !("@@ " <= line) then None else MatchRanges(line[3..])
  }

  /** `([^@ ]+) ([^@ ]+) @@ ?(.*)$`, the pattern after its leading `@@ `. */
  function MatchRanges(rest: string): (r: Option<HeaderGroups>)
    ensures r.Some? ==> '\n' !in r.value.code
  {
    var lineFrom := TakeField(rest);
    if lineFrom == [] || |lineFrom| == |rest| || rest[|lineFrom|] != ' ' then None
    else
      match MatchNewRange(rest[|lineFrom| + 1..])
      case None => None
      case Some((lineTo, code)) => Some(HeaderGroups(lineFrom, lineTo, code))
  }

  /** `([^@ ]+) @@ ?(.*)$`: the new-side field and the trailing text. */
  function MatchNewRange(rest: string): (r: Option<(string, string)>)
    ensures r.Some? ==> '\n' !in r.value.1
  {
    var lineTo := TakeField(rest);
    if lineTo == [] || !(" @@" <= rest[|lineTo|..]) then None
    else
      var tail := rest[|lineTo| + 3..];
      match RestOfLine(if " " <= tail then tail[1..] else tail)
      case None => None
      case Some(code) => Some((lineTo, code))
  }

  /**
   * `parse_hunk`: match the header pattern and parse both ranges. A line the pattern
   * rejects is `MalformedHunkHeader` (`match` gives None and `.groups()` raises); a
   * range `int()` rejects is `BadLineNumber`.
   */
  function ParseHunk(line: string): (r: Result<Hunk, DiffError>)
    ensures r.Ok? ==> "@@ " <= line && '\n' !in r.value.text
  {
    match MatchHunkHeader(line)
    case None => Err(MalformedHunkHeader(line))
    case Some(groups) =>
      match ParseFileLineNumbers(groups.lineFrom)
      case Err(e) => Err(e)
      case Ok(lineFrom) =>
        match ParseFileLineNumbers(groups.lineTo)
        case Err(e) => Err(e)
        case Ok(lineTo) => Ok(Hunk(lineFrom, lineTo, groups.code))
  }

  /**
   * Every line of the header pattern is matched: the groups are the two fields and
   * what follows `@@`, less one optional space.
   */
  lemma {:induction false} MatchHunkHeaderFields(lineFrom: string, lineTo: string, after: string)
    requires IsField(lineFrom) && IsField(lineTo) && '\n' !in after
    ensures MatchHunkHeader("@@ " + lineFrom + " " + lineTo + " @@" + after)
            == Some(HeaderGroups(lineFrom, lineTo, if " " <= after then after[1..] else after))
  {
    MatchHunkHeaderOf(lineFrom, lineTo, after);
    var text := if " " <= after then after[1..] else after;
    assert '\n' !in text by {
      if " " <= after {
        assert forall i :: 0 <= i < |text| ==> text[i] == after[i + 1];
      }
    }
  }

  /**
   * On `@@ F T @@X` the pattern matches exactly when `X`, less one optional leading
   * space, is a rest of line; the groups are then F, T and that rest.
   */
  lemma MatchHunkHeaderOf(lineFrom: string, lineTo: string, after: string)
    requires IsField(lineFrom) && IsField(lineTo)
    ensures MatchHunkHeader("@@ " + lineFrom + " " + lineTo + " @@" + after)
            == match RestOfLine(if " " <= after then after[1..] else after)
               case None => None
               case Some(code) => Some(HeaderGroups(lineFrom, lineTo, code))
  {
    MatchNewRangeFields(lineTo, after);
    MatchRangesFields(lineFrom, lineTo + " @@" + after);
    HeaderAfterPrefix(lineFrom, lineTo, after);
  }

  lemma HeaderAfterPrefix(lineFrom: string, lineTo: string, after: string)
    ensures "@@ " <= "@@ " + lineFrom + " " + lineTo + " @@" + after
    ensures ("@@ " + lineFrom + " " + lineTo + " @@" + after)[3..] == lineFrom + " " + (lineTo + " @@" + after)
  {
  }

  lemma MatchNewRangeFields(lineTo: string, after: string)
    requires IsField(lineTo)
    ensures MatchNewRange(lineTo + " @@" + after)
            == match RestOfLine(if " " <= after then after[1..] else after)
               case None => None
               case Some(code) => Some((lineTo, code))
  {
    var rest := lineTo + " @@" + after;
    assert rest == lineTo + (" @@" + after);
    TakeFieldOf(lineTo, " @@" + after);
    assert rest[|lineTo|..] == " @@" + after;
    assert rest[|lineTo| + 3..] == after;
  }

  lemma MatchRangesFields(lineFrom: string, rest: string)
    requires IsField(lineFrom)
    ensures MatchRanges(lineFrom + " " + rest) ==
      match MatchNewRange(rest)
      case None => None
      case Some((lineTo, code)) => Some(HeaderGroups(lineFrom, lineTo, code))
  {
    var whole := lineFrom + " " + rest;
    assert whole == lineFrom + (" " + rest);
    TakeFieldOf(lineFrom, " " + rest);
    assert whole[|lineFrom|] == ' ';
    assert whole[|lineFrom| + 1..] == rest;
  }

  /** Hence `parse_hunk` on such a line parses the two fields as ranges. */
  lemma ParseHunkFields(lineFrom: string, lineTo: string, after: string)
    requires IsField(lineFrom) && IsField(lineTo) && '\n' !in after
    requires ParseFileLineNumbers(lineFrom).Ok? && ParseFileLineNumbers(lineTo).Ok?
    ensures ParseHunk("@@ " + lineFrom + " " + lineTo + " @@" + after)
            == Ok(Hunk(ParseFileLineNumbers(lineFrom).value, ParseFileLineNumbers(lineTo).value,
                       if " " <= after then after[1..] else after))
  {
    MatchHunkHeaderFields(lineFrom, lineTo, after);
  }

  /** `-S,C` or `+S,C`, the range field git writes with an explicit count. */
  function FormatRange(sign: char, start: nat, count: nat): string {
    [sign] + NatToString(start) + "," + NatToString(count)
  }

  /** Formatting a hunk with explicit counts and parsing it gives the hunk back. */
  lemma ParseHunkRoundTrip(oldStart: nat, oldCount: nat, newStart: nat, newCount: nat, text: string)
    requires '\n' !in text
    ensures ParseHunk("@@ " + FormatRange('-', oldStart, oldCount) + " "
                      + FormatRange('+', newStart, newCount) + " @@" + (" " + text))
            == Ok(Hunk(LineRange(oldStart, oldCount), LineRange(newStart, newCount), text))
  {
    RangeIsField('-', oldStart, oldCount);
    RangeIsField('+', newStart, newCount);
    LineNumbersRoundTrip('-', oldStart, oldCount);
    LineNumbersRoundTrip('+', newStart, newCount);
    ParseHunkFields(FormatRange('-', oldStart, oldCount), FormatRange('+', newStart, newCount), " " + text);
    assert (" " + text)[1..] == text;
  }

  lemma RangeIsField(sign: char, start: nat, count: nat)
    requires sign == '-' || sign == '+'
    ensures IsField(FormatRange(sign, start, count))
  {
    var a, b := NatToString(start), NatToString(count);
    var f := FormatRange(sign, start, count);
    forall i | 0 <= i < |f| ensures IsFieldChar(f[i]) {
      if 1 <= i < 1 + |a| {
        assert f[i] == a[i - 1] && IsDigit(a[i - 1]);
      } else if i > 1 + |a| {
        assert f[i] == b[i - 2 - |a|] && IsDigit(b[i - 2 - |a|]);
      }
    }
  }

  /** A line that does not start with `@@ ` is a fatal error. */
  lemma ParseHunkRejectsPrefix(line: string)
    requires !("@@ " <= line)
    ensures ParseHunk(line) == Err(MalformedHunkHeader(line))
  {
  }

  /**
   * The lines `^@@ ([^@ ]+) ([^@ ]+) @@ ?(.*)$` matches, described by their shape: two
   * fields between `@@ ` and ` @@`, then at most one space and the rest of the line.
   */
  ghost predicate IsHunkHeader(line: string) {
    exists lineFrom, lineTo, after :: HeaderOf(line, lineFrom, lineTo, after)
  }

  /** `line` is `@@ lineFrom lineTo @@after`, with two fields and a matching tail. */
  predicate HeaderOf(line: string, lineFrom: string, lineTo: string, after: string) {
    && line == "@@ " + lineFrom + " " + lineTo + " @@" + after
    && IsField(lineFrom) && IsField(lineTo)
    && RestOfLine(if " " <= after then after[1..] else after).Some?
  }

  /** `TakeField` is the longest prefix of field characters. */
  lemma {:induction false} TakeFieldSpec(s: string)
    ensures TakeField(s) <= s
    ensures forall i :: 0 <= i < |TakeField(s)| ==> IsFieldChar(s[i])
    ensures |TakeField(s)| == |s| || !IsFieldChar(s[|TakeField(s)|])
  {
    if s != [] && IsFieldChar(s[0]) {
      TakeFieldSpec(s[1..]);
    }
  }

  lemma MatchNewRangeShape(rest: string)
    requires MatchNewRange(rest).Some?
    ensures var (lineTo, code) := MatchNewRange(rest).value;
      && IsField(lineTo) && |lineTo| + 3 <= |rest|
      && rest == lineTo + " @@" + rest[|lineTo| + 3..]
      && var after := rest[|lineTo| + 3..];
         RestOfLine(if " " <= after then after[1..] else after) == Some(code)
  {
    TakeFieldSpec(rest);
    FieldThenClose(rest, TakeField(rest));
  }

  lemma FieldThenClose(rest: string, field: string)
    requires field <= rest && |field| + 3 <= |rest| && " @@" <= rest[|field|..]
    ensures rest == field + " @@" + rest[|field| + 3..]
  {
    assert rest == rest[..|field|] + rest[|field|..|field| + 3] + rest[|field| + 3..];
  }

  lemma MatchRangesShape(rest: string)
    requires MatchRanges(rest).Some?
    ensures var g := MatchRanges(rest).value;
      && IsField(g.lineFrom) && |g.lineFrom| + 1 <= |rest|
      && rest == g.lineFrom + " " + rest[|g.lineFrom| + 1..]
      && MatchNewRange(rest[|g.lineFrom| + 1..]) == Some((g.lineTo, g.code))
  {
    TakeFieldSpec(rest);
    FieldThenSpace(rest, TakeField(rest));
  }

  lemma FieldThenSpace(rest: string, field: string)
    requires field <= rest && |field| < |rest| && rest[|field|] == ' '
    ensures rest == field + " " + rest[|field| + 1..]
  {
    assert rest == rest[..|field|] + [rest[|field|]] + rest[|field| + 1..];
  }

  /** A line the pattern matches has the header's shape, and the groups are its parts. */
  lemma MatchHunkHeaderShape(line: string)
    requires MatchHunkHeader(line).Some?
    ensures var g := MatchHunkHeader(line).value;
      && IsField(g.lineFrom) && IsField(g.lineTo)
      && |g.lineFrom| + |g.lineTo| + 7 <= |line|
      && var after := line[|g.lineFrom| + |g.lineTo| + 7..];
         && line == "@@ " + g.lineFrom + " " + g.lineTo + " @@" + after
         && RestOfLine(if " " <= after then after[1..] else after) == Some(g.code)
  {
    var g := MatchHunkHeader(line).value;
    var rest := line[3..];
    PrefixThenRest(line, "@@ ");
    MatchRangesShape(rest);
    var rest' := rest[|g.lineFrom| + 1..];
    MatchNewRangeShape(rest');
    HeaderParts(line, rest, rest', g.lineFrom, g.lineTo, rest'[|g.lineTo| + 3..]);
  }

  lemma PrefixThenRest(s: string, prefix: string)
    requires prefix <= s
    ensures s == prefix + s[|prefix|..]
  {
  }

  /** The parts of a line cut after `@@ `, after the first field and a space, and after the second field and ` @@`. */
  lemma HeaderParts(line: string, rest: string, rest': string, lineFrom: string, lineTo: string, after: string)
    requires line == "@@ " + rest && rest == lineFrom + " " + rest' && rest' == lineTo + " @@" + after
    ensures |lineFrom| + |lineTo| + 7 <= |line| && after == line[|lineFrom| + |lineTo| + 7..]
    ensures line == "@@ " + lineFrom + " " + lineTo + " @@" + after
  {
    var head := "@@ " + lineFrom + " " + lineTo + " @@";
    assert line == head + after;
    assert |head| == |lineFrom| + |lineTo| + 7;
  }

  /** The header pattern matches exactly the lines of the header's shape. */
  lemma MatchHunkHeaderIff(line: string)
    ensures MatchHunkHeader(line).Some? <==> IsHunkHeader(line)
  {
    if MatchHunkHeader(line).Some? {
      MatchIsHeader(line);
    }
    if IsHunkHeader(line) {
      HeaderIsMatched(line);
    }
  }

  lemma MatchIsHeader(line: string)
    requires MatchHunkHeader(line).Some?
    ensures IsHunkHeader(line)
  {
    MatchHunkHeaderShape(line);
    var g := MatchHunkHeader(line).value;
    HeaderWitness(line, g.lineFrom, g.lineTo, line[|g.lineFrom| + |g.lineTo| + 7..]);
  }

  lemma HeaderWitness(line: string, lineFrom: string, lineTo: string, after: string)
    requires line == "@@ " + lineFrom + " " + lineTo + " @@" + after
    requires IsField(lineFrom) && IsField(lineTo)
    requires RestOfLine(if " " <= after then after[1..] else after).Some?
    ensures IsHunkHeader(line)
  {
    assert HeaderOf(line, lineFrom, lineTo, after);
  }

  lemma HeaderIsMatched(line: string)
    requires IsHunkHeader(line)
    ensures MatchHunkHeader(line).Some?
  {
    var lineFrom, lineTo, after :| HeaderOf(line, lineFrom, lineTo, after);
    MatchHunkHeaderOf(lineFrom, lineTo, after);
  }

  /** `parse_hunk` raises on the header exactly when the line is not of the header's shape. */
  lemma ParseHunkMalformed(line: string)
    ensures ParseHunk(line) == Err(MalformedHunkHeader(line)) <==> !IsHunkHeader(line)
  {
    MatchHunkHeaderIff(line);
    ParseHunkNoMatch(line);
  }

  lemma ParseHunkNoMatch(line: string)
    ensures ParseHunk(line) == Err(MalformedHunkHeader(line)) <==> MatchHunkHeader(line).None?
  {
    if MatchHunkHeader(line).Some? {
      var g := MatchHunkHeader(line).value;
      var lineFrom, lineTo := ParseFileLineNumbers(g.lineFrom), ParseFileLineNumbers(g.lineTo);
      assert lineFrom.Err? ==> lineFrom.error.BadLineNumber?;
      assert lineTo.Err? ==> lineTo.error.BadLineNumber?;
    }
  }

  /** `-0` and `+1`, the ranges of two examples of `parse_hunk`'s docstring. */
  lemma DefaultRangeExamples()
    ensures ParseFileLineNumbers("-0") == Ok(LineRange(0, 1))
    ensures ParseFileLineNumbers("+1") == Ok(LineRange(1, 1))
  {
    assert NatToString(0) == "0" && NatToString(1) == "1";
    assert ['-'] + NatToString(0) == "-0";
    assert ['+'] + NatToString(1) == "+1";
    LineNumbersDefaultCount('-', 0);
    LineNumbersDefaultCount('+', 1);
  }

  /** The first example of `parse_hunk`'s docstring: omitted counts are 1. */
  lemma ParseHunkExampleDefaults()
    ensures ParseHunk("@@ -0 +1 @@ Foo bar") == Ok(Hunk(LineRange(0, 1), LineRange(1, 1), "Foo bar"))
  {
    DefaultRangeExamples();
    ExampleDefaultsParts();
    ParseHunkFields("-0", "+1", " Foo bar");
  }

  lemma ExampleDefaultsParts()
    ensures "@@ -0 +1 @@ Foo bar" == "@@ " + "-0" + " " + "+1" + " @@" + " Foo bar"
  {
  }

  lemma WideRangeExamples()
    ensures ParseFileLineNumbers("-987") == Ok(LineRange(987, 1))
    ensures ParseFileLineNumbers("+99999") == Ok(LineRange(99999, 1))
  {
    assert NatToString(987) == "987" by {
      assert NatToString(9) == "9";
      assert NatToString(98) == "98";
    }
    assert NatToString(99999) == "99999" by {
      assert NatToString(9) == "9";
      assert NatToString(99) == "99";
      assert NatToString(999) == "999";
      assert NatToString(9999) == "9999";
    }
    assert ['-'] + NatToString(987) == "-987";
    assert ['+'] + NatToString(99999) == "+99999";
    LineNumbersDefaultCount('-', 987);
    LineNumbersDefaultCount('+', 99999);
  }

  lemma ExampleWideParts()
    ensures "@@ -987 +99999 @@ Foo bar" == "@@ " + "-987" + " " + "+99999" + " @@" + " Foo bar"
    ensures IsField("-987") && IsField("+99999") && '\n' !in " Foo bar"
    ensures " " <= " Foo bar" && " Foo bar"[1..] == "Foo bar"
  {
  }

  /** The second example of `parse_hunk`'s docstring: wide starts, omitted counts are 1. */
  lemma ParseHunkExampleWide()
    ensures ParseHunk("@@ -987 +99999 @@ Foo bar") == Ok(Hunk(LineRange(987, 1), LineRange(99999, 1), "Foo bar"))
  {
    WideRangeExamples();
    ExampleWideParts();
    ParseHunkFields("-987", "+99999", " Foo bar");
  }

  /** The last example of `parse_hunk`'s docstring: no text after `@@` gives `''`. */
  lemma ParseHunkExampleNoText()
    ensures ParseHunk("@@ -0 +1 @@") == Ok(Hunk(LineRange(0, 1), LineRange(1, 1), ""))
  {
    DefaultRangeExamples();
    assert "@@ -0 +1 @@" == "@@ " + "-0" + " " + "+1" + " @@" + "";
    ParseHunkFields("-0", "+1", "");
  }

  /** A header the regex matches can still fail: `int()` rejects the start `x`. */
  lemma ParseHunkBadNumberExample()
    ensures MatchHunkHeader("@@ -x +1 @@").Some?
    ensures ParseHunk("@@ -x +1 @@") == Err(BadLineNumber("-x"))
  {
    BadNumberParts();
    BadNumberField();
    MatchHunkHeaderFields("-x", "+1", "");
  }

  /** `[^@ ]+` lets a tab through, and `int()` then reads `-\t3` as -3. */
  lemma ParseHunkSpacedSignExample()
    ensures ParseHunk("@@ -1 +-\t3 @@") == Ok(Hunk(LineRange(1, 1), LineRange(-3, 1), ""))
  {
    SpacedSignParts();
    LineNumbersExampleSpacedSign();
    LineNumbersMinusOne();
    ParseHunkFields("-1", "+-\t3", "");
  }

  lemma SpacedSignParts()
    ensures "@@ -1 +-\t3 @@" == "@@ " + "-1" + " " + "+-\t3" + " @@" + ""
    ensures IsField("-1") && IsField("+-\t3") && '\n' !in "" && !(" " <= "")
  {
  }

  lemma LineNumbersMinusOne()
    ensures ParseFileLineNumbers("-1") == Ok(LineRange(1, 1))
  {
    assert NatToString(1) == "1";
    assert ['-'] + NatToString(1) == "-1";
    LineNumbersDefaultCount('-', 1);
  }

  lemma BadNumberParts()
    ensures "@@ -x +1 @@" == "@@ " + "-x" + " " + "+1" + " @@" + ""
    ensures IsField("-x") && IsField("+1") && '\n' !in ""
  {
  }

  lemma BadNumberField()
    ensures ParseFileLineNumbers("-x") == Err(BadLineNumber("-x"))
  {
    assert Drop("-x", 1) == "x";
    StripUnpadded("x");
  }

  lemma FormatRangeExamples()
    ensures FormatRange('-', 5, 0) == "-5,0"
    ensures FormatRange('+', 42, 5) == "+42,5"
  {
    assert NatToString(0) == "0" && NatToString(5) == "5";
    assert NatToString(42) == "42" by { assert NatToString(4) == "4"; }
  }

  /** The third example of `parse_hunk`'s docstring. */
  lemma ParseHunkExampleCounted()
    ensures ParseHunk("@@ -5,0 +42,5 @@ Foo bar") == Ok(Hunk(LineRange(5, 0), LineRange(42, 5), "Foo bar"))
  {
    assert "@@ -5,0 +42,5 @@ Foo bar" == "@@ " + "-5,0" + " " + "+42,5" + " @@" + (" " + "Foo bar");
    FormatRangeExamples();
    ParseHunkRoundTrip(5, 0, 42, 5, "Foo bar");
  }

  lemma FormatRangeExamplesEmptyNew()
    ensures FormatRange('-', 1, 3) == "-1,3"
    ensures FormatRange('+', 42, 0) == "+42,0"
  {
    assert NatToString(1) == "1" && NatToString(3) == "3" && NatToString(0) == "0";
    assert NatToString(42) == "42" by { assert NatToString(4) == "4"; }
  }

  /** The fourth example of `parse_hunk`'s docstring: an empty new side. */
  lemma ParseHunkExampleEmptyNew()
    ensures ParseHunk("@@ -1,3 +42,0 @@ Foo bar") == Ok(Hunk(LineRange(1, 3), LineRange(42, 0), "Foo bar"))
  {
    FormatRangeExamplesEmptyNew();
    assert "@@ -1,3 +42,0 @@ Foo bar" == "@@ " + "-1,3" + " " + "+42,0" + " @@" + (" " + "Foo bar");
    ParseHunkRoundTrip(1, 3, 42, 0, "Foo bar");
  }

  // ---------------------------------------------------------------- parse_git_diff_filename

  /** Python's `s[1:-1]`. */
  function Inner(s: string): string {
    if |s| >= 2 then s[1..|s| - 1] else []
  }

  /**
   * `parse_git_diff_filename` on a `--- ` or `+++ ` line: drop the 4-character prefix and
   * trailing whitespace; `/dev/null` is the empty name; otherwise drop surrounding
   * quotes when the name starts with `"`, then the 2-character `a/` or `b/` prefix.
   */
  function ParseGitDiffFilename(line: string): (name: string)
    ensures name == [] || |name| + 6 <= |line|
  {
    var withoutPrefix := RStrip(Drop(line, 4));
    if withoutPrefix == "/dev/null" then ""
    else
      var withoutQuotes := if "\"" <= withoutPrefix then Inner(withoutPrefix) else withoutPrefix;
      Drop(withoutQuotes, 2)
  }

  predicate AllWhitespace(s: string) {
    forall i :: 0 <= i < |s| ==> IsWhitespace(s[i])
  }

  /** A created or deleted file's side reads `/dev/null`, whatever whitespace follows. */
  lemma FilenameDevNull(prefix: string, padding: string)
    requires |prefix| == 4 && AllWhitespace(padding)
    ensures ParseGitDiffFilename(prefix + "/dev/null" + padding) == ""
  {
    assert Drop(prefix + "/dev/null" + padding, 4) == "/dev/null" + padding;
    RStripPadded("/dev/null", padding);
  }

  /** `--- a/name` and `+++ b/name` give `name`. */
  lemma FilenamePlain(prefix: string, side: string, name: string, padding: string)
    requires |prefix| == 4 && (side == "a/" || side == "b/") && AllWhitespace(padding)
    requires name == [] || !IsWhitespace(name[|name| - 1])
    ensures ParseGitDiffFilename(prefix + side + name + padding) == name
  {
    var line := prefix + side + name + padding;
    var stripped := side + name;
    assert Drop(line, 4) == stripped + padding;
    assert !IsWhitespace(stripped[|stripped| - 1]);
    RStripPadded(stripped, padding);
    assert stripped[0] != '/' && stripped[0] != '"';
    assert stripped[2..] == name;
  }

  /** A quoted name `"b/name"` gives `name`, whatever it holds. */
  lemma FilenameQuoted(prefix: string, side: string, name: string, padding: string)
    requires |prefix| == 4 && (side == "a/" || side == "b/") && AllWhitespace(padding)
    ensures ParseGitDiffFilename(prefix + "\"" + side + name + "\"" + padding) == name
  {
    var inner := side + name;
    var quoted := "\"" + inner + "\"";
    var line := prefix + "\"" + side + name + "\"" + padding;
    assert line == prefix + (quoted + padding);
    assert Drop(line, 4) == quoted + padding;
    RStripPadded(quoted, padding);
    var withoutPrefix := RStrip(Drop(line, 4));
    assert withoutPrefix == quoted;
    assert withoutPrefix[0] == '"' && "\"" <= withoutPrefix;
    assert withoutPrefix != "/dev/null";
    assert Inner(quoted) == inner;
    assert inner[2..] == name;
  }

  // ---------------------------------------------------------------- get_diff_lines

  /**
   * The scanning loop's variables: the current names (never reset at `diff --git`),
   * the hunk list of the current section (`None` before the first `diff --git`) and
   * the entries yielded so far.
   */
  datatype ScanState = ScanState(
    srcName: Option<string>, dstName: Option<string>, hunks: Option<seq<Hunk>>, emitted: seq<FileEntry>)

  const Initial := ScanState(None, None, None, [])

  /** The entries yielded so far, plus the current section when `if hunks:` holds. */
  function Flush(st: ScanState): seq<FileEntry> {
    if st.hunks.Some? && st.hunks.value != [] then
      st.emitted + [FileEntry(st.srcName, st.dstName, st.hunks.value)]
    else st.emitted
  }

  /** One iteration of the `for line in lines` loop. */
  function Step(st: ScanState, line: string): (r: Result<ScanState, DiffError>)
    ensures r.Err? ==> "@@" <= line
  {
    if "diff --git" <= line then Ok(st.(hunks := Some([]), emitted := Flush(st)))
    else if "--- " <= line then Ok(st.(srcName := Some(ParseGitDiffFilename(line))))
    else if "+++ " <= line then Ok(st.(dstName := Some(ParseGitDiffFilename(line))))
    else if "@@" <= line then
      match ParseHunk(line)
      case Err(e) => Err(e)
      case Ok(hunk) =>
        if st.hunks.None? then Err(HunkOutsideFile(line))
        else Ok(st.(hunks := Some(st.hunks.value + [hunk])))
    else Ok(st)
  }

  /** The loop over the remaining lines, stopping at the first exception. */
  function Run(st: ScanState, lines: seq<string>): (r: Result<ScanState, DiffError>)
    ensures r.Err? ==> HunkLines(lines) != []
    decreases |lines|
  {
    if lines == [] then Ok(st)
    else
      match Step(st, lines[0])
      case Err(e) => Err(e)
      case Ok(st') => Run(st', lines[1..])
  }

  /** Everything `get_diff_lines` yields for the given lines of `git diff` output. */
  function ScanDiffLines(lines: seq<string>): (r: Result<seq<FileEntry>, DiffError>)
    ensures r.Err? ==> HunkLines(lines) != []
  {
    match Run(Initial, lines)
    case Err(e) => Err(e)
    case Ok(st) => Ok(Flush(st))
  }

  /**
   * `get_diff_lines` after `git diff` has run: split its output at line breaks, then
   * scan the lines, collecting the yielded entries.
   */
  method GetDiffLines(output: string) returns (r: Result<seq<FileEntry>, DiffError>)
    ensures r == ScanDiffLines(Split(output, '\n'))
  {
    var lines := Split(output, '\n');
    var srcName: Option<string> := None;
    var dstName: Option<string> := None;
    var hunks: Option<seq<Hunk>> := None;
    var entries: seq<FileEntry> := [];
    var i := 0;
    while i < |lines|
      invariant 0 <= i <= |lines|
      invariant Run(Initial, lines) == Run(ScanState(srcName, dstName, hunks, entries), lines[i..])
    {
      var line := lines[i];
      assert lines[i..][1..] == lines[i + 1..];
      if "diff --git" <= line {
        if hunks.Some? && hunks.value != [] {
          entries := entries + [FileEntry(srcName, dstName, hunks.value)];
        }
        hunks := Some([]);
      } else if "--- " <= line {
        srcName := Some(ParseGitDiffFilename(line));
      } else if "+++ " <= line {
        dstName := Some(ParseGitDiffFilename(line));
      } else if "@@" <= line {
        var hunk := ParseHunk(line);
        if hunk.Err? {
          return Err(hunk.error);
        }
        if hunks.None? {
          return Err(HunkOutsideFile(line));
        }
        hunks := Some(hunks.value + [hunk.value]);
      }
      i := i + 1;
    }
    if hunks.Some? && hunks.value != [] {
      entries := entries + [FileEntry(srcName, dstName, hunks.value)];
    }
    return Ok(entries);
  }

  // ---------------------------------------------------------------- what the scan yields

  /** The `@@` lines, in input order. */
  function HunkLines(lines: seq<string>): (headers: seq<string>)
    ensures forall i :: 0 <= i < |headers| ==> "@@" <= headers[i]
    ensures |headers| <= |lines|
  {
    if lines == [] then []
    else (if "@@" <= lines[0] then [lines[0]] else []) + HunkLines(lines[1..])
  }

  /** `parse_hunk` applied to each header in turn, stopping at the first failure. */
  function ParseHunks(headers: seq<string>): (r: Result<seq<Hunk>, DiffError>)
    ensures r.Ok? ==> |r.value| == |headers|
  {
    if headers == [] then Ok([])
    else
      match ParseHunk(headers[0])
      case Err(e) => Err(e)
      case Ok(hunk) =>
        match ParseHunks(headers[1..])
        case Err(e) => Err(e)
        case Ok(rest) => Ok([hunk] + rest)
  }

  /** All hunks of a list of entries, entry after entry. */
  function Flatten(entries: seq<FileEntry>): seq<Hunk> {
    if entries == [] then []
    else Flatten(entries[..|entries| - 1]) + entries[|entries| - 1].hunks
  }

  /** The hunks a state has seen: those yielded, then those of the open section. */
  function Pending(st: ScanState): seq<Hunk> {
    Flatten(st.emitted) + (if st.hunks.Some? then st.hunks.value else [])
  }

  lemma FlushKeepsPending(st: ScanState)
    ensures Flatten(Flush(st)) == Pending(st)
  {
    if st.hunks.Some? && st.hunks.value != [] {
      assert Flush(st)[..|Flush(st)| - 1] == st.emitted;
    }
  }

  lemma StepPending(st: ScanState, line: string)
    requires Step(st, line).Ok?
    ensures "@@" <= line ==> ParseHunk(line).Ok?
    ensures Pending(Step(st, line).value)
            == Pending(st) + (if "@@" <= line then [ParseHunk(line).value] else [])
  {
    if "diff --git" <= line {
      StepHeaderState(st, line);
      FlushKeepsPending(st);
    } else if "@@" <= line {
      StepHunkState(st, line);
      PendingAppend(st, ParseHunk(line).value);
    } else {
      StepOtherState(st, line);
    }
  }

  lemma StepHeaderState(st: ScanState, line: string)
    requires "diff --git" <= line
    ensures !("@@" <= line)
    ensures Step(st, line) == Ok(st.(hunks := Some([]), emitted := Flush(st)))
  {
    assert line[0] == 'd';
  }

  lemma StepHunkState(st: ScanState, line: string)
    requires Step(st, line).Ok? && "@@" <= line
    ensures ParseHunk(line).Ok? && st.hunks.Some?
    ensures Step(st, line) == Ok(st.(hunks := Some(st.hunks.value + [ParseHunk(line).value])))
  {
    HunkLineOnly(line);
  }

  lemma StepOtherState(st: ScanState, line: string)
    requires !("diff --git" <= line) && !("@@" <= line)
    ensures Step(st, line).Ok?
    ensures Step(st, line).value.hunks == st.hunks && Step(st, line).value.emitted == st.emitted
  {
  }

  lemma PendingAppend(st: ScanState, hunk: Hunk)
    requires st.hunks.Some?
    ensures Pending(st.(hunks := Some(st.hunks.value + [hunk]))) == Pending(st) + [hunk]
  {
    assert Pending(st) + [hunk] == Flatten(st.emitted) + (st.hunks.value + [hunk]);
  }

  /** Each hunk of the scanned lines lands in the state in order, and the scan only appends. */
  lemma {:induction false} RunPending(st: ScanState, lines: seq<string>)
    requires Run(st, lines).Ok?
    ensures ParseHunks(HunkLines(lines)).Ok?
    ensures Pending(Run(st, lines).value) == Pending(st) + ParseHunks(HunkLines(lines)).value
    decreases |lines|
  {
    if lines != [] {
      var st' := Step(st, lines[0]).value;
      assert Run(st, lines) == Run(st', lines[1..]);
      RunPending(st', lines[1..]);
      PendingAt(st, lines, Run(st, lines).value);
    }
  }

  /** One line of `RunPending`: the step's hunk, if any, goes in front of the rest's. */
  lemma PendingAt(st: ScanState, lines: seq<string>, final: ScanState)
    requires lines != [] && Step(st, lines[0]).Ok?
    requires ParseHunks(HunkLines(lines[1..])).Ok?
    requires Pending(final) == Pending(Step(st, lines[0]).value) + ParseHunks(HunkLines(lines[1..])).value
    ensures ParseHunks(HunkLines(lines)).Ok?
    ensures Pending(final) == Pending(st) + ParseHunks(HunkLines(lines)).value
  {
    var line := lines[0];
    StepPending(st, line);
    if "@@" <= line {
      ParseHunksTake(lines);
      AppendAssoc(Pending(st), [ParseHunk(line).value], ParseHunks(HunkLines(lines[1..])).value);
    } else {
      ParseHunksSkip(lines);
      assert Pending(Step(st, line).value) == Pending(st) + [];
      assert Pending(st) + [] == Pending(st);
    }
  }

  lemma ParseHunksSkip(lines: seq<string>)
    requires lines != [] && !("@@" <= lines[0])
    ensures ParseHunks(HunkLines(lines)) == ParseHunks(HunkLines(lines[1..]))
  {
    assert HunkLines(lines) == HunkLines(lines[1..]);
  }

  lemma ParseHunksTake(lines: seq<string>)
    requires lines != [] && ParseHunks(HunkLines(lines[1..])).Ok?
    requires "@@" <= lines[0] && ParseHunk(lines[0]).Ok?
    ensures ParseHunks(HunkLines(lines)) == Ok([ParseHunk(lines[0]).value] + ParseHunks(HunkLines(lines[1..])).value)
  {
    var headers := HunkLines(lines);
    assert headers == [lines[0]] + HunkLines(lines[1..]);
    assert headers[0] == lines[0];
    assert headers[1..] == HunkLines(lines[1..]);
  }

  /**
   * The yielded entries hold, one entry after another, exactly the hunks of the `@@`
   * lines in input order; so there are as many hunks as `@@` lines.
   */
  lemma ScanHunksInOrder(lines: seq<string>)
    requires ScanDiffLines(lines).Ok?
    ensures ParseHunks(HunkLines(lines)) == Ok(Flatten(ScanDiffLines(lines).value))
    ensures |Flatten(ScanDiffLines(lines).value)| == |HunkLines(lines)|
  {
    var st := Run(Initial, lines).value;
    assert ScanDiffLines(lines) == Ok(Flush(st));
    RunPending(Initial, lines);
    FlushKeepsPending(st);
    assert Pending(Initial) == [];
    assert Pending(st) == ParseHunks(HunkLines(lines)).value;
  }

  predicate AllNonEmpty(entries: seq<FileEntry>) {
    forall i :: 0 <= i < |entries| ==> entries[i].hunks != []
  }

  lemma {:induction false} RunKeepsNonEmpty(st: ScanState, lines: seq<string>)
    requires Run(st, lines).Ok? && AllNonEmpty(st.emitted)
    ensures AllNonEmpty(Run(st, lines).value.emitted)
    decreases |lines|
  {
    if lines != [] {
      RunKeepsNonEmpty(Step(st, lines[0]).value, lines[1..]);
    }
  }

  /** Sections without any hunk (a pure rename, a mode change) are never yielded. */
  lemma ScanEntriesNonEmpty(lines: seq<string>)
    requires ScanDiffLines(lines).Ok?
    ensures forall i :: 0 <= i < |ScanDiffLines(lines).value| ==> ScanDiffLines(lines).value[i].hunks != []
  {
    RunKeepsNonEmpty(Initial, lines);
  }

  /** Some `@@` line comes before every `diff --git` line. */
  ghost predicate HunkBeforeFirstSection(lines: seq<string>) {
    exists i :: 0 <= i < |lines| && "@@" <= lines[i] && forall j :: 0 <= j < i ==> !("diff --git" <= lines[j])
  }

  lemma HunkBeforeShift(lines: seq<string>)
    requires lines != [] && !("diff --git" <= lines[0]) && !("@@" <= lines[0])
    ensures HunkBeforeFirstSection(lines) <==> HunkBeforeFirstSection(lines[1..])
  {
    var rest := lines[1..];
    if HunkBeforeFirstSection(lines) {
      var i :| 0 <= i < |lines| && "@@" <= lines[i] && forall j :: 0 <= j < i ==> !("diff --git" <= lines[j]);
      assert i > 0 && rest[i - 1] == lines[i];
      forall j | 0 <= j < i - 1 ensures !("diff --git" <= rest[j]) {
        assert rest[j] == lines[j + 1];
      }
    }
    if HunkBeforeFirstSection(rest) {
      var i :| 0 <= i < |rest| && "@@" <= rest[i] && forall j :: 0 <= j < i ==> !("diff --git" <= rest[j]);
      assert lines[i + 1] == rest[i];
      forall j | 0 <= j < i + 1 ensures !("diff --git" <= lines[j]) {
        if j > 0 {
          assert lines[j] == rest[j - 1];
        }
      }
    }
  }

  lemma {:induction false} RunSucceeds(st: ScanState, lines: seq<string>)
    ensures Run(st, lines).Ok? <==>
      ParseHunks(HunkLines(lines)).Ok? && (st.hunks.Some? || !HunkBeforeFirstSection(lines))
    decreases |lines|
  {
    if lines != [] {
      var line := lines[0];
      if "diff --git" <= line {
        RunSucceeds(Step(st, line).value, lines[1..]);
        SucceedsAtHeader(st, lines);
      } else if "@@" <= line {
        if ParseHunk(line).Ok? && st.hunks.Some? {
          RunSucceeds(Step(st, line).value, lines[1..]);
        }
        SucceedsAtHunk(st, lines);
      } else {
        RunSucceeds(Step(st, line).value, lines[1..]);
        SucceedsAtOther(st, lines);
      }
    }
  }

  /** The statement of `RunSucceeds` for one state and list of lines. */
  ghost predicate SucceedsWhen(st: ScanState, lines: seq<string>) {
    Run(st, lines).Ok? <==>
      ParseHunks(HunkLines(lines)).Ok? && (st.hunks.Some? || !HunkBeforeFirstSection(lines))
  }

  lemma SucceedsAtHeader(st: ScanState, lines: seq<string>)
    requires lines != [] && "diff --git" <= lines[0]
    requires SucceedsWhen(Step(st, lines[0]).value, lines[1..])
    ensures SucceedsWhen(st, lines)
  {
    StepHeaderState(st, lines[0]);
    assert Run(st, lines) == Run(Step(st, lines[0]).value, lines[1..]);
    ParseHunksSkip(lines);
    assert !HunkBeforeFirstSection(lines);
  }

  lemma SucceedsAtHunk(st: ScanState, lines: seq<string>)
    requires lines != [] && "@@" <= lines[0]
    requires ParseHunk(lines[0]).Ok? && st.hunks.Some? ==> SucceedsWhen(Step(st, lines[0]).value, lines[1..])
    ensures SucceedsWhen(st, lines)
  {
    HunkFirst(lines);
    ParseHunksCons(lines);
    if ParseHunk(lines[0]).Ok? && st.hunks.Some? {
      StepHunkOk(st, lines[0]);
      assert Run(st, lines) == Run(Step(st, lines[0]).value, lines[1..]);
    } else {
      StepHunkFails(st, lines[0]);
      assert Run(st, lines).Err?;
    }
  }

  lemma HunkFirst(lines: seq<string>)
    requires lines != [] && "@@" <= lines[0]
    ensures HunkBeforeFirstSection(lines)
  {
  }

  lemma ParseHunksCons(lines: seq<string>)
    requires lines != [] && "@@" <= lines[0]
    ensures ParseHunks(HunkLines(lines)).Ok? <==>
      ParseHunk(lines[0]).Ok? && ParseHunks(HunkLines(lines[1..])).Ok?
  {
    var headers := HunkLines(lines);
    assert headers == [lines[0]] + HunkLines(lines[1..]);
    assert headers[0] == lines[0] && headers[1..] == HunkLines(lines[1..]);
  }

  lemma StepHunkOk(st: ScanState, line: string)
    requires "@@" <= line && ParseHunk(line).Ok? && st.hunks.Some?
    ensures Step(st, line).Ok? && Step(st, line).value.hunks.Some?
  {
    HunkLineOnly(line);
  }

  lemma StepHunkFails(st: ScanState, line: string)
    requires "@@" <= line && !(ParseHunk(line).Ok? && st.hunks.Some?)
    ensures Step(st, line).Err?
  {
    HunkLineOnly(line);
  }

  /** An `@@` line starts with none of the other prefixes the loop tests. */
  lemma HunkLineOnly(line: string)
    requires "@@" <= line
    ensures !("diff --git" <= line) && !("--- " <= line) && !("+++ " <= line)
  {
    assert line[0] == '@';
  }

  lemma SucceedsAtOther(st: ScanState, lines: seq<string>)
    requires lines != [] && !("diff --git" <= lines[0]) && !("@@" <= lines[0])
    requires SucceedsWhen(Step(st, lines[0]).value, lines[1..])
    ensures SucceedsWhen(st, lines)
  {
    StepOtherState(st, lines[0]);
    assert Run(st, lines) == Run(Step(st, lines[0]).value, lines[1..]);
    ParseHunksSkip(lines);
    HunkBeforeShift(lines);
  }



  /**
   * The scan fails exactly when some `@@` line is malformed, or some `@@` line comes
   * before the first `diff --git` (when `hunks` is still None).
   */
  lemma ScanSucceeds(lines: seq<string>)
    ensures ScanDiffLines(lines).Ok? <==>
      ParseHunks(HunkLines(lines)).Ok? && !HunkBeforeFirstSection(lines)
  {
    RunSucceeds(Initial, lines);
  }

  /**
   * Names are not reset at `diff --git`: over lines without `--- `/`+++ ` lines the
   * names stay, and every entry yielded meanwhile carries them. Earlier entries stay.
   */
  lemma {:induction false} RunKeepsNames(st: ScanState, lines: seq<string>)
    requires Run(st, lines).Ok?
    requires forall i :: 0 <= i < |lines| ==> !("--- " <= lines[i]) && !("+++ " <= lines[i])
    ensures var st' := Run(st, lines).value;
      && st'.srcName == st.srcName && st'.dstName == st.dstName
      && st.emitted <= st'.emitted
      && forall k :: |st.emitted| <= k < |st'.emitted| ==>
           st'.emitted[k].srcName == st.srcName && st'.emitted[k].dstName == st.dstName
    decreases |lines|
  {
    if lines != [] {
      var st1 := Step(st, lines[0]).value;
      assert !("--- " <= lines[0]) && !("+++ " <= lines[0]);
      RunKeepsNames(st1, lines[1..]);
    }
  }

  // ---------------------------------------------------------------- one entry per section

  /** A `diff --git` line and the lines after it, up to the next one. */
  datatype Section = Section(header: string, body: seq<string>)

  /** The lines before the first `diff --git` line, and the sections after it. */
  datatype Sectioned = Sectioned(preamble: seq<string>, sections: seq<Section>)

  /** `lines` cut at its `diff --git` lines. */
  function Sections(lines: seq<string>): (r: Sectioned)
    ensures forall i :: 0 <= i < |r.preamble| ==> !("diff --git" <= r.preamble[i])
    ensures forall k :: 0 <= k < |r.sections| ==> "diff --git" <= r.sections[k].header
    ensures forall k, i :: 0 <= k < |r.sections| && 0 <= i < |r.sections[k].body| ==>
              !("diff --git" <= r.sections[k].body[i])
    decreases |lines|
  {
    if lines == [] then Sectioned([], [])
    else
      var r := Sections(lines[1..]);
      if "diff --git" <= lines[0] then Sectioned([], [Section(lines[0], r.preamble)] + r.sections)
      else Sectioned([lines[0]] + r.preamble, r.sections)
  }

  /** The sections' lines, each `diff --git` line followed by its body. */
  function Unsplit(sections: seq<Section>): seq<string> {
    if sections == [] then []
    else [sections[0].header] + sections[0].body + Unsplit(sections[1..])
  }

  /** Cutting loses no line: the preamble and the sections, put back together, are the input. */
  lemma {:induction false} SectionsJoin(lines: seq<string>)
    ensures Sections(lines).preamble + Unsplit(Sections(lines).sections) == lines
    decreases |lines|
  {
    if lines != [] {
      SectionsJoin(lines[1..]);
      SectionsJoinStep(lines);
    }
  }

  lemma SectionsJoinStep(lines: seq<string>)
    requires lines != []
    requires Sections(lines[1..]).preamble + Unsplit(Sections(lines[1..]).sections) == lines[1..]
    ensures Sections(lines).preamble + Unsplit(Sections(lines).sections) == lines
  {
    ConsSplit(lines);
    JoinCons(lines[0], Sections(lines[1..]), lines[1..]);
  }

  lemma ConsSplit<T>(s: seq<T>)
    requires s != []
    ensures s == [s[0]] + s[1..]
  {
  }

  lemma JoinCons(line: string, r: Sectioned, rest: seq<string>)
    requires r.preamble + Unsplit(r.sections) == rest
    ensures [] + Unsplit([Section(line, r.preamble)] + r.sections) == [line] + rest
    ensures ([line] + r.preamble) + Unsplit(r.sections) == [line] + rest
  {
    AppendAssoc([line], r.preamble, Unsplit(r.sections));
    UnsplitCons(line, r.preamble, r.sections);
  }

  lemma UnsplitCons(header: string, body: seq<string>, sections: seq<Section>)
    ensures Unsplit([Section(header, body)] + sections) == [header] + body + Unsplit(sections)
  {
    var s := [Section(header, body)] + sections;
    assert s[0] == Section(header, body) && s[1..] == sections;
  }

  /** The name read from the last line of `lines` starting with `prefix`; `name` when there is none. */
  function LastName(lines: seq<string>, prefix: string, name: Option<string>): (r: Option<string>)
    ensures (forall i :: 0 <= i < |lines| ==> !(prefix <= lines[i])) ==> r == name
    decreases |lines|
  {
    if lines == [] then name
    else LastName(lines[1..], prefix, if prefix <= lines[0] then Some(ParseGitDiffFilename(lines[0])) else name)
  }

  lemma LastNameCons(line: string, rest: seq<string>, prefix: string, name: Option<string>)
    ensures LastName([line] + rest, prefix, name)
            == LastName(rest, prefix, if prefix <= line then Some(ParseGitDiffFilename(line)) else name)
  {
    assert ([line] + rest)[1..] == rest;
  }

  /** The hunks of a section's `@@` lines (none when one of them is malformed). */
  function SectionHunks(body: seq<string>): seq<Hunk> {
    match ParseHunks(HunkLines(body))
    case Ok(hunks) => hunks
    case Err(_) => []
  }

  /** Every `@@` line of the section parses. */
  predicate SectionParses(section: Section) {
    ParseHunks(HunkLines(section.body)).Ok?
  }

  /** The entry yielded for a section, when it holds a hunk. */
  function EntryOf(srcName: Option<string>, dstName: Option<string>, hunks: seq<Hunk>): seq<FileEntry> {
    if hunks == [] then [] else [FileEntry(srcName, dstName, hunks)]
  }

  /**
   * The entries the sections give, the names carried over from section to section:
   * each section with an `@@` line gives one entry, holding the hunks of its `@@` lines
   * and the names of the last `--- ` and `+++ ` lines seen by its end.
   */
  function Grouped(srcName: Option<string>, dstName: Option<string>, sections: seq<Section>): (r: seq<FileEntry>)
    ensures |r| <= |sections|
    ensures forall i :: 0 <= i < |r| ==> r[i].hunks != []
    decreases |sections|
  {
    if sections == [] then []
    else
      var body := sections[0].body;
      var src := LastName(body, "--- ", srcName);
      var dst := LastName(body, "+++ ", dstName);
      EntryOf(src, dst, SectionHunks(body)) + Grouped(src, dst, sections[1..])
  }

  lemma GroupedCons(srcName: Option<string>, dstName: Option<string>, section: Section, sections: seq<Section>)
    ensures var src := LastName(section.body, "--- ", srcName);
      var dst := LastName(section.body, "+++ ", dstName);
      Grouped(srcName, dstName, [section] + sections)
      == EntryOf(src, dst, SectionHunks(section.body)) + Grouped(src, dst, sections)
  {
    assert ([section] + sections)[0] == section && ([section] + sections)[1..] == sections;
  }

  /** The number of sections holding an `@@` line. */
  function CountWithHunks(sections: seq<Section>): nat {
    if sections == [] then 0
    else (if HunkLines(sections[0].body) != [] then 1 else 0) + CountWithHunks(sections[1..])
  }

  /** The entry of the section open in `st`, once `rest` of its lines are read. */
  function Open(st: ScanState, rest: seq<string>): seq<FileEntry> {
    if st.hunks.None? then []
    else EntryOf(LastName(rest, "--- ", st.srcName), LastName(rest, "+++ ", st.dstName),
                 st.hunks.value + SectionHunks(rest))
  }

  /** What running from `st` over `lines` yields, section by section. */
  ghost predicate GroupsHold(st: ScanState, lines: seq<string>)
    requires Run(st, lines).Ok?
  {
    var cut := Sections(lines);
    && (st.hunks.None? ==> HunkLines(cut.preamble) == [])
    && ParseHunks(HunkLines(cut.preamble)).Ok?
    && (forall k :: 0 <= k < |cut.sections| ==> SectionParses(cut.sections[k]))
    && Flush(Run(st, lines).value)
       == st.emitted + Open(st, cut.preamble)
          + Grouped(LastName(cut.preamble, "--- ", st.srcName), LastName(cut.preamble, "+++ ", st.dstName), cut.sections)
  }

  lemma FlushIsOpen(st: ScanState)
    ensures Flush(st) == st.emitted + Open(st, [])
  {
    if st.hunks.Some? {
      assert st.hunks.value + SectionHunks([]) == st.hunks.value;
    }
  }

  lemma {:induction false} RunGroups(st: ScanState, lines: seq<string>)
    requires Run(st, lines).Ok?
    ensures GroupsHold(st, lines)
    decreases |lines|
  {
    if lines == [] {
      FlushIsOpen(st);
    } else {
      var st1 := Step(st, lines[0]).value;
      RunGroups(st1, lines[1..]);
      if "diff --git" <= lines[0] {
        GroupsHeader(st, lines);
      } else {
        GroupsBody(st, lines);
      }
    }
  }

  /** A `diff --git` line closes the open section and starts the first of the rest. */
  lemma GroupsHeader(st: ScanState, lines: seq<string>)
    requires lines != [] && "diff --git" <= lines[0] && Run(st, lines).Ok?
    requires Step(st, lines[0]).Ok? && Run(Step(st, lines[0]).value, lines[1..]).Ok?
    requires GroupsHold(Step(st, lines[0]).value, lines[1..])
    ensures GroupsHold(st, lines)
  {
    var st1 := Step(st, lines[0]).value;
    var r := Sections(lines[1..]);
    var section := Section(lines[0], r.preamble);
    assert Sections(lines) == Sectioned([], [section] + r.sections);
    assert Run(st, lines) == Run(st1, lines[1..]);
    HeaderStep(st, lines[0], r.preamble);
    GroupedCons(st.srcName, st.dstName, section, r.sections);
    SectionsParse(section, r.sections);
    var src := LastName(r.preamble, "--- ", st.srcName);
    var dst := LastName(r.preamble, "+++ ", st.dstName);
    AppendAssoc(st.emitted + Open(st, []), EntryOf(src, dst, SectionHunks(r.preamble)), Grouped(src, dst, r.sections));
  }

  /** A `diff --git` line yields the open section's entry and opens an empty one, names unchanged. */
  lemma HeaderStep(st: ScanState, line: string, rest: seq<string>)
    requires "diff --git" <= line
    ensures Step(st, line).Ok?
    ensures var st1 := Step(st, line).value;
      && st1.srcName == st.srcName && st1.dstName == st.dstName
      && st1.emitted == st.emitted + Open(st, [])
      && Open(st1, rest) == EntryOf(LastName(rest, "--- ", st.srcName), LastName(rest, "+++ ", st.dstName), SectionHunks(rest))
      && LastName([], "--- ", st.srcName) == st.srcName && LastName([], "+++ ", st.dstName) == st.dstName
  {
    FlushIsOpen(st);
    assert [] + SectionHunks(rest) == SectionHunks(rest);
  }

  lemma SectionsParse(section: Section, sections: seq<Section>)
    requires SectionParses(section)
    requires forall k :: 0 <= k < |sections| ==> SectionParses(sections[k])
    ensures forall k :: 0 <= k < |[section] + sections| ==> SectionParses(([section] + sections)[k])
  {
    forall k | 0 <= k < |[section] + sections|
      ensures SectionParses(([section] + sections)[k])
    {
      if k > 0 {
        assert ([section] + sections)[k] == sections[k - 1];
      }
    }
  }

  /** Any other line belongs to the open section (or to the preamble). */
  lemma GroupsBody(st: ScanState, lines: seq<string>)
    requires lines != [] && !("diff --git" <= lines[0]) && Run(st, lines).Ok?
    requires Step(st, lines[0]).Ok? && Run(Step(st, lines[0]).value, lines[1..]).Ok?
    requires GroupsHold(Step(st, lines[0]).value, lines[1..])
    ensures GroupsHold(st, lines)
  {
    var st1 := Step(st, lines[0]).value;
    var r := Sections(lines[1..]);
    assert Sections(lines) == Sectioned([lines[0]] + r.preamble, r.sections);
    assert Run(st, lines) == Run(st1, lines[1..]);
    OpenStep(st, lines[0], r.preamble);
  }

  /** Reading one more line of the open section: the same names, hunks and entry result. */
  lemma OpenStep(st: ScanState, line: string, rest: seq<string>)
    requires !("diff --git" <= line) && Step(st, line).Ok?
    requires Step(st, line).value.hunks.None? ==> HunkLines(rest) == []
    requires ParseHunks(HunkLines(rest)).Ok?
    ensures var st1 := Step(st, line).value;
      && st1.emitted == st.emitted
      && LastName([line] + rest, "--- ", st.srcName) == LastName(rest, "--- ", st1.srcName)
      && LastName([line] + rest, "+++ ", st.dstName) == LastName(rest, "+++ ", st1.dstName)
      && (st.hunks.None? ==> HunkLines([line] + rest) == [])
      && ParseHunks(HunkLines([line] + rest)).Ok?
      && Open(st, [line] + rest) == Open(st1, rest)
  {
    StepInSection(st, line);
    LastNameCons(line, rest, "--- ", st.srcName);
    LastNameCons(line, rest, "+++ ", st.dstName);
    BodyHunks(st, line, rest);
  }

  /** One step on a line other than `diff --git`: a name line sets its name, an `@@` line appends. */
  lemma StepInSection(st: ScanState, line: string)
    requires !("diff --git" <= line) && Step(st, line).Ok?
    ensures var st1 := Step(st, line).value;
      && st1.emitted == st.emitted
      && st1.srcName == (if "--- " <= line then Some(ParseGitDiffFilename(line)) else st.srcName)
      && st1.dstName == (if "+++ " <= line then Some(ParseGitDiffFilename(line)) else st.dstName)
      && if "@@" <= line
         then ParseHunk(line).Ok? && st.hunks.Some? && st1.hunks == Some(st.hunks.value + [ParseHunk(line).value])
         else st1.hunks == st.hunks
  {
    if "+++ " <= line {
      assert line[0] == '+';
    }
    if "@@" <= line {
      HunkLineOnly(line);
    }
  }

  /** The hunks of the open section, before and after reading one more of its lines. */
  lemma BodyHunks(st: ScanState, line: string, rest: seq<string>)
    requires !("diff --git" <= line) && Step(st, line).Ok?
    requires Step(st, line).value.hunks.None? ==> HunkLines(rest) == []
    requires ParseHunks(HunkLines(rest)).Ok?
    ensures st.hunks.None? ==> HunkLines([line] + rest) == []
    ensures ParseHunks(HunkLines([line] + rest)).Ok?
    ensures st.hunks.Some? ==>
      st.hunks.value + SectionHunks([line] + rest) == Step(st, line).value.hunks.value + SectionHunks(rest)
  {
    var lines := [line] + rest;
    assert lines[0] == line && lines[1..] == rest;
    StepInSection(st, line);
    if "@@" <= line {
      ParseHunksTake(lines);
      AppendAssoc(st.hunks.value, [ParseHunk(line).value], SectionHunks(rest));
    } else {
      ParseHunksSkip(lines);
    }
  }

  /**
   * `get_diff_lines` yields one entry per `diff --git` section holding an `@@` line, in
   * order: the section's hunks, under the names of the last `--- ` and `+++ ` lines read
   * by the section's end (names carry over from earlier sections). Lines before the
   * first section hold no `@@` line.
   */
  lemma ScanGroupsSections(lines: seq<string>)
    requires ScanDiffLines(lines).Ok?
    ensures var cut := Sections(lines);
      && HunkLines(cut.preamble) == []
      && (forall k :: 0 <= k < |cut.sections| ==> SectionParses(cut.sections[k]))
      && ScanDiffLines(lines).value
         == Grouped(LastName(cut.preamble, "--- ", None), LastName(cut.preamble, "+++ ", None), cut.sections)
  {
    RunGroups(Initial, lines);
    assert [] + [] + Grouped(LastName(Sections(lines).preamble, "--- ", None), LastName(Sections(lines).preamble, "+++ ", None), Sections(lines).sections)
           == Grouped(LastName(Sections(lines).preamble, "--- ", None), LastName(Sections(lines).preamble, "+++ ", None), Sections(lines).sections);
  }

  /** Every section whose `@@` lines parse gives one entry exactly when it has an `@@` line. */
  lemma {:induction false} GroupedCount(srcName: Option<string>, dstName: Option<string>, sections: seq<Section>)
    requires forall k :: 0 <= k < |sections| ==> SectionParses(sections[k])
    ensures |Grouped(srcName, dstName, sections)| == CountWithHunks(sections)
    decreases |sections|
  {
    if sections != [] {
      var body := sections[0].body;
      assert SectionParses(sections[0]);
      assert |SectionHunks(body)| == |HunkLines(body)|;
      GroupedCount(LastName(body, "--- ", srcName), LastName(body, "+++ ", dstName), sections[1..]);
    }
  }

  /** So the scan yields as many entries as there are sections holding an `@@` line. */
  lemma ScanEntryCount(lines: seq<string>)
    requires ScanDiffLines(lines).Ok?
    ensures |ScanDiffLines(lines).value| == CountWithHunks(Sections(lines).sections)
  {
    ScanGroupsSections(lines);
    var cut := Sections(lines);
    GroupedCount(LastName(cut.preamble, "--- ", None), LastName(cut.preamble, "+++ ", None), cut.sections);
  }
}
