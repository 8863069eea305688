/**
 * lintlens/lint/unix.py: one line of lint output in the `file:line:column: message`
 * convention ("Formatting Error Messages" in the GNU Coding Standards), read with the
 * pattern `(?:\./)?(.+?):(\d+):(\d+): ?(.*)` anchored at the start of the line.
 */
module UnixLint {
  import opened Wrappers
  import opened Text

  /** The `LintEntry` namedtuple. */
  datatype LintEntry = LintEntry(filename: string, line: nat, column: nat, message: string)

  /** The pattern does not match: `match` gives None and `.group` raises. */
  datatype LintError = MalformedLintLine(text: string)

  /** The number of digits `s` starts with (`\d+` is greedy). */
  function LeadingDigits(s: string): (n: nat)
    ensures n <= |s|
  {
    if s != [] && IsDigit(s[0]) then 1 + LeadingDigits(s[1..]) else 0
  }

  /** The leading run is all digits and is followed by the end of the text or by something else. */
  lemma {:induction false} LeadingDigitsSpec(s: string)
    ensures AllDigits(s[..LeadingDigits(s)])
    ensures LeadingDigits(s) == |s| || !IsDigit(s[LeadingDigits(s)])
  {
    if s != [] && IsDigit(s[0]) {
      LeadingDigitsSpec(s[1..]);
      assert s[..LeadingDigits(s)] == [s[0]] + s[1..][..LeadingDigits(s[1..])];
    }
  }

  /** `(\d+):(\d+):` matches at the start of `s`. */
  predicate NumbersFollow(s: string) {
    var d1 := LeadingDigits(s);
    0 < d1 < |s| && s[d1] == ':'
    && var t := s[d1 + 1..];
    var d2 := LeadingDigits(t);
    0 < d2 < |t| && t[d2] == ':'
  }

  /** `:(\d+):(\d+):` matches at position `j`. */
  predicate NumbersAt(line: string, j: nat) {
    j < |line| && line[j] == ':' && NumbersFollow(line[j + 1..])
  }

  /** No line break in `line[start..end]` (`.` does not match one). */
  predicate NoBreak(line: string, start: nat, end: nat)
    requires start <= end <= |line|
  {
    forall k :: start <= k < end ==> line[k] != '\n'
  }

  /** A filename `(.+?)` starting at `start` may end at `j`. */
  predicate IsFilenameEnd(line: string, start: nat, j: nat) {
    start < j < |line| && NoBreak(line, start, j) && NumbersAt(line, j)
  }

  /** The non-greedy search: the first `j` at or after `from` where the filename may end. */
  function FindFilenameEnd(line: string, start: nat, from: nat): (r: Option<nat>)
    requires start < from <= |line| && NoBreak(line, start, from)
    ensures r.Some? ==> start < r.value && NumbersAt(line, r.value)
    decreases |line| - from
  {
    if from == |line| then None
    else if NumbersAt(line, from) then Some(from)
    else if line[from] == '\n' then None
    else FindFilenameEnd(line, start, from + 1)
  }

  /** The search finds the first place the filename can end, and finds none only when there is none. */
  lemma FindFilenameEndSpec(line: string, start: nat, from: nat)
    requires start < from <= |line| && NoBreak(line, start, from)
    ensures var r := FindFilenameEnd(line, start, from);
      && (r.Some? ==> from <= r.value && IsFilenameEnd(line, start, r.value))
      && (r.Some? ==> forall k :: from <= k < r.value ==> !IsFilenameEnd(line, start, k))
      && (r.None? ==> forall k :: from <= k ==> !IsFilenameEnd(line, start, k))
  {
    if FindFilenameEnd(line, start, from).Some? {
      FindFilenameEndFound(line, start, from);
    } else {
      FindFilenameEndNone(line, start, from);
    }
  }

  /** A place the search finds is the first one from `from` where the filename can end. */
  lemma {:induction false} FindFilenameEndFound(line: string, start: nat, from: nat)
    requires start < from <= |line| && NoBreak(line, start, from)
    requires FindFilenameEnd(line, start, from).Some?
    ensures var j := FindFilenameEnd(line, start, from).value;
      from <= j && IsFilenameEnd(line, start, j)
      && forall k :: from <= k < j ==> !IsFilenameEnd(line, start, k)
    decreases |line| - from
  {
    if !NumbersAt(line, from) {
      assert !IsFilenameEnd(line, start, from);
      assert NoBreak(line, start, from + 1);
      FindFilenameEndFound(line, start, from + 1);
    }
  }

  /** When the search finds nothing, the filename can end nowhere from `from` on. */
  lemma {:induction false} FindFilenameEndNone(line: string, start: nat, from: nat)
    requires start < from <= |line| && NoBreak(line, start, from)
    requires FindFilenameEnd(line, start, from).None?
    ensures forall k :: from <= k ==> !IsFilenameEnd(line, start, k)
    decreases |line| - from
  {
    if from < |line| {
      assert !IsFilenameEnd(line, start, from);
      if line[from] == '\n' {
        forall k | from < k ensures !IsFilenameEnd(line, start, k) {
          if k < |line| {
            assert !NoBreak(line, start, k) by { assert start <= from < k && line[from] == '\n'; }
          }
        }
      } else {
        assert NoBreak(line, start, from + 1);
        FindFilenameEndNone(line, start, from + 1);
      }
    }
  }

  /** `(.*)`: the text up to the first line break. */
  function UpToBreak(s: string): (r: string)
    ensures r <= s && '\n' !in r
    ensures |r| == |s| || s[|r|] == '\n'
  {
    if s == [] || s[0] == '\n' then [] else [s[0]] + UpToBreak(s[1..])
  }

  /** `(\d+):(\d+): ?(.*)` read at the start of `s`. */
  function NumbersAndMessage(s: string): (r: (nat, nat, string))
    requires NumbersFollow(s)
    ensures '\n' !in r.2
  {
    var d1 := LeadingDigits(s);
    var t := s[d1 + 1..];
    var d2 := LeadingDigits(t);
    var rest := t[d2 + 1..];
    LeadingDigitsSpec(s);
    LeadingDigitsSpec(t);
    (DigitsValue(s[..d1]), DigitsValue(t[..d2]), UpToBreak(if " " <= rest then rest[1..] else rest))
  }

  /** The entry whose filename is `line[start..j]`, with the rest of the pattern read at `j`. */
  function EntryAt(line: string, start: nat, j: nat): (e: LintEntry)
    requires start < j && NumbersAt(line, j)
    ensures e.filename == line[start..j] && '\n' !in e.message
  {
    var (l, c, m) := NumbersAndMessage(line[j + 1..]);
    LintEntry(line[start..j], l, c, m)
  }

  /** `filename` is the shortest text from `start` that the rest of the pattern can follow. */
  ghost predicate ShortestFilename(line: string, start: nat, filename: string) {
    IsFilenameEnd(line, start, start + |filename|)
    && line[start..start + |filename|] == filename
    && forall k :: start < k < start + |filename| ==> !IsFilenameEnd(line, start, k)
  }

  /** The pattern, less its optional `./`, matched from `start`. */
  function MatchAt(line: string, start: nat): (r: Option<LintEntry>)
    ensures r.Some? ==> '\n' !in r.value.message
  {
    if start >= |line| || line[start] == '\n' then None
    else
      match FindFilenameEnd(line, start, start + 1)
      case None => None
      case Some(j) => Some(EntryAt(line, start, j))
  }

  /** A match from `start` takes the shortest filename; there is none when no filename can end anywhere. */
  lemma MatchAtSpec(line: string, start: nat)
    ensures var r := MatchAt(line, start);
      && (r.Some? ==> ShortestFilename(line, start, r.value.filename))
      && (r.None? ==> forall k :: !IsFilenameEnd(line, start, k))
  {
    if start < |line| && line[start] != '\n' {
      FindFilenameEndSpec(line, start, start + 1);
    }
  }

  /**
   * `parse_lint_line`. The optional `./` is tried first; when the rest of the pattern
   * cannot match after it, the regex backtracks and matches from the first character.
   */
  function ParseLintLine(line: string): (r: Result<LintEntry, LintError>)
    ensures r.Err? ==> r.error == MalformedLintLine(line)
    ensures r.Ok? ==> '\n' !in r.value.message
  {
    var m := if "./" <= line && MatchAt(line, 2).Some? then MatchAt(line, 2) else MatchAt(line, 0);
    match m
    case None => Err(MalformedLintLine(line))
    case Some(e) => Ok(e)
  }

  // ---------------------------------------------------------------- properties

  /** A filename end found after `./` is also one for a match from the first character. */
  lemma EndAfterDotSlash(line: string, j: nat)
    requires "./" <= line && IsFilenameEnd(line, 2, j)
    ensures IsFilenameEnd(line, 0, j)
  {
    assert line[0] == '.' && line[1] == '/';
  }

  /**
   * The entry's filename is the shortest one after an optional `./`; the `./` is
   * consumed whenever the rest of the pattern can match after it.
   */
  lemma ParseLintLineFilename(line: string)
    requires ParseLintLine(line).Ok?
    ensures var f := ParseLintLine(line).value.filename;
      if "./" <= line && exists j :: IsFilenameEnd(line, 2, j)
      then ShortestFilename(line, 2, f)
      else ShortestFilename(line, 0, f)
  {
    var e := ParseLintLine(line).value;
    if "./" <= line && MatchAt(line, 2).Some? {
      assert e == MatchAt(line, 2).value;
      MatchAtSpec(line, 2);
      assert IsFilenameEnd(line, 2, 2 + |e.filename|);
    } else {
      assert e == MatchAt(line, 0).value;
      MatchAtSpec(line, 0);
      if "./" <= line {
        MatchAtSpec(line, 2);
      }
    }
  }

  /** The line is rejected exactly when no filename from the first character can be followed by `:digits:digits:`. */
  lemma ParseLintLineFails(line: string)
    ensures ParseLintLine(line).Err? <==> forall j :: !IsFilenameEnd(line, 0, j)
  {
    MatchAtSpec(line, 0);
    MatchAtSpec(line, 2);
    if "./" <= line && MatchAt(line, 2).Some? {
      var e := MatchAt(line, 2).value;
      EndAfterDotSlash(line, 2 + |e.filename|);
    }
  }

  /** A number followed by a colon. */
  lemma {:induction false} NumberThenColon(d: string, q: string)
    requires AllDigits(d)
    ensures var s := d + (":" + q);
      LeadingDigits(s) == |d| && s[|d|] == ':' && s[..|d|] == d && s[|d| + 1..] == q
  {
    var s := d + (":" + q);
    if d != [] {
      NumberThenColon(d[1..], q);
      assert s[1..] == d[1..] + (":" + q);
    }
    assert s[..|d|] == d;
    assert s[|d| + 1..] == q;
  }

  /** Reading `l:c:after` gives back `l`, `c` and the message in `after`. */
  lemma NumbersAndMessageOf(l: nat, c: nat, after: string)
    requires '\n' !in after
    ensures var s := NatToString(l) + (":" + (NatToString(c) + (":" + after)));
      NumbersFollow(s)
      && NumbersAndMessage(s) == (l, c, if " " <= after then after[1..] else after)
  {
    var ls, cs := NatToString(l), NatToString(c);
    var t := cs + (":" + after);
    var s := ls + (":" + t);
    NumberThenColon(ls, t);
    NumberThenColon(cs, after);
    NatToStringRoundTrip(l);
    NatToStringRoundTrip(c);
    UpToBreakWhole(if " " <= after then after[1..] else after);
  }

  /** No colon or line break where `f` sits in `line`. */
  lemma FilenameChars(line: string, start: nat, f: string)
    requires ':' !in f && '\n' !in f && start + |f| <= |line| && line[start..start + |f|] == f
    ensures forall k :: start <= k < start + |f| ==> line[k] != ':' && line[k] != '\n'
  {
    forall k | start <= k < start + |f| ensures line[k] != ':' && line[k] != '\n' {
      assert line[k] == line[start..start + |f|][k - start];
    }
  }

  /** When no colon or line break comes between `start` and `j`, the search stops at `j` if it can. */
  lemma FirstEndAt(line: string, start: nat, j: nat)
    requires start < j <= |line| && NumbersAt(line, j)
    requires forall k :: start <= k < j ==> line[k] != ':' && line[k] != '\n'
    ensures FindFilenameEnd(line, start, start + 1) == Some(j)
  {
    FindFilenameEndSpec(line, start, start + 1);
    assert IsFilenameEnd(line, start, j);
    forall k | start < k < j ensures !IsFilenameEnd(line, start, k) {
      assert line[k] != ':';
    }
  }

  /**
   * A filename `f` without colons or line breaks at `start`, then a colon and
   * `l:c:` with the message: the match from `start` reads exactly these.
   */
  lemma MatchAfter(line: string, start: nat, f: string, numbers: string)
    requires f != [] && ':' !in f && '\n' !in f && NumbersFollow(numbers)
    requires start + |f| < |line| && line[start..start + |f|] == f
    requires line[start + |f|] == ':' && line[start + |f| + 1..] == numbers
    ensures var (l, c, m) := NumbersAndMessage(numbers);
      MatchAt(line, start) == Some(LintEntry(f, l, c, m))
  {
    var j := start + |f|;
    assert NumbersAt(line, j);
    FilenameChars(line, start, f);
    FirstEndAt(line, start, j);
    MatchAtEnd(line, start, j);
    EntryAtParts(line, start, j, f, numbers);
  }

  /** Once the search stops at `j`, the match is the entry read there. */
  lemma MatchAtEnd(line: string, start: nat, j: nat)
    requires start < |line| && line[start] != '\n'
    requires FindFilenameEnd(line, start, start + 1) == Some(j)
    ensures start < j && NumbersAt(line, j)
    ensures MatchAt(line, start) == Some(EntryAt(line, start, j))
  {
  }

  /** The entry read at `j` is the filename before it and the numbers and message after it. */
  lemma EntryAtParts(line: string, start: nat, j: nat, f: string, numbers: string)
    requires start < j && NumbersAt(line, j)
    requires line[start..j] == f && line[j + 1..] == numbers
    ensures NumbersFollow(numbers)
    ensures var (l, c, m) := NumbersAndMessage(numbers);
      EntryAt(line, start, j) == LintEntry(f, l, c, m)
  {
  }

  /** Without a leading `./`, the line reads as the match from its first character. */
  lemma ParseWithoutDotSlash(line: string, e: LintEntry)
    requires !("./" <= line) && MatchAt(line, 0) == Some(e)
    ensures ParseLintLine(line) == Ok(e)
  {
  }

  /** With a leading `./`, the line reads as the match after it when there is one. */
  lemma ParseWithDotSlash(line: string, e: LintEntry)
    requires "./" <= line && MatchAt(line, 2) == Some(e)
    ensures ParseLintLine(line) == Ok(e)
  {
  }

  /** A line that starts with a filename not starting with `./`, then a colon, does not start with `./`. */
  lemma NoDotSlash(f: string, rest: string)
    requires f != [] && !("./" <= f) && rest != [] && rest[0] == ':'
    ensures !("./" <= f + rest)
  {
    if |f| == 1 {
      assert (f + rest)[1] == ':';
    } else {
      assert (f + rest)[..2] == f[..2];
    }
  }

  /**
   * Reading back a line written in the `file:line:column:` convention gives back its
   * parts, for a filename without colons or line breaks that does not start with `./`;
   * one space after the third colon is dropped from the message.
   */
  lemma LintLineRoundTrip(f: string, l: nat, c: nat, after: string)
    requires f != [] && ':' !in f && '\n' !in f && !("./" <= f) && '\n' !in after
    ensures ParseLintLine(f + ":" + NatToString(l) + ":" + NatToString(c) + ":" + after)
      == Ok(LintEntry(f, l, c, if " " <= after then after[1..] else after))
  {
    NumbersAndMessageOf(l, c, after);
    ParseFormatted(f, NatToString(l), NatToString(c), after);
  }

  /** `ParseAfterFilename`, with the numbers and the message written out. */
  lemma ParseFormatted(f: string, ls: string, cs: string, after: string)
    requires f != [] && ':' !in f && '\n' !in f && !("./" <= f)
    requires NumbersFollow(ls + (":" + (cs + (":" + after))))
    ensures var (l, c, m) := NumbersAndMessage(ls + (":" + (cs + (":" + after))));
      ParseLintLine(f + ":" + ls + ":" + cs + ":" + after) == Ok(LintEntry(f, l, c, m))
  {
    Regroup(f, ls, cs, after);
    ParseAfterFilename(f, ls + (":" + (cs + (":" + after))));
  }

  /** The fields of a lint line, grouped from the right. */
  lemma Regroup(f: string, ls: string, cs: string, after: string)
    ensures f + ":" + ls + ":" + cs + ":" + after == f + (":" + (ls + (":" + (cs + (":" + after)))))
  {
  }

  /** The fields of a lint line after `./`, grouped from the right. */
  lemma RegroupDotSlash(f: string, ls: string, cs: string, after: string)
    ensures "./" + f + ":" + ls + ":" + cs + ":" + after == "./" + (f + (":" + (ls + (":" + (cs + (":" + after))))))
  {
  }

  /** A filename without colons or line breaks, a colon, then `l:c:` and the message. */
  lemma ParseAfterFilename(f: string, numbers: string)
    requires f != [] && ':' !in f && '\n' !in f && !("./" <= f) && NumbersFollow(numbers)
    ensures var (l, c, m) := NumbersAndMessage(numbers);
      ParseLintLine(f + (":" + numbers)) == Ok(LintEntry(f, l, c, m))
  {
    var line := f + (":" + numbers);
    assert line[0..|f|] == f && line[|f|] == ':' && line[|f| + 1..] == numbers;
    MatchAfter(line, 0, f, numbers);
    NoDotSlash(f, ":" + numbers);
    ParseWithoutDotSlash(line, MatchAt(line, 0).value);
  }

  /** A `./` written in front of the filename is read back as not part of it. */
  lemma DotSlashRoundTrip(f: string, l: nat, c: nat, after: string)
    requires f != [] && ':' !in f && '\n' !in f && '\n' !in after
    ensures ParseLintLine("./" + f + ":" + NatToString(l) + ":" + NatToString(c) + ":" + after)
      == Ok(LintEntry(f, l, c, if " " <= after then after[1..] else after))
  {
    NumbersAndMessageOf(l, c, after);
    DotSlashFormatted(f, NatToString(l), NatToString(c), after);
  }

  /** `DotSlashThenFilename`, with the numbers and the message written out. */
  lemma DotSlashFormatted(f: string, ls: string, cs: string, after: string)
    requires f != [] && ':' !in f && '\n' !in f
    requires NumbersFollow(ls + (":" + (cs + (":" + after))))
    ensures var (l, c, m) := NumbersAndMessage(ls + (":" + (cs + (":" + after))));
      ParseLintLine("./" + f + ":" + ls + ":" + cs + ":" + after) == Ok(LintEntry(f, l, c, m))
  {
    RegroupDotSlash(f, ls, cs, after);
    DotSlashThenFilename(f, ls + (":" + (cs + (":" + after))));
  }

  /** `./`, a filename without colons or line breaks, a colon, then `l:c:` and the message. */
  lemma DotSlashThenFilename(f: string, numbers: string)
    requires f != [] && ':' !in f && '\n' !in f && NumbersFollow(numbers)
    ensures var (l, c, m) := NumbersAndMessage(numbers);
      ParseLintLine("./" + (f + (":" + numbers))) == Ok(LintEntry(f, l, c, m))
  {
    var line := "./" + (f + (":" + numbers));
    var j := 2 + |f|;
    assert line[2..j] == f && line[j] == ':' && line[j + 1..] == numbers;
    MatchAfter(line, 2, f, numbers);
    assert "./" <= line;
    ParseWithDotSlash(line, MatchAt(line, 2).value);
  }

  /** `(.*)` takes all of a text without line breaks. */
  lemma {:induction false} UpToBreakWhole(s: string)
    requires '\n' !in s
    ensures UpToBreak(s) == s
  {
    if s != [] {
      assert '\n' !in s[1..] by {
        forall k | 0 <= k < |s[1..]| ensures s[1..][k] != '\n' {
          assert s[1..][k] == s[k + 1];
        }
      }
      UpToBreakWhole(s[1..]);
    }
  }

  // ---------------------------------------------------------------- docstring examples

  /** The numerals of the examples below. */
  lemma ExampleNumerals()
    ensures NatToString(0) == "0" && NatToString(1) == "1" && NatToString(2) == "2"
    ensures NatToString(50) == "50" && NatToString(123) == "123"
  {
    assert NatToString(5) == "5";
    assert NatToString(12) == "12" by { assert NatToString(1) == "1"; }
  }

  /** The first docstring example of `parse_lint_line`. */
  lemma ParseLintLineExampleSimple()
    ensures ParseLintLine("foo.txt:1:2: bar") == Ok(LintEntry("foo.txt", 1, 2, "bar"))
  {
    ExampleNumerals();
    assert "foo.txt"[1] == 'o';
    assert "foo.txt:1:2: bar" == "foo.txt" + ":" + "1" + ":" + "2" + ":" + " bar";
    LintLineRoundTrip("foo.txt", 1, 2, " bar");
  }

  /** The second docstring example: numbers of several digits. */
  lemma ParseLintLineExampleWide()
    ensures ParseLintLine("foo.txt:123:50: bar") == Ok(LintEntry("foo.txt", 123, 50, "bar"))
  {
    ExampleNumerals();
    assert "foo.txt"[1] == 'o';
    assert "foo.txt:123:50: bar" == "foo.txt" + ":" + "123" + ":" + "50" + ":" + " bar";
    LintLineRoundTrip("foo.txt", 123, 50, " bar");
  }

  /** The third docstring example: nothing after the third colon. */
  lemma ParseLintLineExampleNoMessage()
    ensures ParseLintLine("foo.txt:0:1:") == Ok(LintEntry("foo.txt", 0, 1, ""))
  {
    ExampleNumerals();
    assert "foo.txt"[1] == 'o';
    assert "foo.txt:0:1:" == "foo.txt" + ":" + "0" + ":" + "1" + ":" + "";
    LintLineRoundTrip("foo.txt", 0, 1, "");
  }

  /** The fourth docstring example: a directory and a space in the filename. */
  lemma ParseLintLineExampleSpace()
    ensures ParseLintLine("foo/foo bar.txt:0:1: baz") == Ok(LintEntry("foo/foo bar.txt", 0, 1, "baz"))
  {
    ExampleNumerals();
    assert "foo/foo bar.txt"[1] == 'o';
    assert "foo/foo bar.txt:0:1: baz" == "foo/foo bar.txt" + ":" + "0" + ":" + "1" + ":" + " baz";
    LintLineRoundTrip("foo/foo bar.txt", 0, 1, " baz");
  }

  /** A `./` in front of the filename is not part of it. */
  lemma ParseLintLineExampleDotSlash()
    ensures ParseLintLine("./foo.txt:1:2: bar") == Ok(LintEntry("foo.txt", 1, 2, "bar"))
  {
    ExampleNumerals();
    assert "./foo.txt:1:2: bar" == "./" + "foo.txt" + ":" + "1" + ":" + "2" + ":" + " bar";
    DotSlashRoundTrip("foo.txt", 1, 2, " bar");
  }
}
