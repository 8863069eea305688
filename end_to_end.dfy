/**
 * A whole run of `handle_range` on a small diff and lint report: one hunk adding lines
 * 10 to 12 of `src/a.py`; a finding on line 11 of that file is printed, one on line 50
 * and one in a file the diff does not touch are not.
 */
module EndToEnd {
  import opened Wrappers
  import opened Text
  import opened Git
  import opened UnixLint
  import opened Cli

  /** The lines of `git diff --unified=0` for the change. */
  const DiffText: seq<string> := ["diff --git a/src/a.py b/src/a.py", "--- a/src/a.py", "+++ b/src/a.py", "@@ -5,0 +10,3 @@"]

  /** The hunk of the change: nothing removed after line 5, lines 10 to 12 added. */
  const Added := Hunk(LineRange(5, 0), LineRange(10, 3), "")

  /** The lint report. */
  const LintText: seq<string> := ["src/a.py:11:1: unused import", "src/a.py:50:1: line too long", "src/b.py:1:1: x"]

  /** The dictionary `handle_range` builds for the change. */
  const Changed: DiffIndex := map[Some("src/a.py") := [Added]]

  lemma HeaderOfExample()
    ensures "@@ -5,0 +10,3 @@" == "@@ " + "-5,0" + " " + "+10,3" + " @@" + ""
  {
  }

  lemma RangesOfExample()
    ensures FormatRange('-', 5, 0) == "-5,0"
    ensures FormatRange('+', 10, 3) == "+10,3"
  {
    assert NatToString(0) == "0" && NatToString(5) == "5" && NatToString(3) == "3";
    assert NatToString(10) == "10" by { assert NatToString(1) == "1"; }
  }

  lemma RangeFieldsOfExample()
    ensures IsField("-5,0") && IsField("+10,3")
    ensures ParseFileLineNumbers("-5,0") == Ok(LineRange(5, 0))
    ensures ParseFileLineNumbers("+10,3") == Ok(LineRange(10, 3))
  {
    RangesOfExample();
    RangeIsField('-', 5, 0);
    RangeIsField('+', 10, 3);
    LineNumbersRoundTrip('-', 5, 0);
    LineNumbersRoundTrip('+', 10, 3);
  }

  lemma HunkOfExample()
    ensures ParseHunk("@@ -5,0 +10,3 @@") == Ok(Added)
  {
    RangeFieldsOfExample();
    HeaderOfExample();
    ParseHunkFields("-5,0", "+10,3", "");
  }

  /** Both sides of the diff name `src/a.py`. */
  lemma NamesOfExample()
    ensures ParseGitDiffFilename("--- a/src/a.py") == "src/a.py"
    ensures ParseGitDiffFilename("+++ b/src/a.py") == "src/a.py"
  {
    assert "--- a/src/a.py" == "--- " + "a/" + "src/a.py" + "";
    FilenamePlain("--- ", "a/", "src/a.py", "");
    assert "+++ b/src/a.py" == "+++ " + "b/" + "src/a.py" + "";
    FilenamePlain("+++ ", "b/", "src/a.py", "");
  }

  /** The scanner's state after each line of the diff. */
  const AfterHeader := ScanState(None, None, Some([]), [])
  const AfterOld := AfterHeader.(srcName := Some("src/a.py"))
  const AfterNew := AfterOld.(dstName := Some("src/a.py"))
  const AfterHunk := AfterNew.(hunks := Some([Added]))

  lemma StepHeader()
    ensures Step(Initial, DiffText[0]) == Ok(AfterHeader)
  {
    assert "diff --git" <= DiffText[0] by { assert DiffText[0] == "diff --git" + " a/src/a.py b/src/a.py"; }
  }

  lemma StepOld()
    ensures Step(AfterHeader, DiffText[1]) == Ok(AfterOld)
  {
    NamesOfExample();
    assert DiffText[1][0] == '-';
    assert "--- " <= DiffText[1] by { assert DiffText[1] == "--- " + "a/src/a.py"; }
  }

  lemma StepNew()
    ensures Step(AfterOld, DiffText[2]) == Ok(AfterNew)
  {
    NamesOfExample();
    assert DiffText[2][0] == '+';
    assert "+++ " <= DiffText[2] by { assert DiffText[2] == "+++ " + "b/src/a.py"; }
  }

  lemma StepHunk()
    ensures Step(AfterNew, DiffText[3]) == Ok(AfterHunk)
  {
    HunkLineOfExample();
    AfterHunkAppends();
    StepOnHunkLine(AfterNew, DiffText[3], Added, AfterHunk);
  }

  lemma AfterHunkAppends()
    ensures AfterNew.hunks.Some? && AfterHunk == AfterNew.(hunks := Some(AfterNew.hunks.value + [Added]))
  {
    assert AfterNew.hunks.value + [Added] == [Added];
  }

  lemma HunkLineOfExample()
    ensures "@@" <= DiffText[3] && ParseHunk(DiffText[3]) == Ok(Added)
  {
    HunkLinePrefix();
    HunkOfExample();
  }

  lemma HunkLinePrefix()
    ensures DiffText[3] == "@@ -5,0 +10,3 @@" && "@@" <= DiffText[3]
  {
    assert DiffText[3] == "@@" + " -5,0 +10,3 @@";
  }

  /** A well-formed `@@` line inside a section appends its hunk. */
  lemma StepOnHunkLine(st: ScanState, line: string, hunk: Hunk, st': ScanState)
    requires "@@" <= line && ParseHunk(line) == Ok(hunk) && st.hunks.Some?
    requires st' == st.(hunks := Some(st.hunks.value + [hunk]))
    ensures Step(st, line) == Ok(st')
  {
    HunkLineOnly(line);
  }

  /** The scan yields one entry, for `src/a.py` on both sides, holding the one hunk. */
  lemma ScanOfExample()
    ensures ScanDiffLines(DiffText) == Ok([FileEntry(Some("src/a.py"), Some("src/a.py"), [Added])])
  {
    RunOfExample();
    assert Flush(AfterHunk) == [FileEntry(Some("src/a.py"), Some("src/a.py"), [Added])];
  }

  lemma RunOfExample()
    ensures Run(Initial, DiffText) == Ok(AfterHunk)
  {
    StepHeader();
    StepOld();
    StepNew();
    StepHunk();
    var lines := DiffText;
    assert lines[1..][1..][1..][1..] == [];
    assert Run(AfterHunk, lines[1..][1..][1..][1..]) == Ok(AfterHunk);
    assert Run(AfterNew, lines[1..][1..][1..]) == Ok(AfterHunk);
    assert Run(AfterOld, lines[1..][1..]) == Ok(AfterHunk);
    assert Run(AfterHeader, lines[1..]) == Ok(AfterHunk);
  }

  lemma NumeralsOfExample()
    ensures NatToString(1) == "1" && NatToString(11) == "11" && NatToString(50) == "50"
  {
    assert NatToString(5) == "5";
  }

  lemma FirstFinding()
    ensures ParseFinding(LintText[0]) == Ok(Finding("src/a.py", 11, 1))
  {
    assert "src/a.py"[0] == 's';
    NumeralsOfExample();
    assert LintText[0] == "src/a.py" + ":" + NatToString(11) + ":" + NatToString(1) + ":" + " unused import";
    LintLineRoundTrip("src/a.py", 11, 1, " unused import");
  }

  lemma SecondFinding()
    ensures ParseFinding(LintText[1]) == Ok(Finding("src/a.py", 50, 1))
  {
    assert "src/a.py"[0] == 's';
    NumeralsOfExample();
    assert LintText[1] == "src/a.py" + ":" + NatToString(50) + ":" + NatToString(1) + ":" + " line too long";
    LintLineRoundTrip("src/a.py", 50, 1, " line too long");
  }

  lemma ThirdFinding()
    ensures ParseFinding(LintText[2]) == Ok(Finding("src/b.py", 1, 1))
  {
    assert "src/b.py"[0] == 's';
    NumeralsOfExample();
    assert LintText[2] == "src/b.py" + ":" + NatToString(1) + ":" + NatToString(1) + ":" + " x";
    LintLineRoundTrip("src/b.py", 1, 1, " x");
  }

  /** Line 11 is in the added lines; line 50 is far from them; `src/b.py` is not in the diff. */
  lemma KeptOfExample()
    ensures Kept(Finding("src/a.py", 11, 1), Changed)
    ensures !Kept(Finding("src/a.py", 50, 1), Changed)
    ensures !Kept(Finding("src/b.py", 1, 1), Changed)
  {
    Utils.OverlapsRangeClosedForm(11, 1, 10, 3);
    Utils.OverlapsRangeClosedForm(50, 1, 10, 3);
    assert [Added][0] == Added;
    assert "src/b.py" != "src/a.py" by { assert "src/b.py"[4] != "src/a.py"[4]; }
  }

  /** The second loop prints the first lint line only, and stops normally. */
  lemma FilterOfExample()
    ensures Filter(LintText, Changed) == Outcome([LintText[0]], None)
  {
    FirstFinding();
    SecondFinding();
    ThirdFinding();
    KeptOfExample();
    var parsed := ParseEach(ParseFinding, LintText);
    assert parsed[0] == ParseFinding(LintText[0]);
    assert parsed[1] == ParseFinding(LintText[1]);
    assert parsed[2] == ParseFinding(LintText[2]);
    assert FilterParsed(LintText[3..], parsed[3..], Changed) == Outcome([], None);
    assert FilterParsed(LintText[2..], parsed[2..], Changed) == Outcome([], None);
    assert FilterParsed(LintText[1..], parsed[1..], Changed) == Outcome([], None);
  }

  /** `handle_range` prints the first lint line only, and stops normally. */
  lemma HandleRangeExample()
    ensures HandleRangeSpec(DiffText, LintText) == Outcome([LintText[0]], None)
  {
    ScanOfExample();
    assert Index([FileEntry(Some("src/a.py"), Some("src/a.py"), [Added])]) == Changed;
    FilterOfExample();
  }
}
