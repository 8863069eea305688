/**
 * lintlens/cli.py: `handle_range`, which keeps the lint lines that fall on lines changed
 * by a revision range.
 *
 * The diff is taken as the text `git diff` prints and the lint lines as a sequence; what
 * `handle_range` prints is returned as the sequence of lines it prints, together with the
 * exception that stops it, if any. Lines printed before an exception stay printed.
 */
module Cli {
  import opened Wrappers
  import opened Text
  import opened Git
  import opened UnixLint
  import Utils

  /** The number of lines a finding spans beyond its first: a lint tool reports one line. */
  const FindingLineCount := 1

  /** The entry `handle_range` reads from a lint line: a file and a span of its lines. */
  datatype Finding = Finding(filename: string, start: int, count: int)

  /** The exception that ends a run: a malformed diff, or a malformed lint line. */
  datatype Failure = DiffFailure(diffError: DiffError) | LintFailure(lintError: LintError)

  /** What a run prints, and the exception that stopped it, if any. */
  datatype Outcome = Outcome(printed: seq<string>, failure: Option<Failure>)

  /** The destination-name to hunks dictionary. */
  type DiffIndex = map<Option<string>, seq<Hunk>>

  /** A lint line read as a finding on its line, spanning `FindingLineCount` more. */
  function ParseFinding(line: string): (r: Result<Finding, LintError>)
    ensures r.Ok? ==> r.value.filename != [] && r.value.count == FindingLineCount
  {
    match ParseLintLine(line)
    case Err(e) => Err(e)
    case Ok(entry) =>
      MatchAtSpec(line, 0);
      MatchAtSpec(line, 2);
      Ok(Finding(entry.filename, entry.line, FindingLineCount))
  }

  /** `diff_lines` after the first loop: each entry stored under its destination name, in order. */
  function Index(entries: seq<FileEntry>): (index: DiffIndex)
    ensures forall name :: name in index ==>
      exists i :: 0 <= i < |entries| && entries[i].dstName == name && entries[i].hunks == index[name]
  {
    if entries == [] then map[]
    else
      var last := entries[|entries| - 1];
      Index(entries[..|entries| - 1])[last.dstName := last.hunks]
  }

  /** The finding's file is in the dictionary and one of its hunks overlaps the finding. */
  ghost predicate Kept(finding: Finding, index: DiffIndex) {
    Some(finding.filename) in index
    && Utils.OverlapsHunks(finding.start, finding.count, index[Some(finding.filename)])
  }

  /** Each lint line read as a finding by `parse`. */
  function ParseEach(parse: string -> Result<Finding, LintError>, lintLines: seq<string>): (parsed: seq<Result<Finding, LintError>>)
    ensures |parsed| == |lintLines|
  {
    seq(|lintLines|, i requires 0 <= i < |lintLines| => parse(lintLines[i]))
  }

  /**
   * The second loop of `handle_range`, given each line's parse: lines are printed in
   * order when kept, and the first line that did not parse stops the run.
   */
  ghost function FilterParsed(lintLines: seq<string>, parsed: seq<Result<Finding, LintError>>, index: DiffIndex): (o: Outcome)
    requires |parsed| == |lintLines|
    ensures |o.printed| <= |lintLines|
    ensures o.failure.Some? ==> o.failure.value.LintFailure?
    decreases |lintLines|
  {
    if lintLines == [] then Outcome([], None)
    else if parsed[0].Err? then Outcome([], Some(LintFailure(parsed[0].error)))
    else
      var rest := FilterParsed(lintLines[1..], parsed[1..], index);
      Outcome((if Kept(parsed[0].value, index) then [lintLines[0]] else []) + rest.printed, rest.failure)
  }

  /** One step of `FilterParsed` at line `i`. */
  lemma FilterParsedAt(lintLines: seq<string>, parsed: seq<Result<Finding, LintError>>, index: DiffIndex, i: nat)
    requires |parsed| == |lintLines| && i < |lintLines|
    ensures var rest := FilterParsed(lintLines[i + 1..], parsed[i + 1..], index);
      FilterParsed(lintLines[i..], parsed[i..], index) ==
        if parsed[i].Err? then Outcome([], Some(LintFailure(parsed[i].error)))
        else Outcome((if Kept(parsed[i].value, index) then [lintLines[i]] else []) + rest.printed, rest.failure)
  {
    assert lintLines[i..][0] == lintLines[i] && lintLines[i..][1..] == lintLines[i + 1..];
    assert parsed[i..][0] == parsed[i] && parsed[i..][1..] == parsed[i + 1..];
  }

  /** The loop has printed `printed` from the first `i` lines, and the rest of the run is still to come. */
  ghost predicate Progress(lintLines: seq<string>, parsed: seq<Result<Finding, LintError>>, index: DiffIndex, i: nat, printed: seq<string>)
    requires |parsed| == |lintLines| && i <= |lintLines|
  {
    var rest := FilterParsed(lintLines[i..], parsed[i..], index);
    FilterParsed(lintLines, parsed, index) == Outcome(printed + rest.printed, rest.failure)
  }

  /** Before the first line, nothing is printed and the whole run is still to come. */
  lemma ProgressStarts(lintLines: seq<string>, parsed: seq<Result<Finding, LintError>>, index: DiffIndex)
    requires |parsed| == |lintLines|
    ensures Progress(lintLines, parsed, index, 0, [])
  {
    assert lintLines[0..] == lintLines && parsed[0..] == parsed;
  }

  /** A line that parses moves the loop on by one line, printing the line when it is kept. */
  lemma ProgressStep(lintLines: seq<string>, parsed: seq<Result<Finding, LintError>>, index: DiffIndex, i: nat, printed: seq<string>)
    requires |parsed| == |lintLines| && i < |lintLines| && parsed[i].Ok?
    requires Progress(lintLines, parsed, index, i, printed)
    ensures Progress(lintLines, parsed, index, i + 1,
      printed + if Kept(parsed[i].value, index) then [lintLines[i]] else [])
  {
    FilterParsedAt(lintLines, parsed, index, i);
    var rest := FilterParsed(lintLines[i + 1..], parsed[i + 1..], index);
    AppendAssoc(printed, if Kept(parsed[i].value, index) then [lintLines[i]] else [], rest.printed);
  }

  /** A line that does not parse ends the run with what has been printed so far. */
  lemma ProgressStops(lintLines: seq<string>, parsed: seq<Result<Finding, LintError>>, index: DiffIndex, i: nat, printed: seq<string>)
    requires |parsed| == |lintLines| && i < |lintLines| && parsed[i].Err?
    requires Progress(lintLines, parsed, index, i, printed)
    ensures FilterParsed(lintLines, parsed, index) == Outcome(printed, Some(LintFailure(parsed[i].error)))
  {
    FilterParsedAt(lintLines, parsed, index, i);
  }

  /** After the last line, the run has printed all it prints. */
  lemma ProgressEnds(lintLines: seq<string>, parsed: seq<Result<Finding, LintError>>, index: DiffIndex, printed: seq<string>)
    requires |parsed| == |lintLines| && Progress(lintLines, parsed, index, |lintLines|, printed)
    ensures FilterParsed(lintLines, parsed, index) == Outcome(printed, None)
  {
    assert lintLines[|lintLines|..] == [] && parsed[|lintLines|..] == [];
    assert printed + [] == printed;
  }

  /** The second loop of `handle_range`. */
  ghost function Filter(lintLines: seq<string>, index: DiffIndex): Outcome {
    FilterParsed(lintLines, ParseEach(ParseFinding, lintLines), index)
  }

  /** `handle_range`: the diff must scan before any lint line is read. */
  ghost function HandleRangeSpec(diffLines: seq<string>, lintLines: seq<string>): (o: Outcome)
    ensures |o.printed| <= |lintLines|
    ensures o.failure.Some? && o.failure.value.DiffFailure? ==> o.printed == []
  {
    match ScanDiffLines(diffLines)
    case Err(e) => Outcome([], Some(DiffFailure(e)))
    case Ok(entries) => Filter(lintLines, Index(entries))
  }

  /** The copy of `check_line_overlap_range` in cli.py, which is the one in utils.py. */
  method CheckLineOverlapRange(start: int, count: int, rangeStart: int, rangeCount: int) returns (r: bool)
    ensures r == Utils.OverlapsRange(start, count, rangeStart, rangeCount)
  {
    r := Utils.CheckLineOverlapRange(start, count, rangeStart, rangeCount);
  }

  /** The copy of `check_line_overlap_hunks` in cli.py, which is the one in utils.py. */
  method CheckLineOverlapHunks(start: int, count: int, hunks: seq<Hunk>) returns (r: bool)
    ensures r == Utils.OverlapsHunks(start, count, hunks)
  {
    r := Utils.CheckLineOverlapHunks(start, count, hunks);
  }

  /** The first loop of `handle_range`: store each entry's hunks under its destination name. */
  method BuildIndex(entries: seq<FileEntry>) returns (diffLines: DiffIndex)
    ensures diffLines == Index(entries)
  {
    diffLines := map[];
    for i := 0 to |entries|
      invariant diffLines == Index(entries[..i])
    {
      assert entries[..i + 1][..i] == entries[..i];
      diffLines := diffLines[entries[i].dstName := entries[i].hunks];
    }
    assert entries[..|entries|] == entries;
  }

  /** The test inside the second loop: the finding's file is in the dictionary and one of its hunks overlaps it. */
  method KeepFinding(finding: Finding, diffLines: DiffIndex) returns (keep: bool)
    ensures keep == Kept(finding, diffLines)
  {
    keep := false;
    if Some(finding.filename) in diffLines {
      var hunks := diffLines[Some(finding.filename)];
      keep := CheckLineOverlapHunks(finding.start, finding.count, hunks);
    }
  }

  /**
   * One pass of the second loop of `handle_range`: parse line `i`, stop on a failure,
   * otherwise print the line when it is kept.
   */
  method FilterLine(lintLines: seq<string>, parse: string -> Result<Finding, LintError>, diffLines: DiffIndex, i: nat, printed: seq<string>)
    returns (printed': seq<string>, failure: Option<Failure>)
    requires i < |lintLines| && Progress(lintLines, ParseEach(parse, lintLines), diffLines, i, printed)
    ensures failure.None? ==> Progress(lintLines, ParseEach(parse, lintLines), diffLines, i + 1, printed')
    ensures failure.Some? ==> Outcome(printed', failure) == FilterParsed(lintLines, ParseEach(parse, lintLines), diffLines)
  {
    ghost var all := ParseEach(parse, lintLines);
    var parsed := parse(lintLines[i]);
    assert all[i] == parsed;
    if parsed.Err? {
      ProgressStops(lintLines, all, diffLines, i, printed);
      return printed, Some(LintFailure(parsed.error));
    }
    var keep := KeepFinding(parsed.value, diffLines);
    ProgressStep(lintLines, all, diffLines, i, printed);
    printed' := if keep then printed + [lintLines[i]] else printed;
    failure := None;
  }

  /**
   * The second loop of `handle_range`: print each lint line kept, until a line fails to
   * parse. The parser is a parameter, as `handle_range` takes it from another module.
   */
  method FilterLines(lintLines: seq<string>, parse: string -> Result<Finding, LintError>, diffLines: DiffIndex)
    returns (printed: seq<string>, failure: Option<Failure>)
    ensures Outcome(printed, failure) == FilterParsed(lintLines, ParseEach(parse, lintLines), diffLines)
  {
    printed := [];
    ProgressStarts(lintLines, ParseEach(parse, lintLines), diffLines);
    for i := 0 to |lintLines|
      invariant Progress(lintLines, ParseEach(parse, lintLines), diffLines, i, printed)
    {
      printed, failure := FilterLine(lintLines, parse, diffLines, i, printed);
      if failure.Some? {
        return;
      }
    }
    ProgressEnds(lintLines, ParseEach(parse, lintLines), diffLines, printed);
    failure := None;
  }

  /** `handle_range` on the output of `git diff` and the lint lines. */
  method HandleRange(diffOutput: string, lintLines: seq<string>) returns (printed: seq<string>, failure: Option<Failure>)
    ensures Outcome(printed, failure) == HandleRangeSpec(Split(diffOutput, '\n'), lintLines)
  {
    var scanned := GetDiffLines(diffOutput);
    if scanned.Err? {
      return [], Some(DiffFailure(scanned.error));
    }
    var diffLines := BuildIndex(scanned.value);
    printed, failure := FilterLines(lintLines, ParseFinding, diffLines);
  }

  // ---------------------------------------------------------------- properties

  /** A key is in the dictionary exactly when some entry has it as its destination name. */
  lemma {:induction false} IndexKeys(entries: seq<FileEntry>, name: Option<string>)
    ensures name in Index(entries) <==> exists i :: 0 <= i < |entries| && entries[i].dstName == name
  {
    if entries != [] {
      var init := entries[..|entries| - 1];
      IndexKeys(init, name);
      if exists i :: 0 <= i < |init| && init[i].dstName == name {
        var i :| 0 <= i < |init| && init[i].dstName == name;
        assert entries[i] == init[i];
      }
      if exists i :: 0 <= i < |entries| && entries[i].dstName == name {
        var i :| 0 <= i < |entries| && entries[i].dstName == name;
        if i < |init| {
          assert init[i] == entries[i];
        }
      }
    }
  }

  /** When several entries share a destination name, the last one's hunks are the ones kept. */
  lemma {:induction false} IndexLastWins(entries: seq<FileEntry>, i: nat)
    requires i < |entries|
    requires forall j :: i < j < |entries| ==> entries[j].dstName != entries[i].dstName
    ensures entries[i].dstName in Index(entries)
    ensures Index(entries)[entries[i].dstName] == entries[i].hunks
  {
    var init := entries[..|entries| - 1];
    if i < |entries| - 1 {
      assert init[i] == entries[i];
      forall j | i < j < |init| ensures init[j].dstName != init[i].dstName {
        assert init[j] == entries[j];
      }
      IndexLastWins(init, i);
    }
  }

  /**
   * The run stops exactly when some line fails to parse, and then with the first such
   * line's error.
   */
  lemma {:induction false} FilterParsedFailure(lintLines: seq<string>, parsed: seq<Result<Finding, LintError>>, index: DiffIndex)
    requires |parsed| == |lintLines|
    ensures FilterParsed(lintLines, parsed, index).failure.None? <==> forall i :: 0 <= i < |parsed| ==> parsed[i].Ok?
    ensures FilterParsed(lintLines, parsed, index).failure.Some? ==>
      exists k :: 0 <= k < |parsed| && parsed[k].Err?
        && FilterParsed(lintLines, parsed, index).failure == Some(LintFailure(parsed[k].error))
        && forall j :: 0 <= j < k ==> parsed[j].Ok?
    decreases |lintLines|
  {
    if lintLines != [] && parsed[0].Ok? {
      var tail := parsed[1..];
      FilterParsedFailure(lintLines[1..], tail, index);
      assert forall i :: 0 < i < |parsed| ==> parsed[i] == tail[i - 1];
      if FilterParsed(lintLines[1..], tail, index).failure.Some? {
        var k :| 0 <= k < |tail| && tail[k].Err?
          && FilterParsed(lintLines[1..], tail, index).failure == Some(LintFailure(tail[k].error))
          && forall j :: 0 <= j < k ==> tail[j].Ok?;
        assert parsed[k + 1] == tail[k];
      }
    }
  }

  /** No lint line is printed more often than it occurs. */
  lemma {:induction false} FilterParsedFromInput(lintLines: seq<string>, parsed: seq<Result<Finding, LintError>>, index: DiffIndex)
    requires |parsed| == |lintLines|
    ensures multiset(FilterParsed(lintLines, parsed, index).printed) <= multiset(lintLines)
    decreases |lintLines|
  {
    if lintLines != [] && parsed[0].Ok? {
      FilterParsedFromInput(lintLines[1..], parsed[1..], index);
      assert lintLines == [lintLines[0]] + lintLines[1..];
    }
  }

  /**
   * `idx` lists, in increasing order, the positions of the lint lines that `printed`
   * copies; each of them parsed and was kept.
   */
  ghost predicate Selects(printed: seq<string>, lintLines: seq<string>, parsed: seq<Result<Finding, LintError>>, index: DiffIndex, idx: seq<int>)
    requires |parsed| == |lintLines|
  {
    |idx| == |printed|
    && (forall k :: 0 <= k < |idx| ==>
          0 <= idx[k] < |lintLines| && lintLines[idx[k]] == printed[k]
          && parsed[idx[k]].Ok? && Kept(parsed[idx[k]].value, index))
    && (forall k, m :: 0 <= k < m < |idx| ==> idx[k] < idx[m])
  }

  /** `idx` selects the printed lines and, when the run does not stop, every line that is kept. */
  ghost predicate Accounts(o: Outcome, lintLines: seq<string>, parsed: seq<Result<Finding, LintError>>, index: DiffIndex, idx: seq<int>)
    requires |parsed| == |lintLines|
  {
    Selects(o.printed, lintLines, parsed, index, idx)
    && (o.failure.None? ==> forall i :: 0 <= i < |lintLines| && parsed[i].Ok? && Kept(parsed[i].value, index) ==> i in idx)
  }

  /** Each position one further on. */
  function Shift(idx: seq<int>): (r: seq<int>)
    ensures |r| == |idx| && forall k :: 0 <= k < |idx| ==> r[k] == idx[k] + 1
  {
    seq(|idx|, k requires 0 <= k < |idx| => idx[k] + 1)
  }

  /**
   * The printed lines are a subsequence of the lint lines: they are the lines that parsed
   * and were kept, in their original order, each once; when the run does not stop, every
   * line that is kept is printed.
   */
  lemma {:induction false} FilterParsedSubsequence(lintLines: seq<string>, parsed: seq<Result<Finding, LintError>>, index: DiffIndex)
    requires |parsed| == |lintLines|
    ensures exists idx :: Accounts(FilterParsed(lintLines, parsed, index), lintLines, parsed, index, idx)
    decreases |lintLines|
  {
    var o := FilterParsed(lintLines, parsed, index);
    if lintLines == [] || parsed[0].Err? {
      assert Accounts(o, lintLines, parsed, index, []);
    } else {
      var lines', parsed' := lintLines[1..], parsed[1..];
      var rest := FilterParsed(lines', parsed', index);
      FilterParsedSubsequence(lines', parsed', index);
      var r :| Accounts(rest, lines', parsed', index, r);
      var kept := Kept(parsed[0].value, index);
      var idx := (if kept then [0] else []) + Shift(r);
      assert o == Outcome((if kept then [lintLines[0]] else []) + rest.printed, rest.failure);
      SelectsCons(lintLines, parsed, index, rest.printed, r);
      if o.failure.None? {
        ShiftComplete(lintLines, parsed, index, r);
      }
      assert Accounts(o, lintLines, parsed, index, idx);
    }
  }

  /** Every kept position after the first line is listed in `r`: then every kept position is listed once `r` is moved on. */
  lemma ShiftComplete(lintLines: seq<string>, parsed: seq<Result<Finding, LintError>>, index: DiffIndex, r: seq<int>)
    requires |parsed| == |lintLines| && lintLines != [] && parsed[0].Ok?
    requires forall i :: 0 <= i < |lintLines| - 1 && parsed[1..][i].Ok? && Kept(parsed[1..][i].value, index) ==> i in r
    ensures var idx := (if Kept(parsed[0].value, index) then [0] else []) + Shift(r);
      forall i :: 0 <= i < |lintLines| && parsed[i].Ok? && Kept(parsed[i].value, index) ==> i in idx
  {
    var idx := (if Kept(parsed[0].value, index) then [0] else []) + Shift(r);
    forall i | 0 <= i < |lintLines| && parsed[i].Ok? && Kept(parsed[i].value, index) ensures i in idx {
      if i > 0 {
        assert parsed[1..][i - 1] == parsed[i];
        var k :| 0 <= k < |r| && r[k] == i - 1;
        assert idx[|idx| - |r| + k] == i;
      } else {
        assert idx[0] == 0;
      }
    }
  }

  /** The positions after the first line, moved on by one, with the first line in front when it is kept. */
  lemma SelectsCons(lintLines: seq<string>, parsed: seq<Result<Finding, LintError>>, index: DiffIndex, restPrinted: seq<string>, r: seq<int>)
    requires |parsed| == |lintLines| && lintLines != [] && parsed[0].Ok?
    requires Selects(restPrinted, lintLines[1..], parsed[1..], index, r)
    ensures var kept := Kept(parsed[0].value, index);
      Selects((if kept then [lintLines[0]] else []) + restPrinted, lintLines, parsed, index,
        (if kept then [0] else []) + Shift(r))
  {
    var kept := Kept(parsed[0].value, index);
    var printed := (if kept then [lintLines[0]] else []) + restPrinted;
    var idx := (if kept then [0] else []) + Shift(r);
    var d := if kept then 1 else 0;
    forall k | 0 <= k < |idx|
      ensures 0 <= idx[k] < |lintLines| && lintLines[idx[k]] == printed[k]
        && parsed[idx[k]].Ok? && Kept(parsed[idx[k]].value, index)
    {
      if k >= d {
        assert idx[k] == r[k - d] + 1 && printed[k] == restPrinted[k - d];
        assert lintLines[1..][r[k - d]] == lintLines[idx[k]] && parsed[1..][r[k - d]] == parsed[idx[k]];
      }
    }
    forall k, m | 0 <= k < m < |idx| ensures idx[k] < idx[m] {
      if k >= d {
        assert idx[k] == r[k - d] + 1 && idx[m] == r[m - d] + 1;
      } else {
        assert idx[m] == r[m - d] + 1;
      }
    }
  }

  /**
   * Lines that all parse can be run in two parts: the whole run prints what the first
   * part prints, then what the second part prints, and ends as the second part does.
   */
  lemma {:induction false} FilterParsedAppend(
    lines: seq<string>, parsed: seq<Result<Finding, LintError>>,
    more: seq<string>, moreParsed: seq<Result<Finding, LintError>>, index: DiffIndex)
    requires |parsed| == |lines| && |moreParsed| == |more|
    requires forall i :: 0 <= i < |parsed| ==> parsed[i].Ok?
    ensures FilterParsed(lines + more, parsed + moreParsed, index) == Outcome(
      FilterParsed(lines, parsed, index).printed + FilterParsed(more, moreParsed, index).printed,
      FilterParsed(more, moreParsed, index).failure)
    decreases |lines|
  {
    if lines == [] {
      assert lines + more == more && parsed + moreParsed == moreParsed;
    } else {
      var all := lines + more;
      var allParsed := parsed + moreParsed;
      assert all[0] == lines[0] && allParsed[0] == parsed[0];
      assert all[1..] == lines[1..] + more && allParsed[1..] == parsed[1..] + moreParsed;
      FilterParsedAppend(lines[1..], parsed[1..], more, moreParsed, index);
      var emitted := if Kept(parsed[0].value, index) then [lines[0]] else [];
      AppendAssoc(emitted, FilterParsed(lines[1..], parsed[1..], index).printed, FilterParsed(more, moreParsed, index).printed);
    }
  }

  /**
   * A malformed line stops the run: what is printed is what the lines before it print on
   * their own, and nothing after it is looked at.
   */
  lemma StopsAtMalformed(lintLines: seq<string>, parsed: seq<Result<Finding, LintError>>, index: DiffIndex, k: nat)
    requires |parsed| == |lintLines| && k < |lintLines|
    requires parsed[k].Err? && forall j :: 0 <= j < k ==> parsed[j].Ok?
    ensures FilterParsed(lintLines, parsed, index) ==
      Outcome(FilterParsed(lintLines[..k], parsed[..k], index).printed, Some(LintFailure(parsed[k].error)))
  {
    assert lintLines == lintLines[..k] + lintLines[k..] && parsed == parsed[..k] + parsed[k..];
    assert lintLines[k..][0] == lintLines[k] && parsed[k..][0] == parsed[k];
    FilterParsedAppend(lintLines[..k], parsed[..k], lintLines[k..], parsed[k..], index);
  }

  /** `handle_range` stops on a lint line exactly when some lint line does not match the lint pattern. */
  lemma FilterFailsOnMalformed(lintLines: seq<string>, index: DiffIndex)
    ensures Filter(lintLines, index).failure.None? <==> forall i :: 0 <= i < |lintLines| ==> ParseLintLine(lintLines[i]).Ok?
  {
    var parsed := ParseEach(ParseFinding, lintLines);
    FilterParsedFailure(lintLines, parsed, index);
    forall i | 0 <= i < |lintLines| ensures parsed[i].Ok? <==> ParseLintLine(lintLines[i]).Ok? {
      assert parsed[i] == ParseFinding(lintLines[i]);
    }
  }
}
