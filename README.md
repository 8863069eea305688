# lintlens in Dafny

lintlens reads the output of `git diff --unified=0` for a revision range. It then reads
the lines of a lint report and prints those whose file the diff touches, and whose lines
`start..start+count` share a line with `c-1..c+d+1` for some hunk `+c,d` of that file
(`Utils.OverlapsRangeClosedForm`). A finding on one line is therefore printed from two
lines before a hunk's first new line to two lines after its last, and a hunk that only
deletes still keeps findings around the place of the deletion. This project models that
core and proves properties of it:

- `git.dfy` (module `Git`) models `lintlens/git.py`:
  - `get_diff_lines` has two forms. One is a fold over the diff lines (`Step`, `Run`,
    `ScanDiffLines`). The other is a loop method (`GetDiffLines`) proved equal to the fold.
  - It also models `parse_git_diff_filename`, `parse_hunk` with its header regex, and
    `parse_file_line_numbers`.
- `unix_lint.dfy` (module `UnixLint`) models `lintlens/lint/unix.py`:
  - the `LintEntry` record;
  - `parse_lint_line` with its pattern `(?:\./)?(.+?):(\d+):(\d+): ?(.*)`. Its non-greedy
    filename group is a left-to-right search for the first place where the filename may end.
- `utils.dfy` (module `Utils`) models the two overlap checks of `lintlens/utils.py`:
  - loop methods that return early, each proved equal to a predicate ("some line of
    the finding lies within the threshold of the hunk's new-side range");
  - the closed form and boundary behaviour of those predicates.
- `cli.dfy` (module `Cli`) models `handle_range` of `lintlens/cli.py`:
  - the dictionary from destination name to hunks;
  - the lint-line loop, with what it prints and the exception that stops it;
  - the copies of the overlap checks in that file.
- `text.dfy` (module `Text`) holds the Python string built-ins these files use:
  - `str.split`, `str.rstrip` and `int()`, with their round trips.
- `end_to_end.dfy` (module `EndToEnd`) proves one whole run of `handle_range` on a small
  diff and lint report.
- `wrappers.dfy` (module `Wrappers`) holds `Option` and `Result`.

Python exceptions are modelled as `Err` values, and a run that raises keeps what it
printed before the exception:
- a header regex that does not match (`.groups()` on `None`);
- `int()` on a malformed number;
- `hunks.append` while `hunks` is still `None`;
- `.group` on a lint line that does not match.

### Behaviour of the code worth knowing

- `get_diff_lines` yields one entry per `diff --git` section that has at least one
  `@@` line, in order. Each entry holds that section's hunks, and the last `--- ` and
  `+++ ` names seen so far (`Git.ScanGroupsSections`, `Git.ScanEntryCount`).
- `parse_hunk` fails with the header error exactly on the lines the regex rejects
  (`Git.ParseHunkMalformed`, `Git.MatchHunkHeaderIff`). It also fails with
  `BadLineNumber` when a start or count is not an integer, as in `@@ -x +1 @@`
  (`Git.ParseHunkBadNumberExample`).
- At `diff --git`, `get_diff_lines` resets only the hunk list; the file names carry over
  to the next section (`Git.RunKeepsNames`).
- A `@@` line before the first `diff --git` raises, because `hunks` is still `None`
  (`Git.ScanSucceeds`).
- A start or count may be negative. `int()` accepts a sign, so `"+-3"` parses to -3.
- The closed form of the overlap test does not hold for every integer input. It needs
  `count >= 0` and `rangeCount >= -2` (`Utils.OverlapsRangeClosedForm`). A negative
  `count` never overlaps (`Utils.NegativeCountNeverOverlaps`).
- Last writer wins in the dictionary, and it can be triggered: every deleted file has
  the destination name `""`, so deletions collide (`Cli.IndexLastWins`).
- The space after the third colon of a lint line is optional, and the message may be
  empty.
- A malformed lint line ends the run with an exception. Lines printed before it stay
  printed (`Cli.StopsAtMalformed`).

## Model

| member | source | states |
|---|---|---|
| Text.RStripSpec | lintlens/git.py:42 | `rstrip()` keeps a prefix that ends in a non-whitespace character, and drops only whitespace |
| Text.RStripPadded | lintlens/git.py:42 | stripping trailing whitespace from a name followed by padding gives the name back |
| Text.RStrip | lintlens/git.py:42 | `rstrip()` never lengthens the text, and the result is empty or ends in a non-whitespace character |
| Text.SplitThenJoin | lintlens/git.py:13 | joining the pieces of `split('\n')` with the separator gives the original text |
| Text.JoinThenSplit | lintlens/git.py:100 | splitting pieces that were joined by a separator they do not contain gives the pieces back |
| Text.Split | lintlens/git.py:13 | `split(sep)` gives at least one piece, and no piece contains the separator |
| Text.SplitWithoutSep | lintlens/git.py:100 | text without the separator splits into itself alone |
| Text.ParseIntOfDigits | lintlens/git.py:101 | `int()` of a non-empty run of ASCII digits is its decimal value |
| Text.ParseIntRoundTrip | lintlens/git.py:101-102 | `int()` of the decimal numeral of n is n |
| Text.ParseIntNegativeRoundTrip | lintlens/git.py:101-102 | `int()` accepts a minus sign: `int("-" + numeral(n)) == -n` |
| Text.ParseIntSpacedSign | lintlens/git.py:101-102 | `int()` skips whitespace between the sign and the digits: `int("-" + padding + numeral(n)) == -n` for any whitespace padding |
| Text.LStripPadding | lintlens/git.py:101-102 | stripping leading whitespace removes exactly a whitespace prefix in front of a non-blank |
| Text.ParseInt | lintlens/git.py:101-102 | `int()` succeeds only on text that is not blank |
| Git.LineNumbersRoundTrip | lintlens/git.py:99-103 | for any sign character, `S,C` after the sign parses to `(S, C)` |
| Git.LineNumbersDefaultCount | lintlens/git.py:102 | with no comma the count is 1: `sign + S` parses to `(S, 1)` |
| Git.LineNumbersExamplesDefault | lintlens/git.py:81-85 | `-0` and `+0` parse to `(0, 1)` |
| Git.LineNumbersExampleEmpty | lintlens/git.py:87-88 | `+0,0` parses to `(0, 0)` |
| Git.LineNumbersExampleFive | lintlens/git.py:93-94 | `+0,5` parses to `(0, 5)` |
| Git.LineNumbersExampleWide | lintlens/git.py:96-97 | `+123,5` parses to `(123, 5)` |
| Git.ParseFileLineNumbers | lintlens/git.py:77-103 | a failure names the whole field as the bad number; a field without a comma parses, when it parses, to count 1 |
| Git.LineNumbersExampleOne | lintlens/git.py:90-91 | `+0,1` parses to `(0, 1)` |
| Git.LineNumbersExampleSpacedSign | lintlens/git.py:99-103 | `+-\t3` parses to `(-3, 1)`: the tab after the minus sign is skipped |
| Git.RestOfLine | lintlens/git.py:68 | `(.*)$` takes a line-break-free tail that is the whole rest, or the rest less one final line break |
| Git.MatchHunkHeader | lintlens/git.py:68 | a match implies that the line starts with `@@ ` and that the text group holds no line break; the converse, both ways, is `Git.MatchHunkHeaderIff` |
| Git.MatchHunkHeaderFields | lintlens/git.py:68-69 | on `@@ F T @@X`, with F and T made of characters other than `@` and space, the groups are F, T and X less one leading space |
| Git.MatchHunkHeaderOf | lintlens/git.py:68 | on `@@ F T @@X` with well-formed F and T, the regex matches iff `(.*)$` matches the rest after one optional space, and then the groups are F, T and that rest |
| Git.MatchHunkHeaderShape | lintlens/git.py:68-69 | a match splits the line as `@@ F T @@X`, with F and T made of characters other than `@` and space, and the text group taken from X |
| Git.MatchHunkHeaderIff | lintlens/git.py:68-69 | the header regex matches a line iff the line has the shape `@@ F T @@X` with a matching `(.*)$` tail (`IsHunkHeader`) |
| Git.ParseHunk | lintlens/git.py:50-74 | a parsed hunk comes from a line starting with `@@ `, and its text has no line break; exactly when it fails on the header is `Git.ParseHunkMalformed` |
| Git.ParseHunkFields | lintlens/git.py:68-74 | a well-formed header parses to the two parsed ranges and the text after `@@`, less one optional space |
| Git.ParseHunkRoundTrip | lintlens/git.py:50-74 | formatting `@@ -a,b +c,d @@ text` and parsing it gives `((a,b),(c,d),text)` back |
| Git.ParseHunkRejectsPrefix | lintlens/git.py:68-69 | a line that does not start with `@@ ` is a malformed header |
| Git.ParseHunkNoMatch | lintlens/git.py:68-69 | `parse_hunk` fails with a malformed header iff the regex does not match |
| Git.ParseHunkMalformed | lintlens/git.py:68-69 | `parse_hunk` fails with a malformed header exactly on lines without the header shape |
| Git.ParseHunkExampleDefaults | lintlens/git.py:53-54 | `@@ -0 +1 @@ Foo bar` parses to `((0,1),(1,1),"Foo bar")` |
| Git.ParseHunkExampleWide | lintlens/git.py:56-57 | `@@ -987 +99999 @@ Foo bar` parses to `((987,1),(99999,1),"Foo bar")` |
| Git.ParseHunkExampleCounted | lintlens/git.py:59-60 | `@@ -5,0 +42,5 @@ Foo bar` parses to `((5,0),(42,5),"Foo bar")` |
| Git.ParseHunkExampleEmptyNew | lintlens/git.py:62-63 | `@@ -1,3 +42,0 @@ Foo bar` parses to `((1,3),(42,0),"Foo bar")` |
| Git.ParseHunkExampleNoText | lintlens/git.py:65-66 | `@@ -0 +1 @@` parses to `((0,1),(1,1),"")` |
| Git.ParseHunkBadNumberExample | lintlens/git.py:68-72 | `@@ -x +1 @@` matches the header regex, yet `parse_hunk` fails with `BadLineNumber("-x")`, because `int()` rejects `x` |
| Git.ParseHunkSpacedSignExample | lintlens/git.py:68-74 | `@@ -1 +-\t3 @@` parses to `((1,1),(-3,1),"")`, as `[^@ ]+` lets the tab through |
| Git.FilenameDevNull | lintlens/git.py:40-44 | `/dev/null` after the 4-character prefix, with any trailing whitespace, is the empty name |
| Git.FilenamePlain | lintlens/git.py:40-47 | `--- a/NAME` or `+++ b/NAME`, with trailing whitespace, gives NAME |
| Git.FilenameQuoted | lintlens/git.py:40-47 | the quoted form `"a/NAME"` gives NAME |
| Git.ParseGitDiffFilename | lintlens/git.py:40-47 | the name is empty (`/dev/null`, or too short) or at least 6 characters shorter than the line: the 4-character prefix and `a/` or `b/` are gone |
| Git.Step | lintlens/git.py:18-33 | only an `@@` line can raise |
| Git.Run | lintlens/git.py:18-33 | the loop can only raise when the lines hold an `@@` line |
| Git.ScanDiffLines | lintlens/git.py:18-37 | a diff without `@@` lines never raises |
| Git.GetDiffLines | lintlens/git.py:8-37 | the loop over the split output returns exactly what the fold `ScanDiffLines` yields, including its exception |
| Git.RunPending | lintlens/git.py:18-33 | a successful run adds to the seen hunks exactly the parsed `@@` lines, in order |
| Git.ScanHunksInOrder | lintlens/git.py:18-37 | the yielded entries' hunks, concatenated, are the parsed `@@` lines of the diff in input order, one per header |
| Git.ScanEntriesNonEmpty | lintlens/git.py:21-22 | every yielded entry holds at least one hunk (`if hunks:`) |
| Git.RunSucceeds | lintlens/git.py:18-33 | the loop succeeds iff every `@@` line parses and none precedes the first section, unless a section is already open |
| Git.ScanSucceeds | lintlens/git.py:16-33 | the scan succeeds iff every `@@` line parses and no `@@` line comes before the first `diff --git` |
| Git.RunKeepsNames | lintlens/git.py:15-29 | without `---`/`+++` lines the names never change, even across `diff --git`; earlier entries are kept and new ones carry those names |
| Git.Sections | lintlens/git.py:18-23 | cutting the lines at each `diff --git` leaves no header in the preamble or in a section body, and each section starts with its header |
| Git.SectionsJoin | lintlens/git.py:18-23 | the preamble followed by the sections, each header then body, gives the lines back |
| Git.LastName | lintlens/git.py:25-29 | without a `--- `/`+++ ` line the name is the one carried in |
| Git.Grouped | lintlens/git.py:21-22 | at most one entry per section, and every entry holds a hunk |
| Git.RunGroups | lintlens/git.py:18-37 | from any state, a successful loop yields the entries already yielded, then the open section's hunks, then one entry per later section with hunks, each with that section's hunks and the last names so far |
| Git.ScanGroupsSections | lintlens/git.py:18-37 | a successful scan has no `@@` line before the first section, every section's `@@` lines parse, and the entries are one per section with hunks: its hunks and the last `--- `/`+++ ` names seen |
| Git.GroupedCount | lintlens/git.py:21-22 | one entry is yielded for each section whose hunks are non-empty |
| Git.ScanEntryCount | lintlens/git.py:18-37 | the number of yielded entries is the number of `diff --git` sections with an `@@` line |
| UnixLint.LeadingDigitsSpec | lintlens/lint/unix.py:8 | `\d+` is greedy: the counted prefix is all digits and is followed by a non-digit or the end |
| UnixLint.FindFilenameEnd | lintlens/lint/unix.py:8 | a position found is past the start and is followed by `:digits:digits:` |
| UnixLint.FindFilenameEndSpec | lintlens/lint/unix.py:8 | the search returns the first position where the filename may end, and none when there is no such position |
| UnixLint.UpToBreak | lintlens/lint/unix.py:8 | `(.*)` takes the longest prefix without a line break |
| UnixLint.NumbersAndMessage | lintlens/lint/unix.py:28-33 | the message group holds no line break |
| UnixLint.EntryAt | lintlens/lint/unix.py:28-33 | the filename is exactly the text between the match start and the found position |
| UnixLint.MatchAt | lintlens/lint/unix.py:27 | a matched message holds no line break |
| UnixLint.MatchAtSpec | lintlens/lint/unix.py:27 | a match has the shortest filename that lets the two numbers follow; no match means that no position can end the filename |
| UnixLint.ParseLintLine | lintlens/lint/unix.py:11-34 | a failure names the line as malformed, and a parsed message holds no line break |
| UnixLint.ParseLintLineFilename | lintlens/lint/unix.py:8-29 | the parsed filename is the shortest one after `./` when a match exists there, and otherwise the shortest from the first character |
| UnixLint.ParseLintLineFails | lintlens/lint/unix.py:27-29 | parsing fails iff no position of the line can end a filename followed by `:digits:digits:` |
| UnixLint.LintLineRoundTrip | lintlens/lint/unix.py:11-34 | `f:L:C:msg`, with f free of colons and line breaks, parses to `(f, L, C, msg less one leading space)` |
| UnixLint.DotSlashRoundTrip | lintlens/lint/unix.py:8 | `./f:L:C:msg` parses to filename `f`; the optional `./` is not part of the name |
| UnixLint.ParseLintLineExampleSimple | lintlens/lint/unix.py:14-15 | `foo.txt:1:2: bar` parses to `("foo.txt", 1, 2, "bar")` |
| UnixLint.ParseLintLineExampleWide | lintlens/lint/unix.py:17-18 | `foo.txt:123:50: bar` parses to `("foo.txt", 123, 50, "bar")` |
| UnixLint.ParseLintLineExampleNoMessage | lintlens/lint/unix.py:20-21 | `foo.txt:0:1:` parses to `("foo.txt", 0, 1, "")` |
| UnixLint.ParseLintLineExampleSpace | lintlens/lint/unix.py:23-24 | `foo/foo bar.txt:0:1: baz` keeps the space in the filename |
| UnixLint.ParseLintLineExampleDotSlash | lintlens/lint/unix.py:8 | `./foo.txt:1:2: bar` parses to filename `foo.txt` |
| Utils.CheckLineOverlapRange | lintlens/utils.py:13-18 | the early-return loop answers exactly whether some line of `[start, start+count]` lies in `[rs-1, rs+rc+1]` |
| Utils.CheckLineOverlapHunks | lintlens/utils.py:6-10 | the early-return loop answers exactly whether some hunk's new-side range overlaps |
| Utils.OverlapsRangeIntervals | lintlens/utils.py:13-18 | overlap holds iff the larger lower bound is at most the smaller upper bound, for all integers |
| Utils.OverlapsRangeClosedForm | lintlens/utils.py:13-18 | for `count >= 0` and `rc >= -2`: overlap iff `start <= rs+rc+1` and `start+count >= rs-1` |
| Utils.NegativeCountNeverOverlaps | lintlens/utils.py:15 | an empty `range(start, start+count+1)` never overlaps |
| Utils.OverlapsTwoBelow | lintlens/utils.py:14-16 | a one-line finding at N overlaps a range starting at N+2 |
| Utils.NoOverlapThreeBelow | lintlens/utils.py:14-16 | a one-line finding at N never overlaps a range starting at N+3 |
| Utils.LowerEdge | lintlens/utils.py:14-16 | an empty new-side range starting below a one-line finding overlaps iff it starts exactly one line before the finding |
| Utils.OverlapsHunksMember | lintlens/utils.py:6-10 | the hunk test is "some member of the list overlaps" |
| Utils.OverlapsHunksOrder | lintlens/utils.py:6-10 | lists with the same members give the same answer |
| Utils.OverlapsHunksPermutation | lintlens/utils.py:6-10 | a permuted hunk list gives the same answer |
| Utils.OverlapsHunksNewSideOnly | lintlens/utils.py:7-8 | only the hunks' new-side ranges matter; old ranges and text do not |
| Utils.OverlapsHunksAppend | lintlens/utils.py:6-10 | no hunks never overlap; a concatenation overlaps iff one of its parts does |
| Cli.ParseFinding | lintlens/cli.py:22 | a parsed finding has a non-empty filename and spans `FindingLineCount` lines after its first |
| Cli.CheckLineOverlapRange | lintlens/cli.py:40-45 | the copy in cli.py answers the same overlap question as utils.py |
| Cli.CheckLineOverlapHunks | lintlens/cli.py:33-37 | the copy in cli.py answers the same hunk question as utils.py |
| Cli.BuildIndex | lintlens/cli.py:17-19 | the first loop builds the dictionary `Index` of the yielded entries |
| Cli.Index | lintlens/cli.py:17-19 | every key maps to the hunks of some entry with that destination name |
| Cli.KeepFinding | lintlens/cli.py:24-30 | a finding is printed iff its file is a key and one of that file's hunks overlaps it |
| Cli.FilterLine | lintlens/cli.py:22-30 | one iteration either extends the printed prefix or ends the run with the outcome of the whole loop |
| Cli.FilterLines | lintlens/cli.py:21-30 | the lint loop prints exactly the lines of `FilterParsed` and stops with its failure |
| Cli.FilterParsed | lintlens/cli.py:21-30 | the loop prints at most one line per lint line, and only a lint failure can stop it |
| Cli.HandleRangeSpec | lintlens/cli.py:16-30 | at most one line per lint line is printed, and a diff failure prints nothing |
| Cli.HandleRange | lintlens/cli.py:16-30 | a run on the diff text prints and fails exactly as `HandleRangeSpec` over its lines |
| Cli.IndexKeys | lintlens/cli.py:17-19 | a name is a key iff some entry has that destination name |
| Cli.IndexLastWins | lintlens/cli.py:17-19 | a name maps to the hunks of the last entry with that destination name |
| Cli.FilterParsedFailure | lintlens/cli.py:21-22 | the loop fails iff some line is malformed, and then with the first malformed line's error |
| Cli.FilterParsedFromInput | lintlens/cli.py:21-30 | every printed line is an input line; no line is printed more often than it occurs |
| Cli.FilterParsedSubsequence | lintlens/cli.py:21-30 | the printed lines are the input lines at increasing positions, each parsed and kept; with no failure every kept line is printed |
| Cli.FilterParsedAppend | lintlens/cli.py:21-30 | after well-formed lines, the output on a concatenation is the two outputs concatenated |
| Cli.StopsAtMalformed | lintlens/cli.py:21-22 | at the first malformed line the run stops, having printed what the lines before it print |
| Cli.FilterFailsOnMalformed | lintlens/cli.py:21-22 | the lint loop completes iff every lint line parses |
| EndToEnd.ScanOfExample | lintlens/git.py:8-37 | a diff adding lines 10-12 of `src/a.py` yields one entry for that file holding `((5,0),(10,3),"")` |
| EndToEnd.KeptOfExample | lintlens/cli.py:24-29 | line 11 of `src/a.py` is kept; line 50 and a file outside the diff are not |
| EndToEnd.HandleRangeExample | lintlens/cli.py:16-30 | on that diff and a three-line report, only the line-11 finding is printed and the run completes |

## Left out

- Running `git diff` (lintlens/git.py:9-10) is not modelled. `GetDiffLines` and
  `HandleRange` take its output text as a parameter.
- The `.decode('utf-8')` of that output (lintlens/git.py:11) is not modelled; text is a
  sequence of characters throughout.
- The `unicode-escape`/`latin-1` re-decoding of file names (lintlens/git.py:41) is left
  out: names are taken as written, so a decode failure of an escaped name cannot
  happen in the model.
- `lintlens.linting` (imported at lintlens/cli.py:13) is not part of this model. The
  lint loop (`Cli.FilterLines`) takes the parser as a parameter. `Cli.HandleRange` passes
  `Cli.ParseFinding`, which uses the `unix.py` parser and reads a finding as its line
  number and a count of `FindingLineCount` (1).
- Printing (lintlens/cli.py:30) is modelled as appending the lint line to the output
  sequence; the byte encoding is left out.
- `read_file_lines`, `main` and argument parsing (lintlens/cli.py:48-70) are I/O and
  command-line plumbing.
- `int()` is modelled as whitespace (Python 2.7's `unicode.isspace()` set), an optional
  sign, more whitespace and ASCII digits. Non-ASCII decimal digits, which `int()`
  accepts on unicode text, are rejected.
- `\d` in the lint pattern matches ASCII digits only.
- `get_diff_lines` is a generator. The model returns the yielded entries as one sequence
  or an error, so entries yielded before an exception are not visible. `handle_range`
  stops at that exception before reading any lint line, so its output is the same.
- `six.moves.range` (lintlens/utils.py:3, lintlens/cli.py:10) is `xrange` on Python 2.7;
  the model uses unbounded integers.
- Utils.CheckLineOverlapRange, Cli.CheckLineOverlapRange and Cli.FilterParsed do not
  model the OverflowError that `xrange(start, start + count + 1)` (lintlens/utils.py:15,
  lintlens/cli.py:42) raises once `start + count + 1` passes `sys.maxint`. The model
  answers the overlap question for such a finding, and the run goes on, where lintlens
  aborts. `sys.maxint` depends on the platform.
