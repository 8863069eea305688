/**
 * lintlens/utils.py: does a lint finding fall on, or next to, a changed line?
 *
 * A finding spans the lines `start..start + count` (both ends included); a hunk's new
 * side spans `rangeStart..rangeStart + rangeCount`, widened by a threshold of one line
 * on each side. The source searches for a shared line with `for` loops that return early.
 */
module Utils {
  import opened Git

  /** The tolerance, in lines, on each side of a changed range. */
  const Threshold := 1

  /** `line` is one of the finding's lines: `range(start, start + count + 1)`. */
  predicate InSpan(line: int, start: int, count: int) {
    start <= line <= start + count
  }

  /** `line` is within the threshold of the changed range. */
  predicate InWindow(line: int, rangeStart: int, rangeCount: int) {
    rangeStart - Threshold <= line <= rangeStart + rangeCount + Threshold
  }

  /** Some line of the finding lies in the widened range. */
  ghost predicate OverlapsRange(start: int, count: int, rangeStart: int, rangeCount: int) {
    exists line :: InSpan(line, start, count) && InWindow(line, rangeStart, rangeCount)
  }

  /** The hunk's new-side range overlaps the finding. */
  ghost predicate HunkOverlaps(start: int, count: int, h: Hunk) {
    OverlapsRange(start, count, h.changeTo.start, h.changeTo.count)
  }

  /** Some hunk of the list overlaps the finding. */
  ghost predicate OverlapsHunks(start: int, count: int, hunks: seq<Hunk>) {
    exists i :: 0 <= i < |hunks| && HunkOverlaps(start, count, hunks[i])
  }

  /** `check_line_overlap_range`: walk the finding's lines, stop at the first one in the window. */
  method CheckLineOverlapRange(start: int, count: int, rangeStart: int, rangeCount: int) returns (r: bool)
    ensures r == OverlapsRange(start, count, rangeStart, rangeCount)
  {
    var threshold := 1;
    var line := start;
    while line < start + count + 1
      invariant start <= line <= if count >= 0 then start + count + 1 else start
      invariant forall k :: start <= k < line ==> !InWindow(k, rangeStart, rangeCount)
    {
      if rangeStart - threshold <= line <= rangeStart + rangeCount + threshold {
        assert InSpan(line, start, count) && InWindow(line, rangeStart, rangeCount);
        return true;
      }
      line := line + 1;
    }
    return false;
  }

  /** `check_line_overlap_hunks`: try each hunk's new side in turn. */
  method CheckLineOverlapHunks(start: int, count: int, hunks: seq<Hunk>) returns (r: bool)
    ensures r == OverlapsHunks(start, count, hunks)
  {
    for i := 0 to |hunks|
      invariant forall k :: 0 <= k < i ==> !HunkOverlaps(start, count, hunks[k])
    {
      var changeTo := hunks[i].changeTo;
      var found := CheckLineOverlapRange(start, count, changeTo.start, changeTo.count);
      if found {
        return true;
      }
    }
    return false;
  }

  // ---------------------------------------------------------------- properties

  /** Two integer intervals share a line exactly when the larger lower end is at most the smaller upper end. */
  lemma OverlapsRangeIntervals(start: int, count: int, rangeStart: int, rangeCount: int)
    ensures OverlapsRange(start, count, rangeStart, rangeCount) <==>
      (if start < rangeStart - 1 then rangeStart - 1 else start)
        <= (if start + count < rangeStart + rangeCount + 1 then start + count else rangeStart + rangeCount + 1)
  {
    var lo := if start < rangeStart - 1 then rangeStart - 1 else start;
    var hi := if start + count < rangeStart + rangeCount + 1 then start + count else rangeStart + rangeCount + 1;
    if lo <= hi {
      assert InSpan(lo, start, count) && InWindow(lo, rangeStart, rangeCount);
    }
  }

  /**
   * The closed form: for a finding with a non-negative count and a widened range that is
   * not empty (`rangeCount >= -2`), they overlap exactly when each starts no later than
   * the other ends.
   */
  lemma OverlapsRangeClosedForm(start: int, count: int, rangeStart: int, rangeCount: int)
    requires count >= 0 && rangeCount >= -2
    ensures OverlapsRange(start, count, rangeStart, rangeCount) <==>
      start <= rangeStart + rangeCount + 1 && start + count >= rangeStart - 1
  {
    OverlapsRangeIntervals(start, count, rangeStart, rangeCount);
  }

  /** A negative count gives an empty `range`, which overlaps nothing. */
  lemma NegativeCountNeverOverlaps(start: int, count: int, rangeStart: int, rangeCount: int)
    requires count < 0
    ensures !OverlapsRange(start, count, rangeStart, rangeCount)
  {
    OverlapsRangeIntervals(start, count, rangeStart, rangeCount);
  }

  /** A one-line finding at `n` reaches a change starting two lines below it. */
  lemma OverlapsTwoBelow(n: int, rangeCount: int)
    requires rangeCount >= -2
    ensures OverlapsRange(n, 1, n + 2, rangeCount)
  {
    OverlapsRangeClosedForm(n, 1, n + 2, rangeCount);
  }

  /** A one-line finding at `n` does not reach a change starting three lines below it. */
  lemma NoOverlapThreeBelow(n: int, rangeCount: int)
    ensures !OverlapsRange(n, 1, n + 3, rangeCount)
  {
    OverlapsRangeIntervals(n, 1, n + 3, rangeCount);
  }

  /**
   * An empty new-side range starting below a one-line finding at `n` overlaps it exactly
   * when it starts at `n - 1`.
   */
  lemma LowerEdge(n: int, rangeStart: int)
    requires rangeStart <= n - 1
    ensures OverlapsRange(n, 1, rangeStart, 0) <==> rangeStart + 1 >= n
  {
    OverlapsRangeClosedForm(n, 1, rangeStart, 0);
  }

  /** A hunk list overlaps exactly when one of its hunks, as a member, does. */
  lemma OverlapsHunksMember(start: int, count: int, hunks: seq<Hunk>)
    ensures OverlapsHunks(start, count, hunks) <==> exists h :: h in hunks && HunkOverlaps(start, count, h)
  {
    if exists h :: h in hunks && HunkOverlaps(start, count, h) {
      var h :| h in hunks && HunkOverlaps(start, count, h);
      var i :| 0 <= i < |hunks| && hunks[i] == h;
    }
  }

  /** The result does not depend on the order (or the repetition) of the hunks. */
  lemma OverlapsHunksOrder(start: int, count: int, hunks: seq<Hunk>, others: seq<Hunk>)
    requires forall h :: h in hunks <==> h in others
    ensures OverlapsHunks(start, count, hunks) == OverlapsHunks(start, count, others)
  {
    OverlapsHunksMember(start, count, hunks);
    OverlapsHunksMember(start, count, others);
  }

  /** In particular, a reordering of the hunks gives the same result. */
  lemma OverlapsHunksPermutation(start: int, count: int, hunks: seq<Hunk>, others: seq<Hunk>)
    requires multiset(hunks) == multiset(others)
    ensures OverlapsHunks(start, count, hunks) == OverlapsHunks(start, count, others)
  {
    forall h ensures h in hunks <==> h in others {
      assert h in hunks <==> h in multiset(hunks);
      assert h in others <==> h in multiset(others);
    }
    OverlapsHunksOrder(start, count, hunks, others);
  }

  /** Only the new side of each hunk matters: the old side and the header text are ignored. */
  lemma OverlapsHunksNewSideOnly(start: int, count: int, hunks: seq<Hunk>, others: seq<Hunk>)
    requires |hunks| == |others|
    requires forall i :: 0 <= i < |hunks| ==> hunks[i].changeTo == others[i].changeTo
    ensures OverlapsHunks(start, count, hunks) == OverlapsHunks(start, count, others)
  {
    if OverlapsHunks(start, count, hunks) {
      var i :| 0 <= i < |hunks| && HunkOverlaps(start, count, hunks[i]);
      assert HunkOverlaps(start, count, others[i]);
    }
    if OverlapsHunks(start, count, others) {
      var i :| 0 <= i < |others| && HunkOverlaps(start, count, others[i]);
      assert HunkOverlaps(start, count, hunks[i]);
    }
  }

  /** Hunks from two lists: some overlaps exactly when some of either list does; none of no list does. */
  lemma OverlapsHunksAppend(start: int, count: int, hunks: seq<Hunk>, more: seq<Hunk>)
    ensures !OverlapsHunks(start, count, [])
    ensures OverlapsHunks(start, count, hunks + more) <==>
      OverlapsHunks(start, count, hunks) || OverlapsHunks(start, count, more)
  {
    var all := hunks + more;
    if OverlapsHunks(start, count, all) {
      var i :| 0 <= i < |all| && HunkOverlaps(start, count, all[i]);
      if i < |hunks| {
        assert all[i] == hunks[i];
      } else {
        assert all[i] == more[i - |hunks|];
      }
    }
    if OverlapsHunks(start, count, hunks) {
      var i :| 0 <= i < |hunks| && HunkOverlaps(start, count, hunks[i]);
      assert all[i] == hunks[i];
    }
    if OverlapsHunks(start, count, more) {
      var i :| 0 <= i < |more| && HunkOverlaps(start, count, more[i]);
      assert all[|hunks| + i] == more[i];
    }
  }
}
