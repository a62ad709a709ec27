/**
  What the reported errors say: each names the line of what is wrong.
 */
module TidyReports {
  import opened Machine
  import opened TidyLines
  import opened TidyAlphabetical

  /** The line of a place: one more than the line feeds before it. */
  ghost predicate OnLine(t: string, index: int, line: nat) {
    0 <= index <= |t| && line == 1 + |LineFeeds(t, index)|
  }

  ghost predicate MarkerOnLine(t: string, marker: string, i: int, line: nat) {
    At(t, i, marker) && OnLine(t, i, line)
  }

  /** The fix replaces whole lines, and the line is that of the first character it changes. */
  ghost predicate Unsorted(t: string, e: Error, d: nat) {
    && e.fix.Some? && e.fix.value.start <= e.fix.value.end <= |t|
    && e.fix.value.replacement == SortedText(t[e.fix.value.start..e.fix.value.end])
    && d < |e.fix.value.replacement| == e.fix.value.end - e.fix.value.start
    && t[e.fix.value.start..e.fix.value.end][..d] == e.fix.value.replacement[..d]
    && t[e.fix.value.start + d] != e.fix.value.replacement[d]
    && OnLine(t, e.fix.value.start + d, e.line)
  }

  /** There is no line end between these markers. */
  ghost predicate SharesLine(t: string, i: int, j: int, line: nat) {
    && MarkerOnLine(t, START_MARKER, i, line) && i <= j && At(t, j, END_MARKER)
    && forall k :: i <= k < j ==> t[k] != '\n'
  }

  /** Where the last of these regions starts and ends; without any, the given places. */
  function LastStart(rs: seq<Region>, prevStart: int): int {
    if rs == [] then prevStart else rs[|rs| - 1].start
  }

  function LastEnd(rs: seq<Region>, prevEnd: int): int {
    if rs == [] then prevEnd else rs[|rs| - 1].end
  }

  /** The first end marker behind the last region, with no start marker between that region's and itself. */
  ghost predicate NotStarted(t: string, lastStart: int, lastEnd: int, j: int, line: nat) {
    && lastEnd < j && MarkerOnLine(t, END_MARKER, j, line)
    && (forall k :: lastEnd < k < j ==> !At(t, k, END_MARKER))
    && (forall k :: lastStart < k < j ==> !At(t, k, START_MARKER))
  }

  /** The first start marker behind that of the last region; no end marker comes behind that region. */
  ghost predicate NotEnded(t: string, lastStart: int, lastEnd: int, i: int, line: nat) {
    && lastStart < i && MarkerOnLine(t, START_MARKER, i, line)
    && (forall k :: lastStart < k < i ==> !At(t, k, START_MARKER))
    && (forall k :: lastEnd < k ==> !At(t, k, END_MARKER))
  }

  /** A second start marker within the last region. */
  ghost predicate StartedTwice(t: string, lastStart: int, lastEnd: int, i: int, line: nat) {
    && lastStart < i < lastEnd && MarkerOnLine(t, START_MARKER, i, line)
    && (forall k :: lastStart < k < i ==> !At(t, k, START_MARKER))
    && (exists k :: lastEnd < k && At(t, k, END_MARKER))
  }

  /** What an error says, when the last region that was visited has its markers at these places. */
  ghost predicate Explained(t: string, e: Error, lastStart: int, lastEnd: int) {
    match e.problem
    case NotSorted => exists d: nat :: Unsorted(t, e, d)
    case SameLine => e.fix.None? && exists i, j :: SharesLine(t, i, j, e.line)
    case UnexpectedEnd => e.fix.None? && exists j :: NotStarted(t, lastStart, lastEnd, j, e.line)
    case MissingEnd => e.fix.None? && exists i :: NotEnded(t, lastStart, lastEnd, i, e.line)
    case UnexpectedStart => e.fix.None? && exists i :: StartedTwice(t, lastStart, lastEnd, i, e.line)
  }

  lemma FoundIsOnLine(t: string, marker: string, i: int)
    requires At(t, i, marker)
    ensures 0 <= i <= |t| && MarkerOnLine(t, marker, i, LineAt(t, i))
  {
    LineAtCounts(t, i);
  }

  lemma FoundIsFirst(t: string, marker: string, from: nat)
    ensures var i := Find(t, marker, from);
            && (forall k :: from <= k && (i == -1 || k < i) ==> !At(t, k, marker))
            && (i != -1 ==> from <= i <= |t| && At(t, i, marker) && MarkerOnLine(t, marker, i, LineAt(t, i)))
  {
    hide At, LineAt;
    var i := Find(t, marker, from);
    if i != -1 {
      FoundIsOnLine(t, marker, i);
    }
  }

  /** The errors of one region. */
  lemma RegionExplained(t: string, start: nat, end: nat, e: Error, lastStart: int, lastEnd: int)
    requires start <= end <= |t| && At(t, start, START_MARKER) && At(t, end, END_MARKER) && e in RegionErrors(t, start, end)
    ensures Explained(t, e, lastStart, lastEnd)
  {
    hide At, SortedText, LineFeeds, LineAt, FirstDifference;
    var r := RegionOf(t, start, end);
    var lines := t[r.lo..r.hi];
    SortableIsComplete(lines);
    if e.problem.SameLine? {
      FoundIsOnLine(t, START_MARKER, start);
      SameLineMeans(t, start, end);
      assert SharesLine(t, start, end, e.line);
    } else {
      var d := FirstDifference(SortedText(lines), lines);
      LineAtCounts(t, r.lo + d);
      assert Unsorted(t, e, d);
    }
  }

  lemma SameLineMeans(t: string, start: nat, end: nat)
    requires start <= end <= |t| && OnSameLine(t, start, end)
    ensures forall k :: start <= k < end ==> t[k] != '\n'
  {
  }

  /** Where the loop stops with an error. */
  lemma StopExplained(t: string, prevStart: int, prevEnd: int, e: Error)
    requires prevStart >= -1 && prevEnd >= -1 && Regions(t, prevStart, prevEnd) == [] && e in CheckFrom(t, prevStart, prevEnd)
    ensures Explained(t, e, prevStart, prevEnd)
  {
    hide At, MarkerOnLine, LineAt, RegionErrors, CheckFrom, RegionOf;
    CheckUnfold(t, prevStart, prevEnd);
    FoundIsFirst(t, START_MARKER, prevStart + 1);
    FoundIsFirst(t, END_MARKER, prevEnd + 1);
    var start, end := Find(t, START_MARKER, prevStart + 1), Find(t, END_MARKER, prevEnd + 1);
    if end == -1 {
      assert NotEnded(t, prevStart, prevEnd, start, e.line);
    } else if start == -1 || end < start {
      assert NotStarted(t, prevStart, prevEnd, end, e.line);
    } else {
      assert StartedTwice(t, prevStart, prevEnd, start, e.line);
    }
  }

  /** Every error in the report is what it says, and on the line that it names. */
  lemma {:induction false} ReportExplained(t: string, prevStart: int, prevEnd: int, e: Error)
    requires prevStart >= -1 && prevEnd >= -1 && e in CheckFrom(t, prevStart, prevEnd)
    ensures var rs := Regions(t, prevStart, prevEnd); Explained(t, e, LastStart(rs, prevStart), LastEnd(rs, prevEnd))
    decreases |t| - prevStart
  {
    hide At, MarkerOnLine, LineAt, RegionErrors, CheckFrom, Explained, RegionOf;
    var rs := Regions(t, prevStart, prevEnd);
    if rs == [] {
      StopExplained(t, prevStart, prevEnd, e);
    } else {
      CheckUnfold(t, prevStart, prevEnd);
      FoundIsFirst(t, START_MARKER, prevStart + 1);
      FoundIsFirst(t, END_MARKER, prevEnd + 1);
      var start, end := Find(t, START_MARKER, prevStart + 1), Find(t, END_MARKER, prevEnd + 1);
      RegionEnds(t, start, end);
      if e in RegionErrors(t, start, end) {
        RegionExplained(t, start, end, e, LastStart(rs, prevStart), LastEnd(rs, prevEnd));
      } else {
        ReportExplained(t, start, end, e);
      }
    }
  }
}
