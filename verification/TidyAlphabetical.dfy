/**
  `scripts/tidy_alphabetical.py`: finding the marked regions of a text, reporting the unsorted ones,
  and applying the fixes.
 */
module TidyAlphabetical {
  import opened Machine
  import opened TidyLines

  const START_MARKER := "tidy-alphabetical-start"
  const END_MARKER := "tidy-alphabetical-end"

  datatype Fix = Fix(start: nat, end: nat, replacement: string)

  datatype Problem = MissingEnd | UnexpectedEnd | UnexpectedStart | SameLine | NotSorted

  datatype Error = Error(line: nat, problem: Problem, fix: Option<Fix>)

  // ---------------------------------------------------------------------------------------------
  // Searching
  // ---------------------------------------------------------------------------------------------

  /** `contents.find(word, from)`. */
  function Find(t: string, word: string, from: nat): (r: int)
    ensures r == -1 || (from <= r && At(t, r, word))
    ensures forall i :: from <= i && (r == -1 || i < r) ==> !At(t, i, word)
    decreases |t| - from
  {
    if from + |word| > |t| then -1 else if At(t, from, word) then from else Find(t, word, from + 1)
  }

  /** `contents.find("\n", from, until)`. */
  function FirstNewline(t: string, from: nat, until: nat): (r: int)
    requires from <= until <= |t|
    ensures r == -1 || (from <= r < until && t[r] == '\n')
    ensures forall i :: from <= i < until && (r == -1 || i < r) ==> t[i] != '\n'
    decreases until - from
  {
    if from == until then -1 else if t[from] == '\n' then from else FirstNewline(t, from + 1, until)
  }

  /** `contents.rfind("\n", from, until)`. */
  function LastNewline(t: string, from: nat, until: nat): (r: int)
    requires from <= until <= |t|
    ensures r == -1 || (from <= r < until && t[r] == '\n')
    ensures forall i :: from <= i < until && (r == -1 || i > r) ==> t[i] != '\n'
    decreases until - from
  {
    if from == until then -1 else if t[until - 1] == '\n' then until - 1 else LastNewline(t, from, until - 1)
  }

  /** The number of the line with the character at `index`, counting from 1. */
  function LineAt(t: string, index: nat): nat
    requires index <= |t|
  {
    if index == 0 then 1 else LineAt(t, index - 1) + if t[index - 1] == '\n' then 1 else 0
  }

  /** The line feeds before `index`. */
  ghost function LineFeeds(t: string, index: nat): set<nat> {
    set i: nat | i < index && i < |t| && t[i] == '\n'
  }

  lemma {:induction false} LineAtCounts(t: string, index: nat)
    requires index <= |t|
    ensures LineAt(t, index) == 1 + |LineFeeds(t, index)|
  {
    if index == 0 {
      assert LineFeeds(t, 0) == {};
    } else {
      LineAtCounts(t, index - 1);
      if t[index - 1] == '\n' {
        assert LineFeeds(t, index) == LineFeeds(t, index - 1) + {index - 1};
      } else {
        assert LineFeeds(t, index) == LineFeeds(t, index - 1);
      }
    }
  }

  /** The first place where two texts differ. */
  function FirstDifference(a: string, b: string): (n: nat)
    requires |a| == |b| && a != b
    ensures n < |a| && a[n] != b[n] && a[..n] == b[..n]
  {
    if a[0] != b[0] then 0
    else
      assert a == [a[0]] + a[1..] && b == [b[0]] + b[1..];
      1 + FirstDifference(a[1..], b[1..])
  }

  // ---------------------------------------------------------------------------------------------
  // Checking
  // ---------------------------------------------------------------------------------------------

  /** A marked region: its markers, and the whole lines between them. */
  datatype Region = Region(start: nat, end: nat, lo: nat, hi: nat)

  /** The region of the markers at `start` and `end`; empty and at 0 if they are on the same line. */
  function RegionOf(t: string, start: nat, end: nat): (r: Region)
    requires start <= end <= |t|
    ensures r.lo <= r.hi <= |t| && IsSortable(t[r.lo..r.hi])
  {
    Region(start, end, FirstNewline(t, start, end) + 1, LastNewline(t, start, end) + 1)
  }

  predicate OnSameLine(t: string, start: nat, end: nat)
    requires start <= end <= |t|
  {
    FirstNewline(t, start, end) == -1 || LastNewline(t, start, end) == -1
  }

  /** The condition under which `_sort_lines_impl` does not raise. */
  predicate IsSortable(lines: string) {
    lines == "" || lines[|lines| - 1] == '\n'
  }

  lemma SortableIsComplete(lines: string)
    requires IsSortable(lines)
    ensures IsComplete(lines) && |SortedText(lines)| == |lines|
  {
    hide Lines, Sorted, Join;
    SortedTextSorts(lines);
  }

  /** The report for one region. */
  function RegionErrors(t: string, start: nat, end: nat): seq<Error>
    requires start <= end <= |t|
  {
    var r := RegionOf(t, start, end);
    var lines := t[r.lo..r.hi];
    SortableIsComplete(lines);
    (if OnSameLine(t, start, end) then [Error(LineAt(t, start), SameLine, None)] else [])
    + if SortedText(lines) == lines then []
      else
        var index := FirstDifference(SortedText(lines), lines);
        [Error(LineAt(t, r.lo + index), NotSorted, Some(Fix(r.lo, r.hi, SortedText(lines))))]
  }

  /** What the loop still reports when the last markers were at `prevStart` and `prevEnd`. */
  function CheckFrom(t: string, prevStart: int, prevEnd: int): seq<Error>
    requires prevStart >= -1 && prevEnd >= -1
    decreases |t| - prevStart
  {
    var start, end := Find(t, START_MARKER, prevStart + 1), Find(t, END_MARKER, prevEnd + 1);
    if start == -1 && end == -1 then []
    else if end == -1 then [Error(LineAt(t, start), MissingEnd, None)]
    else if start == -1 || end < start then [Error(LineAt(t, end), UnexpectedEnd, None)]
    else if start < prevEnd then [Error(LineAt(t, start), UnexpectedStart, None)]
    else RegionErrors(t, start, end) + CheckFrom(t, start, end)
  }

  function Check(t: string): seq<Error> {
    CheckFrom(t, -1, -1)
  }

  lemma CheckUnfold(t: string, prevStart: int, prevEnd: int)
    requires prevStart >= -1 && prevEnd >= -1
    ensures
      var start, end := Find(t, START_MARKER, prevStart + 1), Find(t, END_MARKER, prevEnd + 1);
      && (start == -1 || prevStart < start <= |t|)
      && (end == -1 || 0 <= end <= |t|)
      && CheckFrom(t, prevStart, prevEnd) ==
         if start == -1 && end == -1 then []
         else if end == -1 then [Error(LineAt(t, start), MissingEnd, None)]
         else if start == -1 || end < start then [Error(LineAt(t, end), UnexpectedEnd, None)]
         else if start < prevEnd then [Error(LineAt(t, start), UnexpectedStart, None)]
         else RegionErrors(t, start, end) + CheckFrom(t, start, end)
  {
    hide RegionErrors, LineAt;
  }

  /** `sort_lines` with `_sort_lines_impl`; `None` stands for a RuntimeError. */
  method SortLines(lines: string) returns (result: Option<string>)
    ensures result == if IsSortable(lines) then Some(SortedText(lines)) else None
  {
    if |lines| == 0 {
      return Some(lines);
    }
    if lines[|lines| - 1] != '\n' {
      return None;
    }
    var sorted := Join(Sorted(Lines(lines)));
    SortableIsComplete(lines);
    if |sorted| != |lines| {
      assert false; // the second RuntimeError
    }
    return Some(sorted);
  }

  /** `check_file`; its RuntimeErrors are unreachable. */
  method CheckFile(contents: string) returns (errors: seq<Error>)
    ensures errors == Check(contents)
  {
    hide SortedText, LineAt, Find, CheckFrom, RegionErrors, At;
    var prevStart, prevEnd := -1, -1;
    errors := [];
    while true
      invariant prevStart >= -1 && prevEnd >= -1
      invariant errors + CheckFrom(contents, prevStart, prevEnd) == Check(contents)
      decreases |contents| - prevStart
    {
      CheckUnfold(contents, prevStart, prevEnd);
      var start, end := Find(contents, START_MARKER, prevStart + 1), Find(contents, END_MARKER, prevEnd + 1);
      if start == -1 && end == -1 {
        return;
      }
      if end == -1 {
        errors := errors + [Error(LineAt(contents, start), MissingEnd, None)];
        return;
      }
      if start == -1 || end < start {
        errors := errors + [Error(LineAt(contents, end), UnexpectedEnd, None)];
        return;
      }
      if start < prevEnd {
        errors := errors + [Error(LineAt(contents, start), UnexpectedStart, None)];
        return;
      }
      var found := CheckRegion(contents, start, end);
      errors := errors + found;
      prevStart, prevEnd := start, end;
    }
  }

  /** The rest of the loop body of `check_file`. */
  method CheckRegion(contents: string, start: nat, end: nat) returns (errors: seq<Error>)
    requires start <= end <= |contents|
    ensures errors == RegionErrors(contents, start, end)
  {
    hide SortedText, LineAt, FirstNewline, LastNewline, FirstDifference, Lines, Sorted, IsSorted, AreLines, IsComplete;
    errors := [];
    var startLines, endLines := FirstNewline(contents, start, end), LastNewline(contents, start, end);
    if startLines == -1 || endLines == -1 {
      errors := errors + [Error(LineAt(contents, start), SameLine, None)];
    }
    startLines, endLines := startLines + 1, endLines + 1;
    ghost var r := RegionOf(contents, start, end);
    var lines := contents[startLines..endLines];
    SortableIsComplete(lines);
    var result := SortLines(lines);
    if result.None? {
      assert false; // the first RuntimeError
    } else {
      var sortedLines := result.value;
      if sortedLines != lines {
        var index := FindDifference(sortedLines, lines);
        errors := errors + [Error(LineAt(contents, startLines + index), NotSorted, Some(Fix(startLines, endLines, sortedLines)))];
      }
    }
  }

  /** The search for the first character that is out of place. */
  method FindDifference(sortedLines: string, lines: string) returns (index: nat)
    requires |sortedLines| == |lines| && sortedLines != lines
    ensures index == FirstDifference(sortedLines, lines)
  {
    index := 0;
    while index < |lines| && sortedLines[index] == lines[index]
      invariant index <= |lines|
      invariant forall k :: 0 <= k < index ==> sortedLines[k] == lines[k]
    {
      index := index + 1;
    }
    if index == |lines| {
      assert false; // the third RuntimeError
    }
    DifferenceIs(sortedLines, lines, index);
  }

  lemma {:induction false} DifferenceIs(a: string, b: string, index: nat)
    requires |a| == |b| && a != b && index < |a| && a[index] != b[index]
    requires forall k :: 0 <= k < index ==> a[k] == b[k]
    ensures FirstDifference(a, b) == index
  {
    var n := FirstDifference(a, b);
    var same, same' := a[..n], b[..n];
    assert forall k :: 0 <= k < n ==> a[k] == same[k] && b[k] == same'[k];
  }

  // ---------------------------------------------------------------------------------------------
  // Applying fixes
  // ---------------------------------------------------------------------------------------------

  /** `t[from:until]`. */
  function Slice(t: string, from: nat, until: nat): string {
    var end := if until <= |t| then until else |t|;
    if from <= end then t[from..end] else ""
  }

  /** `t` from `prevEnd` on with the fixes applied. */
  function Applied(t: string, fixes: seq<Fix>, prevEnd: nat): string {
    if fixes == [] then Slice(t, prevEnd, |t|)
    else Slice(t, prevEnd, fixes[0].start) + fixes[0].replacement + Applied(t, fixes[1..], fixes[0].end)
  }

  /** `apply_fixes`. */
  method ApplyFixes(contents: string, fixes: seq<Fix>) returns (result: string)
    ensures result == Applied(contents, fixes, 0)
  {
    hide Slice;
    result := "";
    var prevEnd: nat := 0;
    for i := 0 to |fixes|
      invariant result + Applied(contents, fixes[i..], prevEnd) == Applied(contents, fixes, 0)
    {
      var fix := fixes[i];
      assert fixes[i..][0] == fix && fixes[i..][1..] == fixes[i + 1..];
      result := result + Slice(contents, prevEnd, fix.start);
      result := result + fix.replacement;
      prevEnd := fix.end;
    }
    result := result + Slice(contents, prevEnd, |contents|);
  }

  /** The fixes of those errors that have one. */
  function Fixes(errors: seq<Error>): seq<Fix> {
    if errors == [] then []
    else (if errors[0].fix.Some? then [errors[0].fix.value] else []) + Fixes(errors[1..])
  }

  lemma {:induction false} FixesConcat(a: seq<Error>, b: seq<Error>)
    ensures Fixes(a + b) == Fixes(a) + Fixes(b)
  {
    if a == [] {
      assert a + b == b;
    } else {
      var first := if a[0].fix.Some? then [a[0].fix.value] else [];
      assert (a + b)[1..] == a[1..] + b;
      FixesConcat(a[1..], b);
      assert first + (Fixes(a[1..]) + Fixes(b)) == first + Fixes(a[1..]) + Fixes(b);
    }
  }

  // ---------------------------------------------------------------------------------------------
  // The regions of a text
  // ---------------------------------------------------------------------------------------------

  /** All reported problems are unsorted regions. */
  predicate HaveFixes(errors: seq<Error>) {
    forall k :: 0 <= k < |errors| ==> errors[k].fix.Some?
  }

  /** The regions that the loop still visits. */
  function Regions(t: string, prevStart: int, prevEnd: int): seq<Region>
    requires prevStart >= -1 && prevEnd >= -1
    decreases |t| - prevStart
  {
    var start, end := Find(t, START_MARKER, prevStart + 1), Find(t, END_MARKER, prevEnd + 1);
    if start == -1 || end == -1 || end < start || start < prevEnd then []
    else [RegionOf(t, start, end)] + Regions(t, start, end)
  }

  /** A region without further markers, between whole lines. */
  ghost predicate PlacedRegion(t: string, r: Region) {
    && r.start < r.lo <= r.hi <= r.end <= |t|
    && t[r.lo - 1] == '\n' && t[r.hi - 1] == '\n'
    && (forall i :: r.start <= i < r.lo - 1 || r.hi <= i < r.end ==> t[i] != '\n')
    && (forall i :: r.start < i < r.end ==> !At(t, i, START_MARKER) && !At(t, i, END_MARKER))
  }

  predicate Apart(r: Region, r': Region) {
    r == r' || r.end <= r'.start || r'.end <= r.start
  }

  ghost predicate Placed(t: string, rs: seq<Region>) {
    && (forall r :: r in rs ==> PlacedRegion(t, r))
    && (forall r, r' :: r in rs && r' in rs ==> Apart(r, r'))
  }

  ghost predicate From(rs: seq<Region>, from: int) {
    forall r :: r in rs ==> from <= r.start
  }

  lemma Onward(t: string, prevStart: int, prevEnd: int)
    requires prevStart >= -1 && prevEnd >= -1 && HaveFixes(CheckFrom(t, prevStart, prevEnd))
    ensures
      var start, end := Find(t, START_MARKER, prevStart + 1), Find(t, END_MARKER, prevEnd + 1);
      && (start == -1 <==> end == -1)
      && (start != -1 ==>
            && prevStart < start <= end <= |t| && start >= prevEnd && !OnSameLine(t, start, end)
            && HaveFixes(CheckFrom(t, start, end)))
  {
    hide CheckFrom, LineAt, At, Find;
    CheckUnfold(t, prevStart, prevEnd);
    var errors := CheckFrom(t, prevStart, prevEnd);
    var start, end := Find(t, START_MARKER, prevStart + 1), Find(t, END_MARKER, prevEnd + 1);
    assert errors != [] ==> errors[0].fix.Some?;
    if start != -1 && end != -1 && start <= end && start >= prevEnd {
      TailHasFixes(RegionErrors(t, start, end), CheckFrom(t, start, end));
      assert RegionErrors(t, start, end) != [] ==> RegionErrors(t, start, end)[0] == errors[0];
    }
  }

  lemma TailHasFixes(a: seq<Error>, b: seq<Error>)
    requires HaveFixes(a + b)
    ensures HaveFixes(b)
  {
    forall k | 0 <= k < |b|
      ensures b[k].fix.Some?
    {
      assert b[k] == (a + b)[|a| + k];
    }
  }

  lemma FindIs(t: string, word: string, from: nat, r: int)
    requires r == Find(t, word, from)
    ensures r == -1 || (from <= r && At(t, r, word))
    ensures forall i :: from <= i && (r == -1 || i < r) ==> !At(t, i, word)
  {
  }

  lemma RegionIsPlaced(t: string, prevStart: int, prevEnd: int, start: nat, end: nat)
    requires prevStart >= -1 && prevEnd >= -1 && HaveFixes(CheckFrom(t, prevStart, prevEnd))
    requires start == Find(t, START_MARKER, prevStart + 1) && end == Find(t, END_MARKER, prevEnd + 1)
    requires start <= end <= |t|
    ensures PlacedRegion(t, RegionOf(t, start, end))
  {
    hide CheckFrom, At, Find;
    Onward(t, prevStart, prevEnd);
    Onward(t, start, end);
    FindIs(t, END_MARKER, prevEnd + 1, end);
    FindIs(t, START_MARKER, start + 1, Find(t, START_MARKER, start + 1));
  }

  lemma {:induction false} RegionsArePlaced(t: string, prevStart: int, prevEnd: int)
    requires prevStart >= -1 && prevEnd >= -1 && HaveFixes(CheckFrom(t, prevStart, prevEnd))
    ensures Placed(t, Regions(t, prevStart, prevEnd)) && From(Regions(t, prevStart, prevEnd), prevEnd)
    decreases |t| - prevStart
  {
    hide CheckFrom, At, Find, PlacedRegion, RegionOf, HaveFixes;
    Onward(t, prevStart, prevEnd);
    var start, end := Find(t, START_MARKER, prevStart + 1), Find(t, END_MARKER, prevEnd + 1);
    if start != -1 {
      RegionsArePlaced(t, start, end);
      RegionIsPlaced(t, prevStart, prevEnd, start, end);
      RegionEnds(t, start, end);
      PlacedMore(t, RegionOf(t, start, end), Regions(t, start, end));
    }
  }

  lemma RegionEnds(t: string, start: nat, end: nat)
    requires start <= end <= |t|
    ensures RegionOf(t, start, end).start == start && RegionOf(t, start, end).end == end
  {
  }

  lemma PlacedMore(t: string, r: Region, rs: seq<Region>)
    requires PlacedRegion(t, r) && Placed(t, rs) && From(rs, r.end) && r.start <= r.end
    ensures Placed(t, [r] + rs) && From([r] + rs, r.start)
  {
    hide PlacedRegion;
    forall x | x in [r] + rs
      ensures x == r || x in rs
    {
    }
    assert forall x :: x in rs ==> PlacedRegion(t, x);
    forall x | x in rs
      ensures r.start <= x.start
    {
    }
  }
}
