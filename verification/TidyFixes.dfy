/**
  What `scripts/tidy_alphabetical.py` achieves: the fixes rewrite a text so that a second check has
  nothing to report, and having nothing to report means what it should.
 */
module TidyFixes {
  import opened TidyLines
  import opened TidyAlphabetical

  // ---------------------------------------------------------------------------------------------
  // What applying the fixes does to the text
  // ---------------------------------------------------------------------------------------------

  /** `t` from `prevEnd` on with every region sorted. */
  function FixedFrom(t: string, rs: seq<Region>, prevEnd: nat): string {
    if rs == [] then Slice(t, prevEnd, |t|)
    else Slice(t, prevEnd, rs[0].lo) + SortedText(Slice(t, rs[0].lo, rs[0].hi)) + FixedFrom(t, rs[1..], rs[0].hi)
  }

  lemma SliceConcat(t: string, from: nat, mid: nat, until: nat)
    requires from <= mid <= until <= |t|
    ensures Slice(t, from, until) == Slice(t, from, mid) + Slice(t, mid, until)
  {
  }

  lemma FixedSplits(t: string, rs: seq<Region>, from: nat, mid: nat)
    requires from <= mid <= |t| && (rs == [] || mid <= rs[0].lo <= |t|)
    ensures FixedFrom(t, rs, from) == Slice(t, from, mid) + FixedFrom(t, rs, mid)
  {
    hide Slice, SortedText;
    if rs == [] {
      SliceConcat(t, from, mid, |t|);
    } else {
      SliceConcat(t, from, mid, rs[0].lo);
      ConcatAssociates(Slice(t, from, mid), Slice(t, mid, rs[0].lo), SortedText(Slice(t, rs[0].lo, rs[0].hi)),
                       FixedFrom(t, rs[1..], rs[0].hi));
    }
  }

  lemma ConcatAssociates(a: string, b: string, c: string, d: string)
    ensures (a + b) + c + d == a + (b + c + d)
  {
  }

  lemma RegionFixes(t: string, start: nat, end: nat)
    requires start <= end <= |t| && !OnSameLine(t, start, end)
    ensures
      var r := RegionOf(t, start, end);
      var sorted := SortedText(Slice(t, r.lo, r.hi));
      Fixes(RegionErrors(t, start, end)) == if sorted == Slice(t, r.lo, r.hi) then [] else [Fix(r.lo, r.hi, sorted)]
  {
    hide SortedText, FirstNewline, LastNewline, LineAt, FirstDifference;
    var r := RegionOf(t, start, end);
    assert Slice(t, r.lo, r.hi) == t[r.lo..r.hi];
    var errors := RegionErrors(t, start, end);
    assert errors != [] ==> errors == [errors[0]] && errors[1..] == [];
  }

  /** Applying the reported fixes sorts every region. */
  lemma {:induction false} AppliedIsFixed(t: string, prevStart: int, prevEnd: int, from: nat)
    requires prevStart >= -1 && prevEnd >= -1 && HaveFixes(CheckFrom(t, prevStart, prevEnd))
    requires from <= |t| && (from == 0 || from <= prevEnd)
    ensures Applied(t, Fixes(CheckFrom(t, prevStart, prevEnd)), from) == FixedFrom(t, Regions(t, prevStart, prevEnd), from)
    decreases |t| - prevStart
  {
    hide CheckFrom, Find, At, HaveFixes, RegionOf, RegionErrors, OnSameLine, SortedText, Slice, Regions, PlacedRegion;
    CheckUnfold(t, prevStart, prevEnd);
    RegionsUnfold(t, prevStart, prevEnd);
    Onward(t, prevStart, prevEnd);
    var start, end := Find(t, START_MARKER, prevStart + 1), Find(t, END_MARKER, prevEnd + 1);
    if start != -1 {
      var r, more := RegionOf(t, start, end), Regions(t, start, end);
      RegionIsPlaced(t, prevStart, prevEnd, start, end);
      PlacedRegionBounds(t, r);
      RegionEnds(t, start, end);
      FixesConcat(RegionErrors(t, start, end), CheckFrom(t, start, end));
      RegionFixes(t, start, end);
      var lines := Slice(t, r.lo, r.hi);
      assert Regions(t, prevStart, prevEnd) == [r] + more;
      assert ([r] + more)[1..] == more;
      if SortedText(lines) == lines {
        AppliedIsFixed(t, start, end, from);
        RegionsArePlaced(t, start, end);
        FirstPlaced(t, more, r.hi);
        FixedSplits(t, more, from, r.hi);
        SliceConcat(t, from, r.lo, r.hi);
        assert [] + Fixes(CheckFrom(t, start, end)) == Fixes(CheckFrom(t, start, end));
      } else {
        AppliedIsFixed(t, start, end, r.hi);
        AppliedUnfold(t, Fix(r.lo, r.hi, SortedText(lines)), Fixes(CheckFrom(t, start, end)), from);
      }
    }
  }

  lemma AppliedUnfold(t: string, fix: Fix, fixes: seq<Fix>, from: nat)
    ensures Applied(t, [fix] + fixes, from) == Slice(t, from, fix.start) + fix.replacement + Applied(t, fixes, fix.end)
  {
    assert ([fix] + fixes)[1..] == fixes;
  }

  lemma RegionsUnfold(t: string, prevStart: int, prevEnd: int)
    requires prevStart >= -1 && prevEnd >= -1
    ensures
      var start, end := Find(t, START_MARKER, prevStart + 1), Find(t, END_MARKER, prevEnd + 1);
      && (start == -1 || prevStart < start <= |t|)
      && (end == -1 || 0 <= end <= |t|)
      && Regions(t, prevStart, prevEnd) ==
         if start == -1 || end == -1 || end < start || start < prevEnd then []
         else [RegionOf(t, start, end)] + Regions(t, start, end)
  {
  }

  lemma PlacedRegionBounds(t: string, r: Region)
    requires PlacedRegion(t, r)
    ensures r.start < r.lo <= r.hi <= r.end <= |t|
  {
  }

  lemma FirstPlaced(t: string, rs: seq<Region>, mid: nat)
    requires Placed(t, rs) && From(rs, mid)
    ensures rs == [] || mid <= rs[0].lo <= |t|
  {
    if rs != [] {
      assert rs[0] in rs;
    }
  }

  ghost predicate Outside(rs: seq<Region>, i: int) {
    forall r :: r in rs ==> !(r.lo <= i < r.hi)
  }

  /** `fixed` is `t` from `from` on with the regions sorted and nothing else changed. */
  ghost predicate Rewritten(t: string, fixed: string, rs: seq<Region>, from: nat) {
    && from + |fixed| == |t|
    && (forall r :: r in rs ==> from <= r.lo <= r.hi <= |t| && fixed[r.lo - from..r.hi - from] == SortedText(t[r.lo..r.hi]))
    && (forall i :: from <= i < |t| && Outside(rs, i) ==> fixed[i - from] == t[i])
  }

  lemma RewrittenMore(t: string, r: Region, rs: seq<Region>, rest: string, from: nat)
    requires from <= r.lo <= r.hi <= r.end <= |t| && From(rs, r.end) && Rewritten(t, rest, rs, r.hi)
    requires |SortedText(t[r.lo..r.hi])| == r.hi - r.lo
    ensures Rewritten(t, t[from..r.lo] + SortedText(t[r.lo..r.hi]) + rest, [r] + rs, from)
  {
    hide SortedText;
    var sorted := SortedText(t[r.lo..r.hi]);
    var fixed := t[from..r.lo] + sorted + rest;
    assert fixed[r.lo - from..r.hi - from] == sorted;
    forall x | x in [r] + rs
      ensures from <= x.lo <= x.hi <= |t| && fixed[x.lo - from..x.hi - from] == SortedText(t[x.lo..x.hi])
    {
      if x != r {
        assert x in rs;
        assert fixed[x.lo - from..x.hi - from] == rest[x.lo - r.hi..x.hi - r.hi];
      }
    }
    forall i | from <= i < |t| && Outside([r] + rs, i)
      ensures fixed[i - from] == t[i]
    {
      assert r in [r] + rs;
      assert Outside(rs, i) by {
        assert forall x :: x in rs ==> x in [r] + rs;
      }
    }
  }

  lemma {:induction false} FixedIsRewritten(t: string, prevStart: int, prevEnd: int, from: nat)
    requires prevStart >= -1 && prevEnd >= -1 && HaveFixes(CheckFrom(t, prevStart, prevEnd))
    requires from <= |t| && (from == 0 || from <= prevEnd)
    ensures Rewritten(t, FixedFrom(t, Regions(t, prevStart, prevEnd), from), Regions(t, prevStart, prevEnd), from)
    decreases |t| - prevStart
  {
    hide CheckFrom, Find, At, HaveFixes, RegionOf, OnSameLine, SortedText, Regions, PlacedRegion, Rewritten;
    RegionsUnfold(t, prevStart, prevEnd);
    Onward(t, prevStart, prevEnd);
    var start, end := Find(t, START_MARKER, prevStart + 1), Find(t, END_MARKER, prevEnd + 1);
    if start == -1 {
      RewrittenNothing(t, from);
    } else {
      var r, more := RegionOf(t, start, end), Regions(t, start, end);
      RegionIsPlaced(t, prevStart, prevEnd, start, end);
      PlacedRegionBounds(t, r);
      RegionEnds(t, start, end);
      RegionsArePlaced(t, start, end);
      FixedIsRewritten(t, start, end, r.hi);
      assert IsSortable(t[r.lo..r.hi]);
      SortableIsComplete(t[r.lo..r.hi]);
      RewrittenMore(t, r, more, FixedFrom(t, more, r.hi), from);
      assert ([r] + more)[1..] == more;
      assert Slice(t, r.lo, r.hi) == t[r.lo..r.hi] && Slice(t, from, r.lo) == t[from..r.lo];
    }
  }

  lemma RewrittenNothing(t: string, from: nat)
    requires from <= |t|
    ensures Rewritten(t, FixedFrom(t, [], from), [], from)
  {
  }

  // ---------------------------------------------------------------------------------------------
  // The second check
  // ---------------------------------------------------------------------------------------------

  /** A word without line ends that starts outside the regions lies outside them. */
  lemma SpansOutside(x: string, rs: seq<Region>, i: int, word: string)
    requires At(x, i, word) && HasNoBreak(word) && Outside(rs, i)
    requires forall r :: r in rs ==> 0 < r.lo <= |x| && IsBreak(x[r.lo - 1])
    ensures forall p :: i <= p < i + |word| ==> Outside(rs, p)
  {
    hide At, IsBreak;
    forall p | i <= p < i + |word|
      ensures Outside(rs, p)
    {
      forall r | r in rs
        ensures !(r.lo <= p < r.hi)
      {
        if r.lo <= p < r.hi {
          BreakInWord(x, r.lo - 1, i, word);
          assert false;
        }
      }
    }
  }

  lemma EndsWithinRegion(x: string, r: Region, i: int, word: string)
    requires At(x, i, word) && HasNoBreak(word) && r.lo <= i < r.hi <= |x| && IsBreak(x[r.hi - 1])
    ensures i + |word| < r.hi
  {
    hide At, IsBreak;
    if i + |word| >= r.hi {
      BreakInWord(x, r.hi - 1, i, word);
      assert false;
    }
  }

  lemma AtSame(a: string, b: string, i: int, word: string)
    requires At(a, i, word) && |a| == |b| && forall p :: i <= p < i + |word| ==> 0 <= p < |a| && a[p] == b[p]
    ensures At(b, i, word)
  {
    assert b[i..i + |word|] == a[i..i + |word|];
  }

  lemma AtSlice(t: string, lo: nat, hi: nat, i: int, word: string)
    requires lo <= hi <= |t|
    ensures lo <= i && i + |word| <= hi && At(t, i, word) ==> At(t[lo..hi], i - lo, word)
    ensures At(t[lo..hi], i - lo, word) ==> At(t, i, word) && lo <= i && i + |word| <= hi
  {
    if lo <= i && i + |word| <= hi {
      SliceOfSlice(t, lo, hi, i - lo, i - lo + |word|);
    }
  }

  lemma SliceOfSlice(t: string, lo: nat, hi: nat, from: nat, until: nat)
    requires from <= until && lo + until <= hi <= |t|
    ensures t[lo..hi][from..until] == t[lo + from..lo + until]
  {
    var part := t[lo..hi];
    forall k | 0 <= k < until - from
      ensures part[from..until][k] == t[lo + from..lo + until][k]
    {
      assert part[from..until][k] == part[from + k];
    }
  }

  lemma BesideRegions(t: string, rs: seq<Region>, r: Region, p: int)
    requires Placed(t, rs) && r in rs && (r.start <= p < r.lo || r.hi <= p < r.end)
    ensures 0 <= p < |t| && Outside(rs, p)
  {
    hide At;
    assert PlacedRegion(t, r);
    forall x | x in rs
      ensures !(x.lo <= p < x.hi)
    {
      assert PlacedRegion(t, x) && Apart(r, x);
    }
  }

  lemma SortedEnd(t: string, lo: nat, hi: nat, fixed: string)
    requires 0 < lo <= hi <= |t| == |fixed| && t[hi - 1] == '\n' && fixed[lo - 1] == '\n'
    requires fixed[lo..hi] == SortedText(t[lo..hi])
    ensures IsSortable(t[lo..hi]) && IsBreak(fixed[hi - 1])
  {
    hide SortedText, Lines, Sorted, Join, IsBreak;
    NewlineIsBreak();
    var lines, sorted := t[lo..hi], fixed[lo..hi];
    if lo < hi {
      assert lines[|lines| - 1] == t[hi - 1];
      SortedTextSorts(lines);
      assert sorted[|sorted| - 1] == fixed[hi - 1];
    }
  }

  /** The sorted region ends its last line where the region ended before. */
  lemma RegionStillEnds(t: string, fixed: string, rs: seq<Region>, r: Region)
    requires Placed(t, rs) && Rewritten(t, fixed, rs, 0) && r in rs
    ensures 0 < r.lo <= r.hi <= |t| == |fixed|
    ensures fixed[r.lo - 1] == '\n' && IsBreak(fixed[r.hi - 1]) && IsSortable(t[r.lo..r.hi]) && IsComplete(t[r.lo..r.hi])
    ensures forall p :: r.start <= p < r.lo || r.hi <= p < r.end ==> 0 <= p < |t| && fixed[p] == t[p]
  {
    hide SortedText, At, IsBreak, Placed, IsSortable, IsComplete;
    assert PlacedRegion(t, r) by {
      RegionPlaced(t, rs, r);
    }
    forall p | r.start <= p < r.lo || r.hi <= p < r.end
      ensures 0 <= p < |t| && fixed[p] == t[p]
    {
      BesideRegions(t, rs, r, p);
      assert fixed[p - 0] == t[p];
    }
    SortedEnd(t, r.lo, r.hi, fixed);
    SortableIsComplete(t[r.lo..r.hi]);
  }

  lemma RegionPlaced(t: string, rs: seq<Region>, r: Region)
    requires Placed(t, rs) && r in rs
    ensures PlacedRegion(t, r)
  {
    hide PlacedRegion;
  }

  ghost predicate SameWords(a: string, b: string, word: string) {
    forall i :: At(a, i, word) <==> At(b, i, word)
  }

  lemma WordInFixed(t: string, fixed: string, rs: seq<Region>, word: string, i: int)
    requires Placed(t, rs) && Rewritten(t, fixed, rs, 0) && word != "" && HasNoBreak(word)
    requires forall r, j :: r in rs && r.lo <= j < r.hi ==> !At(t, j, word)
    requires At(fixed, i, word)
    ensures At(t, i, word)
  {
    hide At, PlacedRegion, SortedText, HasNoBreak, IsComplete, Placed, IsBreak;
    forall r | r in rs
      ensures 0 < r.lo <= |fixed| && IsBreak(fixed[r.lo - 1])
    {
      RegionStillEnds(t, fixed, rs, r);
      NewlineIsBreak();
    }
    if r :| r in rs && r.lo <= i < r.hi {
      RegionStillEnds(t, fixed, rs, r);
      EndsWithinRegion(fixed, r, i, word);
      AtSlice(fixed, r.lo, r.hi, i, word);
      var j := SortingKeepsWords(t[r.lo..r.hi], i - r.lo, word);
      AtSlice(t, r.lo, r.hi, r.lo + j, word);
      assert false;
    } else {
      SpansOutside(fixed, rs, i, word);
      AtBounds(fixed, i, word);
      AtSame(fixed, t, i, word);
    }
  }

  lemma NewlineIsBreak()
    ensures IsBreak('\n')
  {
  }

  lemma AtBounds(t: string, i: int, word: string)
    requires At(t, i, word)
    ensures 0 <= i && i + |word| <= |t|
  {
  }

  lemma WordInText(t: string, fixed: string, rs: seq<Region>, word: string, i: int)
    requires Placed(t, rs) && Rewritten(t, fixed, rs, 0) && word != "" && HasNoBreak(word)
    requires forall r, j :: r in rs && r.lo <= j < r.hi ==> !At(t, j, word)
    requires At(t, i, word)
    ensures At(fixed, i, word)
  {
    hide At, SortedText, HasNoBreak, IsBreak;
    forall r | r in rs
      ensures 0 < r.lo <= |t| && IsBreak(t[r.lo - 1])
    {
      assert PlacedRegion(t, r);
      NewlineIsBreak();
    }
    SpansOutside(t, rs, i, word);
    AtBounds(t, i, word);
    AtSame(t, fixed, i, word);
  }

  /** No marker appears, disappears or moves. */
  lemma NoMarkerInside(t: string, r: Region, j: int)
    requires PlacedRegion(t, r) && r.lo <= j < r.hi
    ensures !At(t, j, START_MARKER) && !At(t, j, END_MARKER)
  {
    hide At;
  }

  lemma MarkersKept(t: string, fixed: string, rs: seq<Region>)
    requires Placed(t, rs) && Rewritten(t, fixed, rs, 0)
    ensures SameWords(t, fixed, START_MARKER) && SameWords(t, fixed, END_MARKER)
  {
    hide At, SortedText, Rewritten, PlacedRegion;
    forall r, j | r in rs && r.lo <= j < r.hi
      ensures !At(t, j, START_MARKER) && !At(t, j, END_MARKER)
    {
      assert PlacedRegion(t, r);
      NoMarkerInside(t, r, j);
    }
    forall word, i | word == START_MARKER || word == END_MARKER
      ensures At(t, i, word) <==> At(fixed, i, word)
    {
      if At(t, i, word) {
        WordInText(t, fixed, rs, word, i);
      }
      if At(fixed, i, word) {
        WordInFixed(t, fixed, rs, word, i);
      }
    }
  }

  lemma FindSame(a: string, b: string, word: string, from: nat)
    requires SameWords(a, b, word)
    ensures Find(a, word, from) == Find(b, word, from)
  {
    hide At, Find;
    FindIs(a, word, from, Find(a, word, from));
    FindIs(b, word, from, Find(b, word, from));
  }

  /** A sorted region gives nothing to report. */
  lemma RegionPasses(t: string, fixed: string, rs: seq<Region>, r: Region)
    requires Placed(t, rs) && Rewritten(t, fixed, rs, 0) && r in rs
    ensures r.start <= r.end <= |fixed| && RegionErrors(fixed, r.start, r.end) == []
  {
    hide At, SortedText, IsComplete, IsBreak, IsSortable, Placed, RegionErrors, FirstNewline, LastNewline;
    RegionStillEnds(t, fixed, rs, r);
    RegionPlaced(t, rs, r);
    SameFirstNewline(fixed, r);
    SameOrEarlierEnd(fixed, r);
    assert fixed[r.lo - 0..r.hi - 0] == SortedText(t[r.lo..r.hi]);
    SortedPasses(fixed, r, t[r.lo..r.hi]);
  }

  lemma SameFirstNewline(fixed: string, r: Region)
    requires r.start < r.lo <= r.end <= |fixed| && fixed[r.lo - 1] == '\n'
    requires forall i :: r.start <= i < r.lo - 1 ==> fixed[i] != '\n'
    ensures FirstNewline(fixed, r.start, r.end) == r.lo - 1
  {
    assert FirstNewline(fixed, r.start, r.end) != -1;
  }

  lemma SameOrEarlierEnd(fixed: string, r: Region)
    requires r.start < r.lo <= r.hi <= r.end <= |fixed| && fixed[r.lo - 1] == '\n'
    requires forall i :: r.hi <= i < r.end ==> fixed[i] != '\n'
    ensures r.lo <= LastNewline(fixed, r.start, r.end) + 1 <= r.hi
  {
    assert LastNewline(fixed, r.start, r.end) != -1;
  }

  lemma SortedPasses(fixed: string, r: Region, lines: string)
    requires r.start < r.lo <= r.hi <= r.end <= |fixed|
    requires FirstNewline(fixed, r.start, r.end) == r.lo - 1
    requires r.lo <= LastNewline(fixed, r.start, r.end) + 1 <= r.hi
    requires IsComplete(lines) && fixed[r.lo..r.hi] == SortedText(lines)
    ensures RegionErrors(fixed, r.start, r.end) == []
  {
    hide SortedText, FirstNewline, LastNewline, LineAt, FirstDifference, IsComplete, Lines, Sorted, IsSorted;
    var now := RegionOf(fixed, r.start, r.end);
    SliceOfSlice(fixed, r.lo, r.hi, 0, now.hi - r.lo);
    SortableIsComplete(fixed[r.lo..now.hi]);
    PrefixIsSorted(lines, now.hi - r.lo);
  }

  lemma {:induction false} SecondCheck(t: string, fixed: string, rs: seq<Region>, prevStart: int, prevEnd: int)
    requires prevStart >= -1 && prevEnd >= -1 && HaveFixes(CheckFrom(t, prevStart, prevEnd))
    requires Placed(t, rs) && Rewritten(t, fixed, rs, 0)
    requires SameWords(t, fixed, START_MARKER) && SameWords(t, fixed, END_MARKER)
    requires forall r :: r in Regions(t, prevStart, prevEnd) ==> r in rs
    ensures CheckFrom(fixed, prevStart, prevEnd) == []
    decreases |t| - prevStart
  {
    hide CheckFrom, Find, At, HaveFixes, RegionOf, RegionErrors, OnSameLine, Regions, Placed, Rewritten, SameWords, LineAt;
    FindSame(t, fixed, START_MARKER, prevStart + 1);
    FindSame(t, fixed, END_MARKER, prevEnd + 1);
    CheckUnfold(fixed, prevStart, prevEnd);
    RegionsUnfold(t, prevStart, prevEnd);
    Onward(t, prevStart, prevEnd);
    var start, end := Find(t, START_MARKER, prevStart + 1), Find(t, END_MARKER, prevEnd + 1);
    if start != -1 {
      var r, more := RegionOf(t, start, end), Regions(t, start, end);
      RegionEnds(t, start, end);
      assert r in [r] + more;
      RegionPasses(t, fixed, rs, r);
      assert forall x :: x in more ==> x in [r] + more;
      SecondCheck(t, fixed, rs, start, end);
    }
  }

  /**
    If unsorted regions are all that the check reports, applying the fixes leaves everything outside the
    regions and every marker in place, makes each region the sorted arrangement of its own lines, and a
    second check reports nothing.
   */
  lemma FixingSucceeds(t: string)
    requires HaveFixes(Check(t))
    ensures
      var fixed, rs := Applied(t, Fixes(Check(t)), 0), Regions(t, -1, -1);
      && |fixed| == |t| && Check(fixed) == []
      && (forall i :: 0 <= i < |t| && Outside(rs, i) ==> fixed[i] == t[i])
      && SameWords(t, fixed, START_MARKER) && SameWords(t, fixed, END_MARKER)
      && (forall r :: r in rs ==>
            && r.lo <= r.hi <= |t|
            && IsSorted(Lines(fixed[r.lo..r.hi]))
            && multiset(Lines(fixed[r.lo..r.hi])) == multiset(Lines(t[r.lo..r.hi])))
  {
    hide CheckFrom, Find, At, HaveFixes, Regions, SameWords, SortedText, Lines, IsSorted, IsComplete, FixedFrom, Applied, PlacedRegion;
    var fixed, rs := Applied(t, Fixes(Check(t)), 0), Regions(t, -1, -1);
    AppliedIsFixed(t, -1, -1, 0);
    FixedIsRewritten(t, -1, -1, 0);
    RegionsArePlaced(t, -1, -1);
    MarkersKept(t, fixed, rs);
    SecondCheck(t, fixed, rs, -1, -1);
    forall r | r in rs
      ensures r.lo <= r.hi <= |t| && IsSorted(Lines(fixed[r.lo..r.hi]))
      ensures multiset(Lines(fixed[r.lo..r.hi])) == multiset(Lines(t[r.lo..r.hi]))
    {
      RegionStillEnds(t, fixed, rs, r);
      SortedTextSorts(t[r.lo..r.hi]);
    }
  }

  // ---------------------------------------------------------------------------------------------
  // What it means that there is nothing to report
  // ---------------------------------------------------------------------------------------------

  ghost predicate StartsAt(rs: seq<Region>, i: int) {
    exists r :: r in rs && r.start == i
  }

  ghost predicate EndsAt(rs: seq<Region>, i: int) {
    exists r :: r in rs && r.end == i
  }

  /** The markers are exactly those of some regions, of which no two overlap, and whose lines are in order. */
  ghost predicate IsTidy(t: string, rs: seq<Region>) {
    && Placed(t, rs)
    && (forall i :: At(t, i, START_MARKER) <==> StartsAt(rs, i))
    && (forall i :: At(t, i, END_MARKER) <==> EndsAt(rs, i))
    && (forall r :: r in rs ==> IsSorted(Lines(t[r.lo..r.hi])))
  }

  lemma SilentRegion(t: string, start: nat, end: nat)
    requires start <= end <= |t| && RegionErrors(t, start, end) == []
    ensures var r := RegionOf(t, start, end); IsSorted(Lines(t[r.lo..r.hi]))
  {
    hide SortedText, Lines, Sorted, IsSorted, FirstNewline, LastNewline, FirstDifference, LineAt;
    var r := RegionOf(t, start, end);
    SortableIsComplete(t[r.lo..r.hi]);
    SortedTextSorts(t[r.lo..r.hi]);
  }

  /** The regions visited account for all the markers that follow. */
  lemma {:induction false} SilenceMeansTidy(t: string, prevStart: int, prevEnd: int)
    requires prevStart >= -1 && prevEnd >= -1 && CheckFrom(t, prevStart, prevEnd) == []
    ensures
      var rs := Regions(t, prevStart, prevEnd);
      && (forall r :: r in rs ==> r.lo <= r.hi <= |t| && IsSorted(Lines(t[r.lo..r.hi])))
      && (forall r :: r in rs ==> At(t, r.start, START_MARKER) && At(t, r.end, END_MARKER))
      && (forall i :: i > prevStart && At(t, i, START_MARKER) ==> StartsAt(rs, i))
      && (forall i :: i > prevEnd && At(t, i, END_MARKER) ==> EndsAt(rs, i))
    decreases |t| - prevStart
  {
    hide CheckFrom, Find, At, RegionOf, RegionErrors, Regions, Lines, IsSorted, LineAt;
    CheckUnfold(t, prevStart, prevEnd);
    RegionsUnfold(t, prevStart, prevEnd);
    var start, end := Find(t, START_MARKER, prevStart + 1), Find(t, END_MARKER, prevEnd + 1);
    FindIs(t, START_MARKER, prevStart + 1, start);
    FindIs(t, END_MARKER, prevEnd + 1, end);
    if start != -1 && end != -1 {
      var r, more := RegionOf(t, start, end), Regions(t, start, end);
      RegionEnds(t, start, end);
      RegionBounds(t, start, end);
      SilentRegion(t, start, end);
      SilenceMeansTidy(t, start, end);
      assert r in [r] + more && forall x :: x in more ==> x in [r] + more;
      forall i | i > prevStart && At(t, i, START_MARKER)
        ensures StartsAt([r] + more, i)
      {
        if i > start {
          assert StartsAt(more, i);
        }
      }
      forall i | i > prevEnd && At(t, i, END_MARKER)
        ensures EndsAt([r] + more, i)
      {
        if i > end {
          assert EndsAt(more, i);
        }
      }
    }
  }

  lemma RegionBounds(t: string, start: nat, end: nat)
    requires start <= end <= |t|
    ensures var r := RegionOf(t, start, end); r.lo <= r.hi <= |t|
  {
  }

  /** The loop is between two of the given regions, or before all of them. */
  ghost predicate Between(rs: seq<Region>, prevStart: int, prevEnd: int) {
    (prevStart == -1 && prevEnd == -1) || exists r :: r in rs && r.start == prevStart && r.end == prevEnd
  }

  /** A region is still to come if its start is, and exactly then if its end is. */
  lemma StillToCome(t: string, rs: seq<Region>, prevStart: int, prevEnd: int, r: Region)
    requires Placed(t, rs) && Between(rs, prevStart, prevEnd) && r in rs
    ensures r.start > prevStart <==> r.end > prevEnd
    ensures r.start > prevStart ==> prevEnd <= r.start
  {
    hide At;
    assert PlacedRegion(t, r);
    if q :| q in rs && q.start == prevStart && q.end == prevEnd {
      assert PlacedRegion(t, q) && Apart(q, r);
    }
  }

  lemma RegionFound(t: string, rs: seq<Region>, r: Region)
    requires Placed(t, rs) && r in rs && IsSorted(Lines(t[r.lo..r.hi]))
    ensures r.start <= r.end <= |t| && RegionErrors(t, r.start, r.end) == []
  {
    hide At, SortedText, Lines, Sorted, IsSorted, FirstNewline, LastNewline, FirstDifference, LineAt, Placed, IsComplete;
    RegionPlaced(t, rs, r);
    SameFirstNewline(t, r);
    SameOrEarlierEnd(t, r);
    LastNewlineAt(t, r.start, r.end, r.hi - 1);
    assert RegionOf(t, r.start, r.end) == r;
    var lines := t[r.lo..r.hi];
    SortableIsComplete(lines);
    SortedOfSorted(Lines(lines));
    JoinOfLines(lines);
    assert SortedText(lines) == lines by {
      SortedTextIs(lines);
    }
  }

  lemma LastNewlineAt(t: string, from: nat, until: nat, i: int)
    requires from <= i < until <= |t| && t[i] == '\n'
    ensures i <= LastNewline(t, from, until)
  {
    assert LastNewline(t, from, until) != -1;
  }

  lemma SortedTextIs(lines: string)
    ensures SortedText(lines) == Join(Sorted(Lines(lines)))
  {
  }

  lemma {:induction false} TidyMeansSilence(t: string, rs: seq<Region>, prevStart: int, prevEnd: int)
    requires prevStart >= -1 && prevEnd >= -1 && IsTidy(t, rs) && Between(rs, prevStart, prevEnd)
    ensures CheckFrom(t, prevStart, prevEnd) == []
    decreases |t| - prevStart
  {
    hide CheckFrom, Find, At, RegionErrors, Lines, IsSorted, LineAt, Placed, Between;
    CheckUnfold(t, prevStart, prevEnd);
    var start, end := Find(t, START_MARKER, prevStart + 1), Find(t, END_MARKER, prevEnd + 1);
    FindIs(t, START_MARKER, prevStart + 1, start);
    FindIs(t, END_MARKER, prevEnd + 1, end);
    forall r | r in rs
      ensures r.start > prevStart <==> r.end > prevEnd
      ensures r.start > prevStart ==> prevEnd <= r.start && start != -1 && start <= r.start
      ensures r.end > prevEnd ==> end != -1 && end <= r.end
    {
      StillToCome(t, rs, prevStart, prevEnd, r);
      assert StartsAt(rs, r.start) && EndsAt(rs, r.end);
    }
    assert start != -1 ==> StartsAt(rs, start);
    assert end != -1 ==> EndsAt(rs, end);
    if start != -1 {
      var r :| r in rs && r.start == start;
      var r' :| r' in rs && r'.end == end;
      SameRegion(t, rs, r, r');
      RegionFound(t, rs, r);
      assert Between(rs, start, end) by {
        BetweenAt(rs, r);
      }
      TidyMeansSilence(t, rs, start, end);
    }
  }

  lemma BetweenAt(rs: seq<Region>, r: Region)
    requires r in rs
    ensures Between(rs, r.start, r.end)
  {
  }

  /** The region that starts first is the one that ends first. */
  lemma SameRegion(t: string, rs: seq<Region>, r: Region, r': Region)
    requires Placed(t, rs) && r in rs && r' in rs && r.start <= r'.start && r'.end <= r.end
    ensures r == r'
  {
    hide At;
    assert PlacedRegion(t, r) && PlacedRegion(t, r') && Apart(r, r');
  }

  /** There is nothing to report exactly if the markers are those of regions apart from each other with their lines in order. */
  lemma SilentIffTidy(t: string)
    ensures Check(t) == [] <==> exists rs :: IsTidy(t, rs)
  {
    hide CheckFrom, At, Find, Regions, Lines, IsSorted, PlacedRegion;
    if Check(t) == [] {
      RegionsArePlaced(t, -1, -1);
      SilenceMeansTidy(t, -1, -1);
      var rs := Regions(t, -1, -1);
      forall i
        ensures At(t, i, START_MARKER) <==> StartsAt(rs, i)
        ensures At(t, i, END_MARKER) <==> EndsAt(rs, i)
      {
        AtNowhere(t, i);
      }
      assert IsTidy(t, rs);
    }
    if rs :| IsTidy(t, rs) {
      TidyMeansSilence(t, rs, -1, -1);
    }
  }

  lemma AtNowhere(t: string, i: int)
    ensures i <= -1 ==> !At(t, i, START_MARKER) && !At(t, i, END_MARKER)
  {
  }
}
