/**
  Lines of text as `scripts/tidy_alphabetical.py` sees them: splitting with the line ends kept,
  joining, sorting by code points, and where a word can occur in joined lines.
 */
module TidyLines {

  // ---------------------------------------------------------------------------------------------
  // Splitting and joining
  // ---------------------------------------------------------------------------------------------

  /**
    What ends a line for `str.splitlines`. Carriage returns are not listed: reading a file in text mode
    has already turned them into line feeds.
   */
  predicate IsBreak(c: char) {
    c in "\n\U{0B}\U{0C}\U{1C}\U{1D}\U{1E}\U{85}\U{2028}\U{2029}"
  }

  predicate HasNoBreak(t: string) {
    forall k :: 0 <= k < |t| ==> !IsBreak(t[k])
  }

  /** One line with its end. */
  predicate IsLine(t: string) {
    t != "" && IsBreak(t[|t| - 1]) && HasNoBreak(t[..|t| - 1])
  }

  predicate AreLines(lines: seq<string>) {
    forall k :: 0 <= k < |lines| ==> IsLine(lines[k])
  }

  /** Empty, or ending with the end of a line. */
  predicate IsComplete(t: string) {
    t != "" ==> IsBreak(t[|t| - 1])
  }

  function FirstBreak(t: string): (n: nat)
    ensures n <= |t| && HasNoBreak(t[..n]) && (n < |t| ==> IsBreak(t[n]))
  {
    if t == "" || IsBreak(t[0]) then 0 else 1 + FirstBreak(t[1..])
  }

  /** `str.splitlines(keepends=True)`. */
  function Lines(t: string): seq<string> {
    var n := FirstBreak(t);
    if t == "" then [] else if n == |t| then [t] else [t[..n + 1]] + Lines(t[n + 1..])
  }

  /** `"".join`. */
  function Join(lines: seq<string>): string {
    if lines == [] then "" else lines[0] + Join(lines[1..])
  }

  lemma LinesUnfold(t: string)
    ensures var n := FirstBreak(t);
            Lines(t) == if t == "" then [] else if n == |t| then [t] else [t[..n + 1]] + Lines(t[n + 1..])
  {
    hide FirstBreak;
  }

  lemma JoinCons(line: string, lines: seq<string>)
    ensures Join([line] + lines) == line + Join(lines) && Join([]) == ""
  {
    assert ([line] + lines)[1..] == lines;
  }

  lemma {:induction false} JoinOfLines(t: string)
    ensures Join(Lines(t)) == t
  {
    hide Lines, Join, FirstBreak;
    var n := FirstBreak(t);
    LinesUnfold(t);
    if t != "" && n < |t| {
      JoinOfLines(t[n + 1..]);
      JoinCons(t[..n + 1], Lines(t[n + 1..]));
    } else {
      JoinCons(t, []);
      assert [t] + [] == [t];
    }
  }

  lemma {:induction false} LinesAreLines(t: string)
    requires IsComplete(t)
    ensures AreLines(Lines(t))
  {
    var n := FirstBreak(t);
    if t != "" && n < |t| {
      assert t[..n + 1][..n] == t[..n];
      LinesAreLines(t[n + 1..]);
    }
  }

  lemma {:induction false} FirstBreakOf(line: string, rest: string)
    requires IsLine(line)
    ensures FirstBreak(line + rest) == |line| - 1
  {
    if |line| > 1 {
      assert !IsBreak(line[..|line| - 1][0]);
      assert line[1..][..|line| - 2] == line[..|line| - 1][1..];
      assert (line + rest)[1..] == line[1..] + rest;
      FirstBreakOf(line[1..], rest);
    }
  }

  /** The code points of line feed, vertical tab, form feed, the separators, next line, and the Unicode separators. */
  predicate IsBreakCode(code: int) {
    code in {10, 11, 12, 28, 29, 30, 133, 8232, 8233}
  }

  lemma BreakCodes(c: char)
    ensures IsBreak(c) <==> IsBreakCode(c as int)
  {
    var breaks := "\n\U{0B}\U{0C}\U{1C}\U{1D}\U{1E}\U{85}\U{2028}\U{2029}";
    assert IsBreak(c) <==> exists i :: 0 <= i < 9 && breaks[i] == c;
  }

  /** A line ends with the first of these characters that it has; only the last one may have none. */
  lemma {:induction false} LinesEndAtBreaks(t: string, k: nat)
    requires k < |Lines(t)|
    ensures var line := Lines(t)[k];
            && line != "" && (forall j :: 0 <= j < |line| - 1 ==> !IsBreakCode(line[j] as int))
            && (k < |Lines(t)| - 1 ==> IsBreakCode(line[|line| - 1] as int))
  {
    hide IsBreak, IsBreakCode, Lines, FirstBreak;
    var n := FirstBreak(t);
    LinesUnfold(t);
    forall j | 0 <= j < n
      ensures !IsBreakCode(t[j] as int)
    {
      assert !IsBreak(t[..n][j]);
      BreakCodes(t[j]);
    }
    if n < |t| {
      BreakCodes(t[n]);
    }
    if k > 0 {
      LinesEndAtBreaks(t[n + 1..], k - 1);
    }
  }

  /** Splitting undoes joining. */
  lemma {:induction false} LinesOfJoin(lines: seq<string>)
    requires AreLines(lines)
    ensures Lines(Join(lines)) == lines
  {
    if lines != [] {
      var line, rest := lines[0], Join(lines[1..]);
      FirstBreakOf(line, rest);
      assert (line + rest)[..|line|] == line && (line + rest)[|line|..] == rest;
      LinesOfJoin(lines[1..]);
    }
  }

  lemma {:induction false} JoinComplete(lines: seq<string>)
    requires AreLines(lines)
    ensures IsComplete(Join(lines))
  {
    if lines != [] {
      JoinComplete(lines[1..]);
    }
  }

  /** Cutting joined lines behind the end of a line leaves the first few of the lines. */
  lemma {:induction false} PrefixIsLines(lines: seq<string>, n: nat) returns (count: nat)
    requires AreLines(lines) && n <= |Join(lines)| && IsComplete(Join(lines)[..n])
    ensures count <= |lines| && Join(lines)[..n] == Join(lines[..count])
  {
    if n == 0 {
      return 0;
    }
    var line, rest := lines[0], Join(lines[1..]);
    assert Join(lines) == line + rest;
    CutsAreAtLineEnds(line, rest, n);
    assert (line + rest)[..n] == line + rest[..n - |line|];
    assert IsComplete(rest[..n - |line|]);
    var more := PrefixIsLines(lines[1..], n - |line|);
    count := more + 1;
    assert lines[..count][1..] == lines[1..][..more];
  }

  lemma CutsAreAtLineEnds(line: string, rest: string, n: nat)
    requires IsLine(line) && 0 < n <= |line + rest| && IsComplete((line + rest)[..n])
    ensures |line| <= n
  {
    LineChars(line);
    assert (line + rest)[..n][n - 1] == (line + rest)[n - 1];
  }

  lemma LineChars(line: string)
    requires IsLine(line)
    ensures forall k :: 0 <= k < |line| - 1 ==> !IsBreak(line[k])
  {
    assert line == line[..|line| - 1] + [line[|line| - 1]];
  }

  // ---------------------------------------------------------------------------------------------
  // Sorting
  // ---------------------------------------------------------------------------------------------

  /** Python's order of strings: by code point, a proper prefix first. */
  predicate LexLe(a: string, b: string) {
    a == "" || (b != "" && (a[0] < b[0] || (a[0] == b[0] && LexLe(a[1..], b[1..]))))
  }

  /** In that order come a beginning of a text before the text, and the smaller first different character. */
  predicate Before(a: string, b: string, k: nat) {
    k <= |a| && k <= |b| && a[..k] == b[..k] && (k == |a| || (k < |b| && a[k] < b[k]))
  }

  lemma {:induction false} LexLeMeans(a: string, b: string)
    ensures LexLe(a, b) <==> exists k: nat :: Before(a, b, k)
  {
    if a == "" {
      assert Before(a, b, 0);
    } else if b != "" {
      LexLeMeans(a[1..], b[1..]);
      BeforeFirst(a, b);
      if LexLe(a[1..], b[1..]) {
        var k: nat :| Before(a[1..], b[1..], k);
        BeforeRest(a, b, k);
      }
      if k: nat :| Before(a, b, k) {
        if k > 0 {
          BeforeRest(a, b, k - 1);
        }
      }
    }
  }

  lemma BeforeFirst(a: string, b: string)
    requires a != "" && b != ""
    ensures Before(a, b, 0) <==> a[0] < b[0]
  {
  }

  lemma BeforeRest(a: string, b: string, k: nat)
    requires a != "" && b != ""
    ensures Before(a, b, k + 1) <==> a[0] == b[0] && Before(a[1..], b[1..], k)
  {
    if k < |a| && k < |b| {
      assert a[..k + 1] == [a[0]] + a[1..][..k] && b[..k + 1] == [b[0]] + b[1..][..k];
    }
  }

  lemma {:induction false} LexLeIsTotalOrder(a: string, b: string, c: string)
    ensures LexLe(a, b) || LexLe(b, a)
    ensures LexLe(a, b) && LexLe(b, a) ==> a == b
    ensures LexLe(a, b) && LexLe(b, c) ==> LexLe(a, c)
    decreases |a|
  {
    if a != "" && b != "" {
      LexLeIsTotalOrder(a[1..], b[1..], if c == "" then c else c[1..]);
      assert a == [a[0]] + a[1..] && b == [b[0]] + b[1..];
    }
  }

  predicate IsSorted(lines: seq<string>) {
    forall k :: 0 < k < |lines| ==> LexLe(lines[k - 1], lines[k])
  }

  function Inserted(line: string, lines: seq<string>): seq<string> {
    if lines == [] || LexLe(line, lines[0]) then [line] + lines
    else [lines[0]] + Inserted(line, lines[1..])
  }

  /** `sorted`. */
  function Sorted(lines: seq<string>): seq<string> {
    if lines == [] then [] else Inserted(lines[0], Sorted(lines[1..]))
  }

  lemma {:induction false} InsertedIsSorted(line: string, lines: seq<string>)
    requires IsSorted(lines)
    ensures IsSorted(Inserted(line, lines))
    ensures multiset(Inserted(line, lines)) == multiset{line} + multiset(lines)
    ensures |Join(Inserted(line, lines))| == |line| + |Join(lines)|
    ensures Inserted(line, lines)[0] == line || (lines != [] && Inserted(line, lines)[0] == lines[0])
  {
    hide LexLe;
    if lines == [] || LexLe(line, lines[0]) {
      assert ([line] + lines)[1..] == lines;
    } else {
      LexLeIsTotalOrder(line, lines[0], "");
      assert lines == [lines[0]] + lines[1..];
      InsertedIsSorted(line, lines[1..]);
      assert ([lines[0]] + Inserted(line, lines[1..]))[1..] == Inserted(line, lines[1..]);
    }
  }

  /** `Sorted` gives the lines in order, each as often as before. */
  lemma {:induction false} SortedIsSorted(lines: seq<string>)
    ensures IsSorted(Sorted(lines)) && multiset(Sorted(lines)) == multiset(lines)
    ensures |Join(Sorted(lines))| == |Join(lines)|
  {
    if lines != [] {
      SortedIsSorted(lines[1..]);
      InsertedIsSorted(lines[0], Sorted(lines[1..]));
      assert lines == [lines[0]] + lines[1..];
    }
  }

  lemma {:induction false} SortedOfSorted(lines: seq<string>)
    requires IsSorted(lines)
    ensures Sorted(lines) == lines
  {
    if lines != [] {
      SortedOfSorted(lines[1..]);
      assert lines == [lines[0]] + lines[1..];
    }
  }

  lemma TailOf(lines: seq<string>)
    requires lines != []
    ensures multiset(lines[1..]) == multiset(lines) - multiset{lines[0]}
    ensures IsSorted(lines) ==> IsSorted(lines[1..])
    ensures lines == [lines[0]] + lines[1..]
  {
    hide LexLe;
    assert lines == [lines[0]] + lines[1..];
  }

  lemma SameLeast(a: seq<string>, b: seq<string>)
    requires IsSorted(a) && IsSorted(b) && multiset(a) == multiset(b) && a != [] && b != []
    ensures a[0] == b[0]
  {
    hide LexLe, IsSorted;
    assert a[0] in multiset(b) && b[0] in multiset(a);
    LeastFirst(a, b[0]);
    LeastFirst(b, a[0]);
    LexLeIsTotalOrder(a[0], b[0], "");
  }

  /** Being the sorted arrangement determines the result of the sort. */
  lemma {:induction false} SortedIsUnique(a: seq<string>, b: seq<string>)
    requires IsSorted(a) && IsSorted(b) && multiset(a) == multiset(b)
    ensures a == b
  {
    hide LexLe, IsSorted;
    assert |a| == |multiset(a)| == |multiset(b)| == |b|;
    if a != [] {
      SameLeast(a, b);
      TailOf(a);
      TailOf(b);
      SortedIsUnique(a[1..], b[1..]);
    }
  }

  lemma {:induction false} LeastFirst(lines: seq<string>, line: string)
    requires IsSorted(lines) && line in lines
    ensures LexLe(lines[0], line)
  {
    if |lines| > 1 {
      LexLeIsTotalOrder(lines[0], lines[0], "");
      if line in lines[1..] {
        LeastFirst(lines[1..], line);
        LexLeIsTotalOrder(lines[0], lines[1], line);
      }
    } else {
      LexLeIsTotalOrder(line, line, "");
    }
  }

  // ---------------------------------------------------------------------------------------------
  // Words in lines
  // ---------------------------------------------------------------------------------------------

  predicate At(t: string, i: int, word: string) {
    0 <= i && i + |word| <= |t| && t[i..i + |word|] == word
  }

  lemma AtChars(t: string, i: int, word: string)
    ensures At(t, i, word) <==> 0 <= i && i + |word| <= |t| && forall k :: 0 <= k < |word| ==> t[i + k] == word[k]
  {
    if 0 <= i && i + |word| <= |t| {
      var part := t[i..i + |word|];
      assert forall k :: 0 <= k < |word| ==> part[k] == t[i + k];
    }
  }

  lemma EndsWithinLine(line: string, rest: string, i: int, word: string)
    requires IsLine(line) && HasNoBreak(word) && 0 <= i < |line| && At(line + rest, i, word)
    ensures i + |word| < |line|
  {
    AtChars(line + rest, i, word);
    if i + |word| >= |line| {
      BreakInWord(line + rest, |line| - 1, i, word);
      assert false;
    }
  }

  lemma BreakInWord(t: string, i: int, start: int, word: string)
    requires At(t, start, word) && start <= i < start + |word|
    ensures 0 <= i < |t| && t[i] == word[i - start]
  {
    AtChars(t, start, word);
    assert word[i - start] == t[start + (i - start)];
  }

  /** A word without line ends occurs in joined lines only within one of them. */
  lemma {:induction false} OccursInLine(lines: seq<string>, i: int, word: string) returns (k: nat, offset: nat)
    requires AreLines(lines) && word != "" && HasNoBreak(word) && At(Join(lines), i, word)
    ensures k < |lines| && At(lines[k], offset, word)
  {
    var line, rest := lines[0], Join(lines[1..]);
    assert Join(lines) == line + rest;
    if i >= |line| {
      assert rest[i - |line|..i - |line| + |word|] == (line + rest)[i..i + |word|];
      k, offset := OccursInLine(lines[1..], i - |line|, word);
      k := k + 1;
    } else {
      EndsWithinLine(line, rest, i, word);
      assert line[i..i + |word|] == (line + rest)[i..i + |word|];
      k, offset := 0, i;
    }
  }

  lemma {:induction false} OccursInJoin(lines: seq<string>, k: nat, offset: nat, word: string) returns (i: nat)
    requires k < |lines| && At(lines[k], offset, word)
    ensures At(Join(lines), i, word)
  {
    var line, rest := lines[0], Join(lines[1..]);
    assert Join(lines) == line + rest;
    if k == 0 {
      i := offset;
      assert (line + rest)[i..i + |word|] == line[i..i + |word|];
    } else {
      var j := OccursInJoin(lines[1..], k - 1, offset, word);
      i := |line| + j;
      assert (line + rest)[i..i + |word|] == rest[j..j + |word|];
    }
  }

  // ---------------------------------------------------------------------------------------------
  // Sorting a text by lines
  // ---------------------------------------------------------------------------------------------

  /** What `_sort_lines_impl` returns for a text that is empty or ends with a line feed. */
  function SortedText(t: string): string {
    Join(Sorted(Lines(t)))
  }

  /** The result has the lines of the argument, in order, and the same length. */
  lemma SortedTextSorts(t: string)
    requires IsComplete(t)
    ensures |SortedText(t)| == |t| && IsComplete(SortedText(t))
    ensures Lines(SortedText(t)) == Sorted(Lines(t)) && AreLines(Sorted(Lines(t)))
    ensures IsSorted(Lines(SortedText(t))) && multiset(Lines(SortedText(t))) == multiset(Lines(t))
  {
    hide Lines, Join, Sorted, IsSorted;
    var lines := Lines(t);
    JoinOfLines(t);
    LinesAreLines(t);
    SortedIsSorted(lines);
    forall k | 0 <= k < |Sorted(lines)|
      ensures IsLine(Sorted(lines)[k])
    {
      assert Sorted(lines)[k] in multiset(lines);
    }
    LinesOfJoin(Sorted(lines));
    JoinComplete(Sorted(lines));
  }

  /** Words without line ends occur in the sorted text exactly if they occur in the text. */
  lemma SortingKeepsWords(t: string, i: int, word: string) returns (j: int)
    requires IsComplete(t) && word != "" && HasNoBreak(word) && At(SortedText(t), i, word)
    ensures At(t, j, word)
  {
    hide Lines, Join, Sorted, IsSorted, At;
    SortedTextSorts(t);
    JoinOfLines(t);
    var lines := Lines(t);
    var k, offset := OccursInLine(Sorted(lines), i, word);
    assert Sorted(lines)[k] in multiset(lines);
    var k' :| 0 <= k' < |lines| && lines[k'] == Sorted(lines)[k];
    j := OccursInJoin(lines, k', offset, word);
  }

  /** A beginning of a sorted text that is cut behind the end of a line is sorted. */
  lemma PrefixIsSorted(t: string, n: nat)
    requires IsComplete(t) && n <= |SortedText(t)| && IsComplete(SortedText(t)[..n])
    ensures SortedText(SortedText(t)[..n]) == SortedText(t)[..n]
  {
    hide Lines, Join, Sorted;
    SortedTextSorts(t);
    var lines := Sorted(Lines(t));
    var count := PrefixIsLines(lines, n);
    LinesOfJoin(lines[..count]);
    SortedOfSorted(lines[..count]);
  }
}
