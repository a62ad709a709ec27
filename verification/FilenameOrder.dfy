/**
  The order of filenames of `str_comp_filenames`: case does not matter, and numbers within the names
  compare by length and then by digits.
 */
module FilenameOrder {
  import opened Machine

  /** A C string of ASCII characters, before its terminating NUL. */
  type ascii = s: seq<byte> | forall k :: 0 <= k < |s| ==> 0 < s[k] < 128

  function CharAt(s: ascii, i: nat): byte
    requires i <= |s|
  {
    if i < |s| then s[i] else 0
  }

  predicate IsNum(c: byte) {
    48 <= c <= 57
  }

  function ToLower(c: byte): byte {
    if 65 <= c <= 90 then c + 32 else c
  }

  // ---------------------------------------------------------------------------------------------
  // The order on tokens
  // ---------------------------------------------------------------------------------------------

  /** A maximal run of digits, or any other character in lower case. */
  datatype Token = Number(digits: seq<byte>) | Char(c: byte)
  {
    predicate Valid() {
      match this
      case Number(digits) => digits != [] && forall k :: 0 <= k < |digits| ==> IsNum(digits[k])
      case Char(c) => 0 < c < 128 && !IsNum(c)
    }

    function First(): byte
      requires Valid()
    {
      if Number? then digits[0] else c
    }
  }

  type token = t: Token | t.Valid() witness Char(1)

  function RunLength(s: seq<byte>): (n: nat)
    ensures n <= |s|
    ensures forall k :: 0 <= k < n ==> IsNum(s[k])
    ensures n < |s| ==> !IsNum(s[n])
  {
    if s != [] && IsNum(s[0]) then 1 + RunLength(s[1..]) else 0
  }

  function Tokens(s: ascii): seq<token> {
    if s == [] then []
    else if IsNum(s[0]) then [Number(s[..RunLength(s)])] + Tokens(s[RunLength(s)..])
    else [Char(ToLower(s[0]))] + Tokens(s[1..])
  }

  function Sign(x: int): int {
    if x < 0 then -1 else if x > 0 then 1 else 0
  }

  /** By the first place where they differ. */
  function CompareDigits(x: seq<byte>, y: seq<byte>): int {
    if x == [] || y == [] then 0
    else if x[0] != y[0] then Sign(x[0] as int - y[0] as int)
    else CompareDigits(x[1..], y[1..])
  }

  function CompareTokens(x: token, y: token): int {
    if x.Number? && y.Number? then
      if |x.digits| != |y.digits| then Sign(|x.digits| - |y.digits|) else CompareDigits(x.digits, y.digits)
    else
      Sign(x.First() as int - y.First() as int)
  }

  /** Lexicographic order. */
  function Compare(x: seq<token>, y: seq<token>): int {
    if x == [] || y == [] then Sign(|x| - |y|)
    else if CompareTokens(x[0], y[0]) != 0 then CompareTokens(x[0], y[0])
    else Compare(x[1..], y[1..])
  }

  // ---------------------------------------------------------------------------------------------
  // One step of the comparison
  // ---------------------------------------------------------------------------------------------

  lemma ConsCompare(x: token, xs: seq<token>, y: token, ys: seq<token>)
    ensures Compare([x] + xs, [y] + ys) == if CompareTokens(x, y) != 0 then CompareTokens(x, y) else Compare(xs, ys)
  {
    assert ([x] + xs)[1..] == xs && ([y] + ys)[1..] == ys;
  }

  lemma RunIsNumber(s: ascii)
    requires s != [] && IsNum(s[0])
    ensures RunLength(s) > 0 && Number(s[..RunLength(s)]).Valid()
  {
  }

  lemma NumbersFirst(a: ascii, b: ascii)
    requires a != [] && b != [] && IsNum(a[0]) && IsNum(b[0])
    ensures var m, n := RunLength(a), RunLength(b);
            Compare(Tokens(a), Tokens(b)) ==
              if m != n then Sign(m - n)
              else if CompareDigits(a[..m], b[..n]) != 0 then CompareDigits(a[..m], b[..n])
              else Compare(Tokens(a[m..]), Tokens(b[n..]))
  {
    RunIsNumber(a);
    RunIsNumber(b);
    var m, n := RunLength(a), RunLength(b);
    ConsCompare(Number(a[..m]), Tokens(a[m..]), Number(b[..n]), Tokens(b[n..]));
  }

  lemma FirstToken(s: ascii)
    requires s != []
    ensures Tokens(s) != [] && Tokens(s)[0].First() == ToLower(s[0])
    ensures Tokens(s)[0].Number? <==> IsNum(s[0])
    ensures !IsNum(s[0]) ==> Tokens(s) == [Char(ToLower(s[0]))] + Tokens(s[1..])
  {
    if IsNum(s[0]) {
      RunIsNumber(s);
    }
  }

  lemma CharsFirst(a: ascii, b: ascii)
    requires a != [] && b != [] && !(IsNum(a[0]) && IsNum(b[0]))
    ensures Compare(Tokens(a), Tokens(b)) ==
              if ToLower(a[0]) != ToLower(b[0]) then Sign(ToLower(a[0]) as int - ToLower(b[0]) as int)
              else Compare(Tokens(a[1..]), Tokens(b[1..]))
  {
    hide Tokens;
    FirstToken(a);
    FirstToken(b);
    var x, y := Tokens(a), Tokens(b);
    ConsCompare(x[0], x[1..], y[0], y[1..]);
    assert x == [x[0]] + x[1..] && y == [y[0]] + y[1..];
  }

  lemma AtEnd(a: ascii, b: ascii)
    requires a == [] || b == []
    ensures Compare(Tokens(a), Tokens(b)) == Sign(CharAt(a, 0) as int - CharAt(b, 0) as int)
  {
  }

  // ---------------------------------------------------------------------------------------------
  // The comparison
  // ---------------------------------------------------------------------------------------------

  /** `str_comp_filenames`. The two pointers only ever advance together, so one position does for both. */
  method CompFilenames(a: ascii, b: ascii) returns (result: int)
    ensures Sign(result) == Compare(Tokens(a), Tokens(b))
  {
    hide Tokens, Compare, RunLength, CompareDigits;
    var i := 0;
    while i < |a| && i < |b|
      invariant 0 <= i <= |a| && i <= |b|
      invariant Compare(Tokens(a[i..]), Tokens(b[i..])) == Compare(Tokens(a), Tokens(b))
      decreases |a| - i
    {
      if IsNum(a[i]) && IsNum(b[i]) {
        var decided;
        decided, result, i := CompareNumbers(a, b, i);
        if decided {
          return;
        }
      }
      CharsFirst(a[i..], b[i..]);
      assert a[i..][1..] == a[i + 1..] && b[i..][1..] == b[i + 1..];
      result := ToLower(a[i]) as int - ToLower(b[i]) as int;
      if result != 0 {
        return;
      }
      i := i + 1;
    }
    AtEnd(a[i..], b[i..]);
    return CharAt(a, i) as int - CharAt(b, i) as int;
  }

  /** The branch for two numbers: either decides the comparison or leaves off right after both, before more characters. */
  method CompareNumbers(a: ascii, b: ascii, i: nat) returns (decided: bool, result: int, next: nat)
    requires i < |a| && i < |b| && IsNum(a[i]) && IsNum(b[i])
    ensures decided ==> Sign(result) == Compare(Tokens(a[i..]), Tokens(b[i..]))
    ensures !decided ==>
              && i < next < |a| && next < |b| && !IsNum(a[next]) && !IsNum(b[next])
              && Compare(Tokens(a[i..]), Tokens(b[i..])) == Compare(Tokens(a[next..]), Tokens(b[next..]))
  {
    hide Tokens, Compare, RunLength, CompareDigits;
    var difference;
    difference, next := CompareRuns(a, b, i);
    NumbersFirst(a[i..], b[i..]);
    RunIsNumber(a[i..]);
    RunIsNumber(b[i..]);
    if IsNum(CharAt(a, next)) {
      return true, 1, next;
    } else if IsNum(CharAt(b, next)) {
      return true, -1, next;
    } else if difference != 0 {
      return true, difference, next;
    }
    assert a[i..][next - i..] == a[next..] && b[i..][next - i..] == b[next..];
    if next == |a| || next == |b| {
      AtEnd(a[next..], b[next..]);
      return true, CharAt(a, next) as int - CharAt(b, next) as int, next;
    }
    return false, 0, next;
  }

  /** The inner loop: the first difference of two runs of digits, and where the shorter one ends. */
  method CompareRuns(a: ascii, b: ascii, i: nat) returns (difference: int, next: nat)
    requires i < |a| && i < |b| && IsNum(a[i]) && IsNum(b[i])
    ensures var m, n := RunLength(a[i..]), RunLength(b[i..]);
            && next == i + (if m < n then m else n)
            && Sign(difference) == CompareDigits(a[i..][..m], b[i..][..n])
            && (IsNum(CharAt(a, next)) <==> m > n) && (IsNum(CharAt(b, next)) <==> n > m)
  {
    hide CompareDigits, RunLength, IsNum;
    next := i;
    difference := 0;
    NoDigits();
    assert a[i..next] == [] && b[i..next] == [];
    while true
      invariant i <= next < |a| && next < |b| && IsNum(a[next]) && IsNum(b[next])
      invariant forall k :: i <= k < next ==> IsNum(a[k]) && IsNum(b[k])
      invariant Sign(difference) == CompareDigits(a[i..next], b[i..next])
      decreases |a| - next
    {
      RunsGrow(a, b, i, next);
      if difference == 0 {
        difference := a[next] as int - b[next] as int;
      }
      next := next + 1;
      NumIsInside(a, next);
      NumIsInside(b, next);
      if !(IsNum(CharAt(a, next)) && IsNum(CharAt(b, next))) {
        break;
      }
    }
    RunsEndAt(a, b, i, next);
  }

  lemma RunsEndAt(a: ascii, b: ascii, i: nat, next: nat)
    requires i <= next <= |a| && next <= |b| && forall k :: i <= k < next ==> IsNum(a[k]) && IsNum(b[k])
    requires !(IsNum(CharAt(a, next)) && IsNum(CharAt(b, next)))
    ensures var m, n := RunLength(a[i..]), RunLength(b[i..]);
            && next == i + (if m < n then m else n)
            && CompareDigits(a[i..next], b[i..next]) == CompareDigits(a[i..][..m], b[i..][..n])
            && (IsNum(CharAt(a, next)) <==> m > n) && (IsNum(CharAt(b, next)) <==> n > m)
  {
    hide CompareDigits, RunLength, IsNum;
    RunsEnd(a[i..], b[i..], next - i);
    assert a[i..][..next - i] == a[i..next] && b[i..][..next - i] == b[i..next];
  }

  /** Both runs one digit further. */
  lemma RunsGrow(a: ascii, b: ascii, i: nat, next: nat)
    requires i <= next < |a| && next < |b|
    ensures CompareDigits(a[i..next + 1], b[i..next + 1]) ==
              if CompareDigits(a[i..next], b[i..next]) != 0 then CompareDigits(a[i..next], b[i..next])
              else Sign(a[next] as int - b[next] as int)
  {
    hide CompareDigits, Sign;
    CompareDigitsSnoc(a[i..next], b[i..next], a[next], b[next]);
    assert a[i..next + 1] == a[i..next] + [a[next]] && b[i..next + 1] == b[i..next] + [b[next]];
  }

  lemma NumIsInside(s: ascii, i: nat)
    requires i <= |s|
    ensures IsNum(CharAt(s, i)) ==> i < |s|
  {
  }

  lemma NoDigits()
    ensures CompareDigits([], []) == 0
  {
  }

  /** Two runs followed together until one of them ends. */
  lemma RunsEnd(x: ascii, y: ascii, n: nat)
    requires n <= |x| && n <= |y| && forall k :: 0 <= k < n ==> IsNum(x[k]) && IsNum(y[k])
    requires !(IsNum(CharAt(x, n)) && IsNum(CharAt(y, n)))
    ensures var p, q := RunLength(x), RunLength(y);
            && n == (if p < q then p else q)
            && (IsNum(CharAt(x, n)) <==> p > q) && (IsNum(CharAt(y, n)) <==> q > p)
            && CompareDigits(x[..p], y[..q]) == CompareDigits(x[..n], y[..n])
  {
    hide CompareDigits, RunLength;
    var p, q := RunLength(x), RunLength(y);
    RunLengthAtLeast(x, n);
    RunLengthAtLeast(y, n);
    if IsNum(CharAt(x, n)) {
      RunLengthAtLeast(x, n + 1);
    }
    if IsNum(CharAt(y, n)) {
      RunLengthAtLeast(y, n + 1);
    }
    CompareDigitsCommon(x[..p], y[..q], n);
    assert x[..p][..n] == x[..n] && y[..q][..n] == y[..n];
  }

  lemma {:induction false} CompareDigitsSnoc(x: seq<byte>, y: seq<byte>, c: byte, d: byte)
    requires |x| == |y|
    ensures CompareDigits(x + [c], y + [d]) ==
              if CompareDigits(x, y) != 0 then CompareDigits(x, y) else Sign(c as int - d as int)
  {
    if x == [] {
      assert x + [c] == [c] && y + [d] == [d];
      assert [c][1..] == [];
    } else {
      assert (x + [c])[1..] == x[1..] + [c] && (y + [d])[1..] == y[1..] + [d];
      CompareDigitsSnoc(x[1..], y[1..], c, d);
    }
  }

  lemma {:induction false} CompareDigitsCommon(x: seq<byte>, y: seq<byte>, n: nat)
    requires n <= |x| && n <= |y| && (n == |x| || n == |y|)
    ensures CompareDigits(x, y) == CompareDigits(x[..n], y[..n])
  {
    if n > 0 {
      assert x[..n][1..] == x[1..][..n - 1] && y[..n][1..] == y[1..][..n - 1];
      CompareDigitsCommon(x[1..], y[1..], n - 1);
    }
  }

  lemma {:induction false} RunLengthAtLeast(s: seq<byte>, n: nat)
    requires n <= |s| && forall k :: 0 <= k < n ==> IsNum(s[k])
    ensures RunLength(s) >= n
    ensures (n < |s| ==> !IsNum(s[n])) ==> RunLength(s) == n
  {
    if n > 0 {
      RunLengthAtLeast(s[1..], n - 1);
    }
  }

  // ---------------------------------------------------------------------------------------------
  // The laws of the order
  // ---------------------------------------------------------------------------------------------

  lemma {:induction false} DigitsLaws(x: seq<byte>, y: seq<byte>, z: seq<byte>)
    requires |x| == |y| == |z|
    ensures CompareDigits(x, y) == -CompareDigits(y, x)
    ensures CompareDigits(x, y) == 0 <==> x == y
    ensures CompareDigits(x, y) <= 0 && CompareDigits(y, z) <= 0 ==> CompareDigits(x, z) <= 0
  {
    if x != [] {
      DigitsLaws(x[1..], y[1..], z[1..]);
      assert x == [x[0]] + x[1..] && y == [y[0]] + y[1..];
    }
  }

  lemma TokenLaws(x: token, y: token, z: token)
    ensures CompareTokens(x, y) == -CompareTokens(y, x)
    ensures CompareTokens(x, y) == 0 <==> x == y
    ensures CompareTokens(x, y) <= 0 && CompareTokens(y, z) <= 0 ==> CompareTokens(x, z) <= 0
  {
    hide CompareDigits;
    if x.Number? && y.Number? && |x.digits| == |y.digits| {
      DigitsLaws(x.digits, y.digits, x.digits);
      if z.Number? && |z.digits| == |y.digits| {
        DigitsLaws(x.digits, y.digits, z.digits);
      }
    }
  }

  /** A total order on token sequences. */
  lemma {:induction false} CompareLaws(x: seq<token>, y: seq<token>, z: seq<token>)
    ensures Compare(x, y) == -Compare(y, x)
    ensures Compare(x, y) == 0 <==> x == y
    ensures Compare(x, y) <= 0 && Compare(y, z) <= 0 ==> Compare(x, z) <= 0
    decreases |x|
  {
    hide CompareTokens;
    if x != [] && y != [] {
      assert x == [x[0]] + x[1..] && y == [y[0]] + y[1..];
      TokenLaws(x[0], y[0], if z != [] then z[0] else x[0]);
      if z != [] {
        TokenLaws(y[0], z[0], x[0]);
        TokenLaws(z[0], x[0], y[0]);
        CompareLaws(x[1..], y[1..], z[1..]);
      } else {
        CompareLaws(x[1..], y[1..], []);
      }
    }
  }

  function LowerCase(s: ascii): (l: ascii)
    ensures |l| == |s| && forall k :: 0 <= k < |s| ==> l[k] == ToLower(s[k])
  {
    seq(|s|, k requires 0 <= k < |s| => ToLower(s[k]))
  }

  /** The characters of a token sequence. */
  function Spelled(tokens: seq<token>): seq<byte> {
    if tokens == [] then []
    else (if tokens[0].Number? then tokens[0].digits else [tokens[0].c]) + Spelled(tokens[1..])
  }

  lemma LowerCaseParts(s: ascii, n: nat)
    requires n <= |s| && forall k :: 0 <= k < n ==> IsNum(s[k])
    ensures LowerCase(s)[..n] == s[..n] && LowerCase(s)[n..] == LowerCase(s[n..])
    ensures LowerCase(s) == s[..n] + LowerCase(s[n..])
  {
  }

  lemma LowerCaseHead(s: ascii)
    requires s != []
    ensures LowerCase(s) == [ToLower(s[0])] + LowerCase(s[1..])
  {
  }

  lemma ConsSpelled(x: token, xs: seq<token>)
    ensures Spelled([x] + xs) == (if x.Number? then x.digits else [x.c]) + Spelled(xs)
  {
    assert ([x] + xs)[1..] == xs;
  }

  lemma {:induction false} SpelledTokens(s: ascii)
    ensures Spelled(Tokens(s)) == LowerCase(s)
    decreases |s|
  {
    hide LowerCase, Spelled, RunLength;
    if s != [] {
      if IsNum(s[0]) {
        RunIsNumber(s);
        var n := RunLength(s);
        SpelledTokens(s[n..]);
        LowerCaseParts(s, n);
        ConsSpelled(Number(s[..n]), Tokens(s[n..]));
      } else {
        SpelledTokens(s[1..]);
        LowerCaseHead(s);
        ConsSpelled(Char(ToLower(s[0])), Tokens(s[1..]));
      }
    } else {
      assert Spelled([]) == [] by { NothingSpelled(); }
    }
  }

  lemma NothingSpelled()
    ensures Spelled([]) == []
  {
  }

  lemma {:induction false} TokensOfLowerCase(s: ascii)
    ensures Tokens(LowerCase(s)) == Tokens(s)
    decreases |s|
  {
    hide LowerCase, RunLength;
    var l := LowerCase(s);
    if s != [] {
      if IsNum(s[0]) {
        var n := RunLength(s);
        RunIsNumber(s);
        RunLengthAtLeast(l, n);
        TokensOfLowerCase(s[n..]);
        LowerCaseParts(s, n);
      } else {
        TokensOfLowerCase(s[1..]);
        LowerCaseHead(s);
      }
    }
  }

  /** Filenames compare as equal exactly if they are equal ignoring case. */
  lemma ZeroIffEqualIgnoringCase(a: ascii, b: ascii)
    ensures Compare(Tokens(a), Tokens(b)) == 0 <==> LowerCase(a) == LowerCase(b)
  {
    hide Tokens, Compare, LowerCase, Spelled;
    CompareLaws(Tokens(a), Tokens(b), []);
    SpelledTokens(a);
    SpelledTokens(b);
    TokensOfLowerCase(a);
    TokensOfLowerCase(b);
  }

  /** The comparison is a total preorder on filenames: antisymmetric in sign and transitive. */
  lemma FilenamesTotallyPreordered(a: ascii, b: ascii, c: ascii)
    ensures Compare(Tokens(a), Tokens(b)) == -Compare(Tokens(b), Tokens(a))
    ensures Compare(Tokens(a), Tokens(b)) <= 0 && Compare(Tokens(b), Tokens(c)) <= 0 ==>
              Compare(Tokens(a), Tokens(c)) <= 0
  {
    CompareLaws(Tokens(a), Tokens(b), Tokens(c));
  }

  // ---------------------------------------------------------------------------------------------
  // What decides
  // ---------------------------------------------------------------------------------------------

  /** The same character, or the same letter from 'A' to 'Z' in another case. */
  predicate SameIgnoringCase(c: byte, d: byte) {
    c == d || (65 <= c <= 90 && d == c + 32) || (65 <= d <= 90 && c == d + 32)
  }

  predicate AlikeIgnoringCase(a: ascii, b: ascii) {
    |a| == |b| && forall k :: 0 <= k < |a| ==> SameIgnoringCase(a[k], b[k])
  }

  predicate Decimals(x: seq<byte>) {
    forall k :: 0 <= k < |x| ==> 48 <= x[k] <= 57
  }

  predicate StartsWithDigit(x: seq<byte>) {
    x != [] && 48 <= x[0] <= 57
  }

  predicate EndsWithDigit(x: seq<byte>) {
    x != [] && 48 <= x[|x| - 1] <= 57
  }

  /** The number that decimal digits stand for. */
  function DecimalValue(x: seq<byte>): (n: nat)
    requires Decimals(x)
  {
    if x == [] then 0 else DecimalValue(x[..|x| - 1]) * 10 + (x[|x| - 1] as int - 48)
  }

  /** The digits of a number. */
  function Decimal(n: nat): (x: ascii)
    ensures x != [] && Decimals(x) && (n > 0 ==> x[0] > 48) && (n == 0 ==> x == [48])
  {
    if n < 10 then [48 + n] else Decimal(n / 10) + [48 + n % 10]
  }

  lemma LowerIffSame(a: ascii, b: ascii)
    ensures LowerCase(a) == LowerCase(b) <==> AlikeIgnoringCase(a, b)
  {
    if LowerCase(a) == LowerCase(b) {
      forall k | 0 <= k < |a|
        ensures SameIgnoringCase(a[k], b[k])
      {
        assert LowerCase(a)[k] == LowerCase(b)[k];
      }
    }
  }

  /** The result is 0 exactly for names of the same characters, but for the case of letters. */
  lemma ZeroIffAlike(a: ascii, b: ascii)
    ensures Compare(Tokens(a), Tokens(b)) == 0 <==> AlikeIgnoringCase(a, b)
  {
    hide Tokens, Compare, LowerCase, AlikeIgnoringCase;
    ZeroIffEqualIgnoringCase(a, b);
    LowerIffSame(a, b);
  }

  lemma {:induction false} DecimalValueOf(n: nat)
    ensures DecimalValue(Decimal(n)) == n
  {
    if n < 10 {
      assert Decimal(n)[..0] == [];
    } else {
      DecimalValueOf(n / 10);
      assert Decimal(n)[..|Decimal(n)| - 1] == Decimal(n / 10);
    }
  }

  /** Runs of the same length compare as numbers. */
  lemma {:induction false} DigitsCompareByValue(x: seq<byte>, y: seq<byte>)
    requires Decimals(x) && Decimals(y) && |x| == |y|
    ensures CompareDigits(x, y) == Sign(DecimalValue(x) - DecimalValue(y))
  {
    hide CompareDigits;
    if x == [] {
      NoDigits();
    } else {
      var n := |x| - 1;
      DigitsCompareByValue(x[..n], y[..n]);
      CompareDigitsSnoc(x[..n], y[..n], x[n], y[n]);
      assert x == x[..n] + [x[n]] && y == y[..n] + [y[n]];
    }
  }

  /** Without leading zeros the longer run is the larger number. */
  lemma {:induction false} LongerIsLarger(x: seq<byte>, y: seq<byte>)
    requires Decimals(x) && Decimals(y) && |x| > |y| && x[0] > 48
    ensures DecimalValue(x) > DecimalValue(y)
  {
    var n := |x| - 1;
    if n > 0 {
      LongerIsLarger(x[..n], if y == [] then [] else y[..|y| - 1]);
    }
  }

  lemma TokensOfRun(x: ascii, rest: ascii)
    requires Decimals(x) && x != [] && !StartsWithDigit(rest)
    ensures x + rest != [] && IsNum((x + rest)[0]) && RunLength(x + rest) == |x|
    ensures (x + rest)[..|x|] == x && (x + rest)[|x|..] == rest
  {
    RunLengthAtLeast(x + rest, |x|);
  }

  /** Two numbers are compared by their length, then by their value, and then what follows decides. */
  lemma RunsDecide(x: ascii, q: ascii, y: ascii, r: ascii)
    requires Decimals(x) && Decimals(y) && x != [] && y != [] && !StartsWithDigit(q) && !StartsWithDigit(r)
    ensures Compare(Tokens(x + q), Tokens(y + r)) ==
              if |x| != |y| then Sign(|x| - |y|)
              else if DecimalValue(x) != DecimalValue(y) then Sign(DecimalValue(x) - DecimalValue(y))
              else Compare(Tokens(q), Tokens(r))
  {
    hide Tokens, Compare, CompareDigits, RunLength, DecimalValue;
    TokensOfRun(x, q);
    TokensOfRun(y, r);
    NumbersFirst(x + q, y + r);
    if |x| == |y| {
      DigitsCompareByValue(x, y);
    }
  }

  /** A common beginning does not matter, unless it ends within a number. */
  lemma {:induction false} CommonPrefix(p: ascii, q: ascii, x: ascii, y: ascii)
    requires AlikeIgnoringCase(p, q) && (EndsWithDigit(p) ==> !StartsWithDigit(x) && !StartsWithDigit(y))
    ensures Compare(Tokens(p + x), Tokens(q + y)) == Compare(Tokens(x), Tokens(y))
    decreases |p|
  {
    hide Tokens, Compare, RunLength, SameIgnoringCase;
    if p == [] {
      assert p + x == x && q + y == y;
    } else {
      var n := CommonFirst(p, q, x, y);
      assert EndsWithDigit(p[n..]) ==> EndsWithDigit(p);
      CommonPrefix(p[n..], q[n..], x, y);
    }
  }

  /** The first number or character of a common beginning. */
  lemma CommonFirst(p: ascii, q: ascii, x: ascii, y: ascii) returns (n: nat)
    requires AlikeIgnoringCase(p, q) && p != [] && (EndsWithDigit(p) ==> !StartsWithDigit(x) && !StartsWithDigit(y))
    ensures 0 < n <= |p|
    ensures Compare(Tokens(p + x), Tokens(q + y)) == Compare(Tokens(p[n..] + x), Tokens(q[n..] + y))
  {
    hide Tokens, Compare, RunLength, CompareDigits;
    SameRun(p, q);
    if IsNum(p[0]) {
      n := RunLength(p);
      RunOfPrefix(p, x);
      RunOfPrefix(q, y);
      NumbersFirst(p + x, q + y);
      DigitsLaws(p[..n], p[..n], p[..n]);
    } else {
      n := 1;
      CharsFirst(p + x, q + y);
      assert SameIgnoringCase(p[0], q[0]);
    }
    PartsOf(p, x, n);
    PartsOf(q, y, n);
  }

  lemma PartsOf(p: ascii, x: ascii, n: nat)
    requires n <= |p|
    ensures (p + x)[..n] == p[..n] && (p + x)[n..] == p[n..] + x
  {
  }

  lemma RunOfPrefix(p: ascii, x: ascii)
    requires p != [] && IsNum(p[0]) && (EndsWithDigit(p) ==> !StartsWithDigit(x))
    ensures RunLength(p + x) == RunLength(p) > 0
  {
    var n := RunLength(p);
    RunLengthAtLeast(p, 1);
    if n == |p| {
      assert IsNum(p[n - 1]);
    }
    RunLengthAtLeast(p + x, n);
  }

  lemma SameRun(p: ascii, q: ascii)
    requires AlikeIgnoringCase(p, q)
    ensures RunLength(p) == RunLength(q) && p[..RunLength(p)] == q[..RunLength(p)]
    ensures EndsWithDigit(p) <==> EndsWithDigit(q)
    ensures p != [] ==> (IsNum(p[0]) <==> IsNum(q[0]))
  {
    var n := RunLength(p);
    assert forall k :: 0 <= k < |p| ==> SameIgnoringCase(p[k], q[k]);
    RunLengthAtLeast(q, n);
  }

  /** Names that first differ in characters that are no digits, after what is the same but for case. */
  lemma FirstDifferenceDecides(p: ascii, q: ascii, c: byte, d: byte, x: ascii, y: ascii)
    requires AlikeIgnoringCase(p, q) && 0 < c < 128 && 0 < d < 128 && !SameIgnoringCase(c, d)
    requires !(48 <= c <= 57 && 48 <= d <= 57) && (EndsWithDigit(p) ==> !(48 <= c <= 57) && !(48 <= d <= 57))
    ensures Compare(Tokens(p + ([c] + x)), Tokens(q + ([d] + y))) ==
              Sign((if 65 <= c <= 90 then c + 32 else c) - (if 65 <= d <= 90 then d + 32 else d))
  {
    hide Tokens, Compare;
    CommonPrefix(p, q, [c] + x, [d] + y);
    CharsFirst([c] + x, [d] + y);
  }

  /** Names with numbers in the same place sort by the numbers, and by what follows if those are the same. */
  lemma NumberedNames(p: ascii, q: ascii, m: nat, n: nat, x: ascii, y: ascii)
    requires AlikeIgnoringCase(p, q) && !EndsWithDigit(p) && !StartsWithDigit(x) && !StartsWithDigit(y)
    ensures Compare(Tokens(p + (Decimal(m) + x)), Tokens(q + (Decimal(n) + y))) ==
              if m != n then Sign(m - n) else Compare(Tokens(x), Tokens(y))
  {
    hide Tokens, Compare, Decimal, DecimalValue;
    CommonPrefix(p, q, Decimal(m) + x, Decimal(n) + y);
    RunsDecide(Decimal(m), x, Decimal(n), y);
    DecimalValueOf(m);
    DecimalValueOf(n);
    if |Decimal(m)| > |Decimal(n)| {
      LongerIsLarger(Decimal(m), Decimal(n));
    } else if |Decimal(m)| < |Decimal(n)| {
      LongerIsLarger(Decimal(n), Decimal(m));
    }
  }
}
