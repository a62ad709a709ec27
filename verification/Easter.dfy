/**
  The Easter formula of `time.cpp`, against the definition of Easter in the Gregorian calendar: the
  first Sunday after the paschal full moon, which the corrected epact of the year determines.
 */
module Easter {

  // ---------------------------------------------------------------------------------------------
  // The calendar
  // ---------------------------------------------------------------------------------------------

  predicate IsLeapYear(y: int) {
    y % 4 == 0 && (y % 100 != 0 || y % 400 == 0)
  }

  /** The days of the Gregorian calendar before 1 January of a year, 1 January 1 being day 1. */
  function DaysBeforeYear(y: int): int {
    365 * (y - 1) + (y - 1) / 4 - (y - 1) / 100 + (y - 1) / 400
  }

  /** The number of the day that is `n` days after the last of February; "32 March" is 1 April. */
  function MarchDay(y: int, n: int): int {
    DaysBeforeYear(y) + 31 + (if IsLeapYear(y) then 29 else 28) + n
  }

  /** 1 January 1 was a Monday. */
  predicate IsSunday(dayNumber: int) {
    dayNumber % 7 == 0
  }

  // ---------------------------------------------------------------------------------------------
  // The definition of Easter
  // ---------------------------------------------------------------------------------------------

  /** How many of the years so far that are divisible by 100 were no leap years, counted from 1 BC. */
  function SolarEquation(y: int): int {
    3 * (y / 100 + 1) / 4
  }

  /** The eight corrections in 2500 years of the moon's cycle. */
  function LunarEquation(y: int): int {
    (8 * (y / 100 + 1) + 5) / 25
  }

  /** The age of the moon at the beginning of the year, before the two exceptions. */
  function PlainEpact(y: int): int {
    (11 * (y % 19) - SolarEquation(y) + LunarEquation(y) + 8) % 30
  }

  /** The epact with the exceptions for 24, and for 25 in the later years of the 19-year cycle. */
  function Epact(y: int): int {
    var e := PlainEpact(y);
    if e == 24 || (e == 25 && y % 19 + 1 > 11) then e + 1 else e
  }

  /** The paschal full moon, counted in days of March; the first on or after 21 March. */
  function PaschalFullMoon(y: int): int {
    if 44 - Epact(y) < 21 then 74 - Epact(y) else 44 - Epact(y)
  }

  /** Day `n` of March is Easter Sunday. */
  ghost predicate IsEasterSunday(y: int, n: int) {
    && n > PaschalFullMoon(y) && IsSunday(MarchDay(y, n))
    && forall k :: PaschalFullMoon(y) < k < n ==> !IsSunday(MarchDay(y, k))
  }

  // ---------------------------------------------------------------------------------------------
  // The formula
  // ---------------------------------------------------------------------------------------------

  /** The values the formula goes through. Its divisions all have non-negative operands; see `Dividends`. */
  datatype Terms = Terms(a: int, b: int, c: int, d: int, e: int, f: int, g: int, h: int, i: int, k: int, L: int, m: int)

  function Formula(y: int): Terms {
    var a := y % 19;
    var b := y / 100;
    var c := y % 100;
    var d := b / 4;
    var e := b % 4;
    var f := (b + 8) / 25;
    var g := (b - f + 1) / 3;
    var h := (19 * a + b - d - g + 15) % 30;
    var i := c / 4;
    var k := c % 4;
    var L := (32 + 2 * e + 2 * i - h - k) % 7;
    var m := (a + 11 * h + 22 * L) / 451;
    Terms(a, b, c, d, e, f, g, h, i, k, L, m)
  }

  function Month(y: int): int {
    var t := Formula(y);
    (t.h + t.L - 7 * t.m + 114) / 31
  }

  function Day(y: int): int {
    var t := Formula(y);
    (t.h + t.L - 7 * t.m + 114) % 31 + 1
  }

  /** The date of the formula counted in days of March. */
  function FormulaDay(y: int): int {
    var t := Formula(y);
    t.h + t.L - 7 * t.m + 22
  }

  /** Every dividend is non-negative, so the truncating `/` and `%` of C++ are the mathematical ones. */
  lemma Dividends(y: int)
    requires y >= 0
    ensures var t := Formula(y);
            && 0 <= t.b - t.f + 1 && 0 <= 19 * t.a + t.b - t.d - t.g + 15
            && 0 <= 32 + 2 * t.e + 2 * t.i - t.h - t.k
            && 0 <= t.a + 11 * t.h + 22 * t.L && 0 <= t.h + t.L - 7 * t.m + 114
  {
  }

  /** The two ways of counting the moon's corrections agree. */
  lemma CorrectionsAgree(b: int)
    requires b >= 0
    ensures (b - (b + 8) / 25 + 1) / 3 == (8 * (b + 1) + 5) / 25
    ensures b - b / 4 == 3 * (b + 1) / 4
  {
    var q, r := b / 25, b % 25;
    assert b == 25 * q + r;
    assert (8 * (b + 1) + 5) / 25 == 8 * q + (8 * r + 13) / 25;
    assert (b + 8) / 25 == q + (r + 8) / 25;
    assert (b - (b + 8) / 25 + 1) / 3 == 8 * q + (r - (r + 8) / 25 + 1) / 3;
  }

  /** `h` is the distance of the full moon by the plain epact from 21 March. */
  lemma DistanceFromEpact(y: int)
    requires y >= 0
    ensures 0 <= Formula(y).h < 30
    ensures Formula(y).h == (if PlainEpact(y) <= 23 then 23 - PlainEpact(y) else 53 - PlainEpact(y))
  {
    hide SolarEquation, LunarEquation;
    var t := Formula(y);
    EpactInFormula(y);
    Complement30(11 * t.a - SolarEquation(y) + LunarEquation(y) + 8, t.a);
  }

  lemma EpactInFormula(y: int)
    requires y >= 0
    ensures var t := Formula(y); 19 * t.a + t.b - t.d - t.g + 15 == 30 * t.a + 23 - (11 * t.a - SolarEquation(y) + LunarEquation(y) + 8)
  {
    CorrectionsAgree(Formula(y).b);
  }

  lemma Complement30(x: int, a: int)
    ensures (30 * a + 23 - x) % 30 == if x % 30 <= 23 then 23 - x % 30 else 53 - x % 30
  {
    assert x == x / 30 * 30 + x % 30;
    var r := if x % 30 <= 23 then 23 - x % 30 else 53 - x % 30;
    assert 30 * a + 23 - x == 30 * (a - x / 30 - (if x % 30 <= 23 then 0 else 1)) + r;
  }

  lemma QuotientBefore(y: int, n: int)
    requires n > 0
    ensures (y - 1) / n == y / n - (if y % n == 0 then 1 else 0)
  {
    if y % n == 0 {
      assert y - 1 == n * (y / n - 1) + (n - 1);
      QuotientIs(y - 1, n, y / n - 1, n - 1);
    } else {
      QuotientIs(y - 1, n, y / n, y % n - 1);
    }
  }

  lemma QuotientIs(x: int, n: int, q: int, r: int)
    requires n > 0 && x == n * q + r && 0 <= r < n
    ensures x / n == q && x % n == r
  {
    var d := x / n - q;
    assert n * d == r - x % n;
    assert d >= 1 ==> n * d >= n;
    assert d <= -1 ==> n * d <= -n;
  }

  lemma LeapDays(y: int)
    requires y >= 0
    ensures var b, c := y / 100, y % 100;
            (y - 1) / 4 - (y - 1) / 100 + (y - 1) / 400 + (if IsLeapYear(y) then 1 else 0) == 25 * b + c / 4 - b + b / 4
  {
    QuotientBefore(y, 4);
    QuotientBefore(y, 100);
    QuotientBefore(y, 400);
    var b, c := y / 100, y % 100;
    QuotientIs(y, 4, 25 * b + c / 4, c % 4);
    QuotientIs(y, 400, b / 4, b % 4 * 100 + c);
  }

  lemma Multiple7(x: int, q: int, r: int)
    requires x == 7 * q + r && 0 <= r < 7
    ensures x % 7 == r
  {
  }

  /** Before the correction by `m` the formula gives a Sunday, 1 to 7 days after the uncorrected full moon. */
  lemma UncorrectedIsSunday(y: int)
    requires y >= 0
    ensures var t := Formula(y); 0 <= t.L < 7 && IsSunday(MarchDay(y, t.h + t.L + 22))
  {
    var t := Formula(y);
    LeapDays(y);
    var s := 32 + 2 * t.e + 2 * t.i - t.h - t.k;
    assert s == 7 * (s / 7) + t.L;
    assert y == 100 * t.b + t.c && t.b == 4 * t.d + t.e && t.c == 4 * t.i + t.k;
    var x := MarchDay(y, t.h + t.L + 22);
    assert x == 365 * (y - 1) + (25 * t.b + t.i - t.b + t.d) + 59 + t.h + t.L + 22;
    assert x == 7 * (52 * (y - 1) + 71 * t.d + 17 * t.e + t.e + t.i + 16 - s / 7) + 0;
    Multiple7(x, 52 * (y - 1) + 71 * t.d + 17 * t.e + t.e + t.i + 16 - s / 7, 0);
  }

  /**
    The single division for `m` replaces the case split of the epact's exceptions: it moves Easter
    back a week exactly if the full moon is corrected by a day and fell on a Sunday before that.
   */
  lemma DivisionIsCaseSplit(y: int)
    requires y >= 0
    ensures var t := Formula(y);
            t.m == if t.L == 6 && (t.h == 29 || (t.h == 28 && t.a > 10)) then 1 else 0
  {
    DistanceFromEpact(y);
    UncorrectedIsSunday(y);
    var t := Formula(y);
    assert 0 <= t.a <= 18;
  }

  /** The full moon the formula works with is the corrected one of the definition. */
  lemma FullMoonOfFormula(y: int)
    requires y >= 0
    ensures var t := Formula(y);
            PaschalFullMoon(y) == 21 + t.h - (if t.h == 29 || (t.h == 28 && t.a > 10) then 1 else 0)
  {
    DistanceFromEpact(y);
  }

  /** The formula yields Easter Sunday of the calendar, for every year from 0 and so for every Gregorian year. */
  lemma FormulaIsEaster(y: int)
    requires y >= 0
    ensures IsEasterSunday(y, FormulaDay(y))
    ensures Month(y) == (if FormulaDay(y) <= 31 then 3 else 4)
    ensures Day(y) == (if FormulaDay(y) <= 31 then FormulaDay(y) else FormulaDay(y) - 31)
    ensures 22 <= FormulaDay(y) <= 31 + 25
  {
    hide Formula, PaschalFullMoon, IsSunday, MarchDay;
    var t := Formula(y);
    DistanceFromEpact(y);
    UncorrectedIsSunday(y);
    DivisionIsCaseSplit(y);
    FullMoonOfFormula(y);
    WeekBack(y, t.h + t.L + 22);
    forall k | PaschalFullMoon(y) < k < FormulaDay(y)
      ensures !IsSunday(MarchDay(y, k))
    {
      SundaysApart(y, k, FormulaDay(y));
    }
  }

  lemma WeekBack(y: int, n: int)
    ensures IsSunday(MarchDay(y, n)) <==> IsSunday(MarchDay(y, n - 7))
  {
    var x := MarchDay(y, n);
    assert MarchDay(y, n - 7) == x - 7;
    assert x == x / 7 * 7 + x % 7;
    Multiple7(x - 7, x / 7 - 1, x % 7);
  }

  lemma SundaysApart(y: int, k: int, n: int)
    requires k < n && n < k + 7 && IsSunday(MarchDay(y, n))
    ensures !IsSunday(MarchDay(y, k))
  {
    var x := MarchDay(y, n);
    assert MarchDay(y, k) == x - (n - k);
    Multiple7(x - (n - k), x / 7 - 1, 7 - (n - k));
  }

  /** There is only one Easter Sunday in a year. */
  lemma EasterIsUnique(y: int, n: int, k: int)
    requires IsEasterSunday(y, n) && IsEasterSunday(y, k)
    ensures n == k
  {
  }

  // ---------------------------------------------------------------------------------------------
  // The check of the date
  // ---------------------------------------------------------------------------------------------

  /** Day `n`, counted in days of March from anywhere in the year, has that month and day. */
  predicate HasDate(n: int, month: int, day: int)
    requires month == 3 || month == 4
  {
    if month == 3 then 1 <= n <= 31 && n == day else 32 <= n <= 61 && n - 31 == day
  }

  /** `time_iseasterday`, on days: true from Good Friday to Easter Monday and at no other time. */
  method IsEasterDay(y: int, today: int) returns (result: bool)
    requires y >= 0
    ensures forall easter :: IsEasterSunday(y, easter) ==> (result <==> easter - 2 <= today <= easter + 1)
  {
    hide Formula, PaschalFullMoon, IsSunday, MarchDay;
    FormulaIsEaster(y);
    var month, day := Month(y), Day(y);
    ghost var sunday := FormulaDay(y);
    assert forall n :: HasDate(n, month, day) <==> n == sunday;
    forall easter | IsEasterSunday(y, easter)
      ensures easter == sunday
    {
      EasterIsUnique(y, easter, sunday);
    }
    var dayOffset := -1;
    while dayOffset <= 2
      invariant -1 <= dayOffset <= 3
      invariant !(today - 1 <= sunday < today + dayOffset)
    {
      if HasDate(today + dayOffset, month, day) {
        return true;
      }
      dayOffset := dayOffset + 1;
    }
    return false;
  }
}
