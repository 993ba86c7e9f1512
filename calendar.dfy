/** Proleptic Gregorian calendar dates, the arithmetic Go's `time` package
    performs on them, and the day numbering that justifies it.

    A date is a (year, month, day) triple. Go normalises an out-of-range
    day by converting to a count of days and back; here the same result is
    obtained by stepping one day at a time, and `DayNumber` proves the two
    agree: stepping n days moves the day number by exactly n, and the day
    number determines the date. */
module Calendar {

  datatype Civil = Civil(year: int, month: int, day: int)

  predicate IsLeap(y: int) {
    y % 4 == 0 && (y % 100 != 0 || y % 400 == 0)
  }

  function DaysIn(m: int, y: int): int {
    if m == 2 then (if IsLeap(y) then 29 else 28)
    else if m == 4 || m == 6 || m == 9 || m == 11 then 30
    else 31
  }

  function YearLength(y: int): int {
    if IsLeap(y) then 366 else 365
  }

  /** A real calendar date: month 1..12 and a day that month has. */
  predicate ValidDate(c: Civil) {
    1 <= c.month <= 12 && 1 <= c.day <= DaysIn(c.month, c.year)
  }

  /** Chronological order, which for valid dates is the order of the
      zero-padded `YYYYMMDD` strings. */
  predicate Before(a: Civil, b: Civil) {
    a.year < b.year ||
    (a.year == b.year && (a.month < b.month || (a.month == b.month && a.day < b.day)))
  }

  predicate After(a: Civil, b: Civil) {
    Before(b, a)
  }

  function NextDay(c: Civil): (r: Civil)
    requires ValidDate(c)
    ensures ValidDate(r)
  {
    if c.day < DaysIn(c.month, c.year) then Civil(c.year, c.month, c.day + 1)
    else if c.month < 12 then Civil(c.year, c.month + 1, 1)
    else Civil(c.year + 1, 1, 1)
  }

  function PrevDay(c: Civil): (r: Civil)
    requires ValidDate(c)
    ensures ValidDate(r)
  {
    if c.day > 1 then Civil(c.year, c.month, c.day - 1)
    else if c.month > 1 then Civil(c.year, c.month - 1, DaysIn(c.month - 1, c.year))
    else Civil(c.year - 1, 12, 31)
  }

  /** Go's `t.AddDate(0, 0, n)` on a date at midnight, one day at a time
      (`DayNumberAddDays` and `AddDaysIsUnique` show this is the date whose
      day number is n more, which is how Go computes it). */
  function AddDays(c: Civil, n: int): (r: Civil)
    requires ValidDate(c)
    ensures ValidDate(r)
    decreases if n >= 0 then n else -n
  {
    if n == 0 then c
    else if n > 0 then AddDays(NextDay(c), n - 1)
    else AddDays(PrevDay(c), n + 1)
  }

  /** Go's `time.Date(y, m, d, ...)` for a month in range and any day
      number d >= 1: the day overflow is carried into the following days,
      so the result has the day number (y, m, d) would have, and an
      in-range day is kept. */
  function Normalize(y: int, m: int, d: int): (r: Civil)
    requires 1 <= m <= 12 && d >= 1
    ensures ValidDate(r) && DayNumber(r) == DayNumber(Civil(y, m, d))
    ensures d <= DaysIn(m, y) ==> r == Civil(y, m, d)
  {
    DayNumberAddDays(Civil(y, m, 1), d - 1);
    if d <= DaysIn(m, y) then AddDaysWithinMonth(y, m, 1, d - 1); AddDays(Civil(y, m, 1), d - 1)
    else AddDays(Civil(y, m, 1), d - 1)
  }

  /** Go's `t.AddDate(1, 0, 0)`: same month and day one year on,
      normalised. Month and day are kept, except that February 29 carried
      into a common year overflows to March 1. */
  function AddYear(c: Civil): (r: Civil)
    requires ValidDate(c)
    ensures ValidDate(r) && r.year == c.year + 1
    ensures r == if c.month == 2 && c.day == 29 && !IsLeap(c.year + 1) then Civil(c.year + 1, 3, 1)
                 else Civil(c.year + 1, c.month, c.day)
  {
    var y := c.year + 1;
    var r := Normalize(y, c.month, c.day);
    if c.month == 2 && c.day == 29 && !IsLeap(y) then
      var march := Civil(y, 3, 1);
      BeforeIffSmallerDayNumber(r, march);
      BeforeIffSmallerDayNumber(march, r);
      r
    else
      r
  }

  // ----- Day numbers -----

  /** Days from 0000-01-01 to January 1st of year y (negative before it). */
  function DaysBeforeYear(y: int): int {
    365 * y + (y + 3) / 4 - (y + 99) / 100 + (y + 399) / 400
  }

  function DaysBeforeMonth(m: int, y: int): int
    requires 1 <= m <= 12
  {
    var common :=
      if m == 1 then 0 else if m == 2 then 31 else if m == 3 then 59
      else if m == 4 then 90 else if m == 5 then 120 else if m == 6 then 151
      else if m == 7 then 181 else if m == 8 then 212 else if m == 9 then 243
      else if m == 10 then 273 else if m == 11 then 304 else 334;
    if m > 2 && IsLeap(y) then common + 1 else common
  }

  /** The number of days from 0000-01-01 to c. */
  function DayNumber(c: Civil): int
    requires 1 <= c.month <= 12
  {
    DaysBeforeYear(c.year) + DaysBeforeMonth(c.month, c.year) + c.day - 1
  }

  lemma QuotientStep4(y: int)
    ensures (y + 4) / 4 == (y + 3) / 4 + (if y % 4 == 0 then 1 else 0)
  {
    var q, r := y / 4, y % 4;
    assert y == 4 * q + r && 0 <= r < 4;
    assert (y + 4) / 4 == q + 1 + r / 4 by {
      assert y + 4 == 4 * (q + 1) + r;
    }
    assert (y + 3) / 4 == q + (r + 3) / 4 by {
      assert y + 3 == 4 * q + (r + 3);
    }
  }

  lemma QuotientStep100(y: int)
    ensures (y + 100) / 100 == (y + 99) / 100 + (if y % 100 == 0 then 1 else 0)
  {
    var q, r := y / 100, y % 100;
    assert y == 100 * q + r && 0 <= r < 100;
    assert (y + 100) / 100 == q + 1 by {
      assert y + 100 == 100 * (q + 1) + r;
    }
    if r == 0 {
      assert (y + 99) / 100 == q by { assert y + 99 == 100 * q + 99; }
    } else {
      assert (y + 99) / 100 == q + 1 by { assert y + 99 == 100 * (q + 1) + (r - 1); }
    }
  }

  lemma QuotientStep400(y: int)
    ensures (y + 400) / 400 == (y + 399) / 400 + (if y % 400 == 0 then 1 else 0)
  {
    var q, r := y / 400, y % 400;
    assert y == 400 * q + r && 0 <= r < 400;
    assert (y + 400) / 400 == q + 1 by {
      assert y + 400 == 400 * (q + 1) + r;
    }
    if r == 0 {
      assert (y + 399) / 400 == q by { assert y + 399 == 400 * q + 399; }
    } else {
      assert (y + 399) / 400 == q + 1 by { assert y + 399 == 400 * (q + 1) + (r - 1); }
    }
  }

  lemma CenturyIsLeapCandidate(y: int)
    requires y % 100 == 0
    ensures y % 4 == 0
  {
    assert y == 4 * (25 * (y / 100));
  }

  lemma QuadricentennialIsCentury(y: int)
    requires y % 400 == 0
    ensures y % 100 == 0
  {
    assert y == 100 * (4 * (y / 400));
  }

  /** Consecutive years are YearLength apart: the closed form counts
      exactly the Gregorian leap years. */
  lemma DaysBeforeNextYear(y: int)
    ensures DaysBeforeYear(y + 1) == DaysBeforeYear(y) + YearLength(y)
  {
    QuotientStep4(y);
    QuotientStep100(y);
    QuotientStep400(y);
    if y % 100 == 0 {
      CenturyIsLeapCandidate(y);
    }
    if y % 400 == 0 {
      QuadricentennialIsCentury(y);
    }
    assert (y + 1 + 3) / 4 == (y + 4) / 4;
    assert (y + 1 + 99) / 100 == (y + 100) / 100;
    assert (y + 1 + 399) / 400 == (y + 400) / 400;
  }

  lemma {:induction false} DaysBeforeYearMonotone(y1: int, y2: int)
    requires y1 <= y2
    ensures DaysBeforeYear(y1) + 365 * (y2 - y1) <= DaysBeforeYear(y2)
    decreases y2 - y1
  {
    if y1 < y2 {
      DaysBeforeYearMonotone(y1, y2 - 1);
      DaysBeforeNextYear(y2 - 1);
    }
  }

  /** The days before month m plus the days in m are the days before m + 1
      (or the whole year after December). */
  lemma MonthStep(m: int, y: int)
    requires 1 <= m <= 12
    ensures m < 12 ==> DaysBeforeMonth(m + 1, y) == DaysBeforeMonth(m, y) + DaysIn(m, y)
    ensures m == 12 ==> DaysBeforeMonth(m, y) + DaysIn(m, y) == YearLength(y)
  {
  }

  lemma {:induction false} DaysBeforeMonthMonotone(m1: int, m2: int, y: int)
    requires 1 <= m1 < m2 <= 12
    ensures DaysBeforeMonth(m1, y) + DaysIn(m1, y) <= DaysBeforeMonth(m2, y)
    decreases m2 - m1
  {
    MonthStep(m1, y);
    if m1 + 1 < m2 {
      DaysBeforeMonthMonotone(m1 + 1, m2, y);
    }
  }

  /** A valid date lies within its own year's day numbers. */
  lemma DayNumberWithinYear(c: Civil)
    requires ValidDate(c)
    ensures DaysBeforeYear(c.year) <= DayNumber(c) < DaysBeforeYear(c.year) + YearLength(c.year)
  {
    if c.month < 12 {
      DaysBeforeMonthMonotone(c.month, 12, c.year);
    }
    MonthStep(12, c.year);
  }

  lemma DayNumberNextDay(c: Civil)
    requires ValidDate(c)
    ensures DayNumber(NextDay(c)) == DayNumber(c) + 1
  {
    MonthStep(c.month, c.year);
    if c.day == DaysIn(c.month, c.year) && c.month == 12 {
      DaysBeforeNextYear(c.year);
    }
  }

  lemma DayNumberPrevDay(c: Civil)
    requires ValidDate(c)
    ensures DayNumber(PrevDay(c)) == DayNumber(c) - 1
  {
    if c.day == 1 {
      if c.month > 1 {
        MonthStep(c.month - 1, c.year);
      } else {
        DaysBeforeNextYear(c.year - 1);
        MonthStep(12, c.year - 1);
      }
    }
  }

  /** Stepping n days moves the day number by exactly n, which is what Go's
      day-count normalisation computes. */
  lemma {:induction false} DayNumberAddDays(c: Civil, n: int)
    requires ValidDate(c)
    ensures DayNumber(AddDays(c, n)) == DayNumber(c) + n
    decreases if n >= 0 then n else -n
  {
    if n > 0 {
      DayNumberNextDay(c);
      DayNumberAddDays(NextDay(c), n - 1);
    } else if n < 0 {
      DayNumberPrevDay(c);
      DayNumberAddDays(PrevDay(c), n + 1);
    }
  }

  /** Calendar order and day-number order coincide on valid dates. */
  lemma BeforeIffSmallerDayNumber(a: Civil, b: Civil)
    requires ValidDate(a) && ValidDate(b)
    ensures Before(a, b) <==> DayNumber(a) < DayNumber(b)
  {
    if Before(a, b) {
      BeforeHasSmallerDayNumber(a, b);
    } else if a != b {
      BeforeHasSmallerDayNumber(b, a);
    }
  }

  lemma BeforeHasSmallerDayNumber(a: Civil, b: Civil)
    requires ValidDate(a) && ValidDate(b) && Before(a, b)
    ensures DayNumber(a) < DayNumber(b)
  {
    if a.year < b.year {
      DayNumberWithinYear(a);
      DayNumberWithinYear(b);
      DaysBeforeNextYear(a.year);
      DaysBeforeYearMonotone(a.year + 1, b.year);
    } else if a.month < b.month {
      DaysBeforeMonthMonotone(a.month, b.month, a.year);
    }
  }

  /** A valid date is determined by its day number: whatever Go computes
      for `AddDate(0, 0, n)` (the date whose day number is n later) is the
      date `AddDays` reaches. */
  lemma AddDaysIsUnique(c: Civil, n: int, d: Civil)
    requires ValidDate(c) && ValidDate(d)
    requires DayNumber(d) == DayNumber(c) + n
    ensures AddDays(c, n) == d
  {
    DayNumberAddDays(c, n);
    BeforeIffSmallerDayNumber(AddDays(c, n), d);
    BeforeIffSmallerDayNumber(d, AddDays(c, n));
  }

  lemma {:induction false} AddDaysWithinMonth(y: int, m: int, j: int, k: int)
    requires 1 <= m <= 12 && 1 <= j && 0 <= k && j + k <= DaysIn(m, y)
    ensures AddDays(Civil(y, m, j), k) == Civil(y, m, j + k)
    decreases k
  {
    if k > 0 {
      AddDaysWithinMonth(y, m, j + 1, k - 1);
    }
  }

  /** Two leap years are never consecutive. */
  lemma LeapYearsApart(y: int)
    requires IsLeap(y)
    ensures !IsLeap(y + 1)
  {
  }

  /** Adding a days and then b days is adding a + b days, for steps in
      either direction. */
  lemma AddDaysAdditive(c: Civil, a: int, b: int)
    requires ValidDate(c)
    ensures AddDays(AddDays(c, a), b) == AddDays(c, a + b)
  {
    DayNumberAddDays(c, a);
    DayNumberAddDays(AddDays(c, a), b);
    AddDaysIsUnique(c, a + b, AddDays(AddDays(c, a), b));
  }
}
