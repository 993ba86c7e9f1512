/** What the resolver of internal/nextdate.go promises, proved of `Resolve`
    (which the `NextDate` method is proved equal to). */
module RecurrenceLaws {
  import opened Calendar
  import opened Decimal
  import opened Tokens
  import opened DateText
  import opened Recurrence

  /** `now` survives the source's format-and-reparse step exactly when its
      year has four digits. */
  predicate ReadableNow(now: Instant) {
    0 <= now.date.year <= 9999
  }

  // ----- Order of the checks and the rule grammar -----

  /** Formatting `now` and parsing it back fails exactly for years outside
      0..9999, and that failure comes before every other check. */
  lemma UnreadableNowFirst(now: Instant, date: string, repeat: string)
    requires ValidInstant(now)
    ensures Resolve(now, date, repeat) == Failed(UnreadableNow) <==> !ReadableNow(now)
  {
    ParseFormatDate(now.date);
  }

  /** The reference date the loops compare against is `now`'s own date: the
      format-and-reparse step only drops the time of day. */
  lemma TodayIsNowsDate(now: Instant)
    requires ValidInstant(now) && ReadableNow(now)
    ensures ParseDate(FormatDate(now.date)) == Some(now.date)
  {
    ParseFormatDate(now.date);
  }

  /** An empty rule is rejected whatever the base date, even a malformed one. */
  lemma EmptyRuleRejected(now: Instant, date: string)
    requires ValidInstant(now) && ReadableNow(now)
    ensures Resolve(now, date, "") == Failed(MissingRule)
  {
    ParseFormatDate(now.date);
  }

  /** A malformed base date is rejected before the rule class is looked at,
      so even an unsupported rule reports the date. */
  lemma MalformedBaseBeforeRuleClass(now: Instant, date: string, repeat: string)
    requires ValidInstant(now) && ReadableNow(now)
    requires repeat != "" && ParseDate(date).None?
    ensures Resolve(now, date, repeat) == Failed(MalformedBase)
  {
    ParseFormatDate(now.date);
  }

  /** With a readable base, the first space-separated token alone decides
      whether the rule is rejected as invalid: anything but "y" and "d". */
  lemma InvalidRuleIffUnknownClass(now: Instant, date: string, repeat: string)
    requires ValidInstant(now) && ReadableNow(now)
    requires repeat != "" && ParseDate(date).Some?
    ensures Resolve(now, date, repeat) == Failed(InvalidRule)
        <==> Split(repeat)[0] != "y" && Split(repeat)[0] != "d"
  {
    ParseFormatDate(now.date);
  }

  /** The rule matters only through its first two tokens. */
  lemma SameLeadingTokens(now: Instant, date: string, r1: string, r2: string)
    requires ValidInstant(now) && r1 != "" && r2 != ""
    requires Split(r1)[0] == Split(r2)[0]
    requires |Split(r1)| >= 2 <==> |Split(r2)| >= 2
    requires |Split(r1)| >= 2 ==> Split(r1)[1] == Split(r2)[1]
    ensures Resolve(now, date, r1) == Resolve(now, date, r2)
  {
    ParseFormatDate(now.date);
    var rep := Split(r1);
    if !(0 <= now.date.year <= 9999) || ParseDate(date).None? {
    } else if rep[0] == "d" && |rep| >= 2 {
      SameCountSameResolution(now, date, r1, r2);
    }
  }

  /** Two "d" rules with the same count resolve alike. */
  lemma SameCountSameResolution(now: Instant, date: string, r1: string, r2: string)
    requires ValidInstant(now) && 0 <= now.date.year <= 9999 && ParseDate(date).Some?
    requires r1 != "" && r2 != ""
    requires Split(r1)[0] == "d" && Split(r2)[0] == "d"
    requires |Split(r1)| >= 2 && |Split(r2)| >= 2 && Split(r1)[1] == Split(r2)[1]
    ensures Resolve(now, date, r1) == Resolve(now, date, r2)
  {
    ParseFormatDate(now.date);
  }

  /** Tokens after "y" are ignored. */
  lemma YearlyIgnoresExtraTokens(now: Instant, date: string, rest: string)
    requires ValidInstant(now)
    ensures Resolve(now, date, "y " + rest) == Resolve(now, date, "y")
  {
    assert "y " + rest == "y" + " " + rest;
    SplitAfterFirstSpace("y", rest);
    SplitNoSpace("y");
  }

  /** "d <count>" splits into the class and the count ... */
  lemma DailyRuleSplit(count: string)
    requires ' ' !in count
    ensures Split("d " + count) == ["d", count]
  {
    assert "d " + count == "d" + " " + count;
    SplitAfterFirstSpace("d", count);
    SplitNoSpace(count);
  }

  /** ... and further tokens follow them. */
  lemma LongDailyRuleSplit(count: string, rest: string)
    requires ' ' !in count
    ensures Split("d " + count + " " + rest) == ["d", count] + Split(rest)
  {
    assert "d " + count + " " + rest == "d" + " " + (count + " " + rest);
    SplitAfterFirstSpace("d", count + " " + rest);
    SplitAfterFirstSpace(count, rest);
  }

  /** Tokens after the count of a "d" rule are ignored. */
  lemma DailyIgnoresExtraTokens(now: Instant, date: string, count: string, rest: string)
    requires ValidInstant(now) && ' ' !in count
    ensures Resolve(now, date, "d " + count + " " + rest) == Resolve(now, date, "d " + count)
  {
    var long, short := "d " + count + " " + rest, "d " + count;
    LongDailyRuleSplit(count, rest);
    DailyRuleSplit(count);
    var rl, rs := Split(long), Split(short);
    assert rl[0] == rs[0] == "d" && |rl| >= 2 && |rs| == 2 && rl[1] == rs[1] == count;
    assert long[0] == 'd' && short[0] == 'd';
    SameLeadingTokens(now, date, long, short);
  }

  /** "d" with no count is a malformed mode. */
  lemma DailyWithoutCount(now: Instant, date: string)
    requires ValidInstant(now) && ReadableNow(now) && ParseDate(date).Some?
    ensures Resolve(now, date, "d") == Failed(MalformedMode)
  {
    ParseFormatDate(now.date);
    SplitNoSpace("d");
  }

  /** A count Atoi rejects is reported as such. */
  lemma DailyBadCount(now: Instant, date: string, count: string)
    requires ValidInstant(now) && ReadableNow(now) && ParseDate(date).Some?
    requires ' ' !in count && Atoi(count).None?
    ensures Resolve(now, date, "d " + count) == Failed(BadCount)
  {
    ParseFormatDate(now.date);
    DailyRuleSplit(count);
  }

  /** Counts above 400 are rejected, and only those: 400 itself and every
      smaller count, zero and negative ones included, get past the check. */
  lemma CountLimit(now: Instant, date: string, count: string)
    requires ValidInstant(now) && ReadableNow(now) && ParseDate(date).Some?
    requires ' ' !in count && Atoi(count).Some?
    ensures Resolve(now, date, "d " + count) == Failed(CountTooLarge) <==> Atoi(count).value > 400
  {
    ParseFormatDate(now.date);
    DailyRuleSplit(count);
  }

  // ----- The yearly rule -----

  /** For a base other than February 29 the yearly loop keeps month and
      day, and lands on the first such anniversary after `now`. */
  lemma {:induction false} YearlyAnniversary(cur: Civil, now: Civil)
    requires ValidDate(cur) && !(cur.month == 2 && cur.day == 29)
    ensures var r := YearlyFrom(cur, cur.month, cur.day, now);
      r == Civil(r.year, cur.month, cur.day) && r.year > cur.year && After(r, now) &&
      forall y :: cur.year < y < r.year ==> !After(Civil(y, cur.month, cur.day), now)
    decreases now.year - cur.year
  {
    var cand := AddYear(cur);
    assert cand == Civil(cur.year + 1, cur.month, cur.day);
    if !After(cand, now) {
      YearlyAnniversary(cand, now);
    }
  }

  /** From March 1 with a February 29 origin, every step lands on March 1:
      the month never matches again, even in leap years. */
  lemma {:induction false} StickyMarchFirst(y: int, now: Civil)
    ensures var r := YearlyFrom(Civil(y, 3, 1), 2, 29, now);
      r == Civil(r.year, 3, 1) && r.year > y && After(r, now) &&
      forall z :: y < z < r.year ==> !After(Civil(z, 3, 1), now)
    decreases now.year - y
  {
    if !After(Civil(y + 1, 3, 1), now) {
      StickyMarchFirst(y + 1, now);
    }
  }

  /** A February 29 base resolves to March 1 of the first year after it
      whose March 1 is after `now`; February 29 is never produced. */
  lemma LeapDayBase(base: Civil, now: Civil)
    requires ValidDate(base) && base.month == 2 && base.day == 29
    ensures var r := YearlyFrom(base, 2, 29, now);
      r == Civil(r.year, 3, 1) && r.year > base.year && After(r, now) &&
      forall z :: base.year < z < r.year ==> !After(Civil(z, 3, 1), now)
  {
    LeapYearsApart(base.year);
    if !After(Civil(base.year + 1, 3, 1), now) {
      StickyMarchFirst(base.year + 1, now);
    }
  }

  /** Stickiness in numbers: from 2020-02-29 with `now` at the end of 2023,
      the next date is 2024-03-01 although 2024-02-29 exists. */
  lemma LeapDaySkipsLaterLeapDay()
    ensures YearlyFrom(Civil(2020, 2, 29), 2, 29, Civil(2023, 12, 31)) == Civil(2024, 3, 1)
  {
    var now := Civil(2023, 12, 31);
    LeapDayBase(Civil(2020, 2, 29), now);
    assert After(Civil(2024, 3, 1), now);
  }

  // ----- The every-n-days rule -----

  /** The j-th point of an every-n-days series: base + j·n days. */
  function DailyPoint(base: Civil, n: int, j: int): Civil
    requires ValidDate(base)
  {
    AddDays(base, j * n)
  }

  /** How many steps the source's loop takes: one more than the whole
      number of n-day periods between base and now, and at least one. */
  function DailySteps(base: Civil, n: int, now: Civil): int
    requires ValidDate(base) && ValidDate(now) && n >= 1
  {
    var gap := DayNumber(now) - DayNumber(base);
    if gap < 0 then 1 else gap / n + 1
  }

  /** The j-th point lies j·n day numbers after the base. */
  lemma DailyPointDayNumber(base: Civil, n: int, j: int, now: Civil)
    requires ValidDate(base) && ValidDate(now)
    ensures DayNumber(DailyPoint(base, n, j)) == DayNumber(base) + j * n
    ensures After(DailyPoint(base, n, j), now) <==> j * n > DayNumber(now) - DayNumber(base)
  {
    DayNumberAddDays(base, j * n);
    BeforeIffSmallerDayNumber(now, DailyPoint(base, n, j));
  }

  lemma MulStep(j: int, n: int)
    requires j >= 0 && n >= 1
    ensures j * n >= 0 && (j + 1) * n == j * n + n
  {
  }

  lemma AddDaysShift(cur: Civil, n: int, j: int)
    requires ValidDate(cur) && n >= 1 && j >= 0
    ensures AddDays(AddDays(cur, n), j * n) == AddDays(cur, (j + 1) * n)
  {
    var m := j * n;
    MulStep(j, n);
    AddDaysAdditive(cur, n, m);
  }

  lemma DailyPointShift(cur: Civil, n: int, j: int)
    requires ValidDate(cur) && n >= 1 && j >= 0
    ensures DailyPoint(AddDays(cur, n), n, j) == DailyPoint(cur, n, j + 1)
  {
    AddDaysShift(cur, n, j);
  }

  /** Points 2..k of the series from `cur` are points 1..k-1 of the series
      from its first step, so none of them is after `now` if none of those
      is. */
  lemma EarlierPointsShifted(cur: Civil, n: int, now: Civil, k: int)
    requires ValidDate(cur) && n >= 1 && k >= 1
    requires !After(DailyPoint(cur, n, 1), now)
    requires forall j :: 1 <= j < k ==> !After(DailyPoint(AddDays(cur, n), n, j), now)
    ensures forall j :: 1 <= j < k + 1 ==> !After(DailyPoint(cur, n, j), now)
  {
    forall j | 1 < j < k + 1
      ensures !After(DailyPoint(cur, n, j), now)
    {
      DailyPointShift(cur, n, j - 1);
    }
  }

  lemma {:induction false} DailyFromIsSomePoint(cur: Civil, n: int, now: Civil) returns (k: int)
    requires ValidDate(cur) && ValidDate(now) && n >= 1
    ensures k >= 1 && DailyFrom(cur, n, now) == DailyPoint(cur, n, k)
    ensures forall j :: 1 <= j < k ==> !After(DailyPoint(cur, n, j), now)
    decreases DayNumber(now) - DayNumber(cur)
  {
    var next := AddDays(cur, n);
    DayNumberAddDays(cur, n);
    BeforeIffSmallerDayNumber(now, next);
    assert next == DailyPoint(cur, n, 1) by {
      assert 1 * n == n;
    }
    if After(next, now) {
      k := 1;
    } else {
      var k' := DailyFromIsSomePoint(next, n, now);
      DailyPointShift(cur, n, k');
      EarlierPointsShifted(cur, n, now, k');
      k := k' + 1;
    }
  }

  lemma DivisionUnique(g: int, n: int, q: int)
    requires n >= 1 && q * n <= g < (q + 1) * n
    ensures g / n == q
  {
    var d := g / n - q;
    assert d * n == (g / n) * n - q * n;
    SmallMultipleIsZero(d, n);
  }

  lemma SmallMultipleIsZero(d: int, n: int)
    requires n >= 1 && -n < d * n < n
    ensures d == 0
  {
    MulSign(d, n);
  }

  lemma MulSign(d: int, n: int)
    requires n >= 1
    ensures d >= 1 ==> d * n >= n
    ensures d <= -1 ==> d * n <= -n
  {
  }

  /** The least k >= 1 with k·n > gap is 1 for a negative gap and
      gap / n + 1 otherwise. */
  lemma LeastStepCount(gap: int, n: int, k: int)
    requires n >= 1 && k >= 1 && k * n > gap && (k > 1 ==> (k - 1) * n <= gap)
    ensures k == if gap < 0 then 1 else gap / n + 1
  {
    MulStep(k - 1, n);
    if k > 1 {
      DivisionUnique(gap, n, k - 1);
    } else if gap >= 0 {
      DivisionUnique(gap, n, 0);
    }
  }

  /** For "d n" with n >= 1 the result is base + k·n days for the least
      k >= 1 that lands after `now`, and k is `DailySteps`. */
  lemma DailyIsFirstStepAfterNow(base: Civil, n: int, now: Civil)
    requires ValidDate(base) && ValidDate(now) && n >= 1
    ensures var k := DailySteps(base, n, now);
      k >= 1 && DailyFrom(base, n, now) == DailyPoint(base, n, k) &&
      After(DailyPoint(base, n, k), now) &&
      forall j :: 1 <= j < k ==> !After(DailyPoint(base, n, j), now)
  {
    var k := DailyFromIsSomePoint(base, n, now);
    DailyPointDayNumber(base, n, k, now);
    if k > 1 {
      DailyPointDayNumber(base, n, k - 1, now);
    }
    LeastStepCount(DayNumber(now) - DayNumber(base), n, k);
  }

  /** With a count of zero or less the source's loop passes `now` on its
      first step or never: no later step goes past the first one. */
  lemma NonPositiveCountNeverPasses(base: Civil, n: int, now: Civil, j: int)
    requires ValidDate(base) && ValidDate(now) && n <= 0 && j >= 1
    requires !After(DailyPoint(base, n, 1), now)
    ensures !After(DailyPoint(base, n, j), now)
  {
    DailyPointDayNumber(base, n, 1, now);
    DailyPointDayNumber(base, n, j, now);
    NonPositiveMultiple(j, n);
  }

  lemma NonPositiveMultiple(j: int, n: int)
    requires j >= 1 && n <= 0
    ensures j * n <= 1 * n
  {
    assert j * n == (j - 1) * n + n;
    assert (j - 1) * -n >= 0;
  }

  /** The `NeverReturns` outcome is exactly the non-positive count whose
      first step stays at or before `now`. */
  lemma NeverReturnsIff(now: Instant, date: string, repeat: string)
    requires ValidInstant(now) && ReadableNow(now) && ParseDate(date).Some?
    ensures Resolve(now, date, repeat) == NeverReturns <==>
      var rep := Split(repeat);
      repeat != "" && rep[0] == "d" && |rep| >= 2 && Atoi(rep[1]).Some? && Atoi(rep[1]).value <= 0 &&
      !After(AddDays(ParseDate(date).value, Atoi(rep[1]).value), now.date)
  {
    ParseFormatDate(now.date);
  }

  // ----- The result -----

  /** Every result is a date strictly after `now`'s date; for "y" and for
      "d n" with n >= 1 it is also strictly after the base, since at least
      one step is taken. A count of zero or less yields base + n, which is
      not after the base. */
  lemma ResultAfterNowAndBase(now: Instant, date: string, repeat: string)
    requires ValidInstant(now) && Resolve(now, date, repeat).Next?
    ensures ParseDate(date).Some?
    ensures var s := Resolve(now, date, repeat).date;
      exists c :: ValidDate(c) && s == FormatDate(c) && After(c, now.date) &&
        (After(c, ParseDate(date).value) <==>
          (Split(repeat)[0] == "y" || Atoi(Split(repeat)[1]).value >= 1))
  {
    ParseFormatDate(now.date);
    var base := ParseDate(date).value;
    var rep := Split(repeat);
    if rep[0] == "y" {
      var c := YearlyFrom(base, base.month, base.day, now.date);
      assert After(c, base);
    } else {
      var n := Atoi(rep[1]).value;
      DayNumberAddDays(base, n);
      BeforeIffSmallerDayNumber(base, Daily(base, n, now.date).value);
    }
  }

  /** Only the calendar date of `now` matters, never its time of day. */
  lemma TimeOfDayIgnored(d: Civil, s1: int, s2: int, date: string, repeat: string)
    requires ValidInstant(Instant(d, s1)) && ValidInstant(Instant(d, s2))
    ensures Resolve(Instant(d, s1), date, repeat) == Resolve(Instant(d, s2), date, repeat)
  {
    ParseFormatDate(d);
    if 0 <= d.year <= 9999 && repeat != "" && ParseDate(date).Some? {
      var rep := Split(repeat);
      if rep[0] == "d" && |rep| >= 2 && Atoi(rep[1]).Some? {
        var base, n := ParseDate(date).value, Atoi(rep[1]).value;
        assert Resolve(Instant(d, s1), date, repeat) == Resolve(Instant(d, s2), date, repeat) by {
          if n <= 400 {
            assert Daily(base, n, Instant(d, s1).date) == Daily(base, n, Instant(d, s2).date);
          }
        }
      }
    }
  }
}
