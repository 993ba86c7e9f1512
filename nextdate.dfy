/** The recurrence resolver `NextDate` of internal/nextdate.go: given a
    reference instant, a base date in `YYYYMMDD` form and a rule ("y" or
    "d <n>"), the next occurrence after the reference date. */
module Recurrence {
  import opened Calendar
  import opened Decimal
  import opened Tokens
  import opened DateText

  /** A moment: a calendar date and the second of that day. */
  datatype Instant = Instant(date: Civil, second: int)

  predicate ValidInstant(t: Instant) {
    ValidDate(t.date) && 0 <= t.second < 86400
  }

  /** The resolver's error classes, in the order the source checks them. */
  datatype RuleError =
    | UnreadableNow    // `now` does not survive formatting as `YYYYMMDD`
    | MissingRule      // empty rule
    | MalformedBase    // the base date is not a `YYYYMMDD` date
    | MalformedMode    // "d" without a count
    | BadCount         // the count is not a 64-bit decimal integer
    | CountTooLarge    // a count over 400
    | InvalidRule      // a first token other than "y" or "d"

  /** Outcome of one call. `NeverReturns` is a "d" rule whose count is zero
      or negative and whose first step does not pass `now`: the source's
      loop then stays put, or steps backwards until Go's 64-bit day and
      second arithmetic wraps around, and returns no date before that. */
  datatype Resolution = Next(date: string) | Failed(error: RuleError) | NeverReturns

  /** `s` is the `YYYYMMDD` form of some date after `day`. */
  ghost predicate DateTextAfter(s: string, day: Civil) {
    exists c :: ValidDate(c) && s == FormatDate(c) && After(c, day)
  }

  /** The yearly loop of the source, from `cur` on, for a base whose month
      and day were `om` and `od`: add a year; if the month or day no longer
      match, go to March 1 of that year; stop once after `now`. */
  function YearlyFrom(cur: Civil, om: int, od: int, now: Civil): (r: Civil)
    requires ValidDate(cur)
    ensures ValidDate(r) && After(r, now) && r.year > cur.year
    decreases now.year - cur.year
  {
    var stepped := AddYear(cur);
    var cand := if stepped.day == od && stepped.month == om then stepped else Civil(stepped.year, 3, 1);
    if After(cand, now) then cand else YearlyFrom(cand, om, od, now)
  }

  /** The every-n-days loop of the source for n >= 1. */
  function DailyFrom(cur: Civil, n: int, now: Civil): (r: Civil)
    requires ValidDate(cur) && ValidDate(now) && n >= 1
    ensures ValidDate(r) && After(r, now) && DayNumber(r) > DayNumber(cur)
    decreases DayNumber(now) - DayNumber(cur)
  {
    var next := AddDays(cur, n);
    DayNumberAddDays(cur, n);
    BeforeIffSmallerDayNumber(now, next);
    if After(next, now) then next else DailyFrom(next, n, now)
  }

  /** The every-n-days rule for any count the source accepts: the first
      step-point after `now`, which lies after the base exactly when the
      count is positive (a count of zero or less steps back from the base,
      or stays on it). None when the loop does not return before the 64-bit
      wrap-around, which only a count of zero or less can do. */
  function Daily(base: Civil, n: int, now: Civil): (r: Option<Civil>)
    requires ValidDate(base) && ValidDate(now)
    ensures r.Some? ==> ValidDate(r.value) && After(r.value, now)
    ensures r.Some? ==> (After(r.value, base) <==> n >= 1)
    ensures r.None? <==> n < 1 && !After(AddDays(base, n), now)
  {
    DayNumberAddDays(base, n);
    if n >= 1 then
      var r := DailyFrom(base, n, now);
      BeforeIffSmallerDayNumber(base, r);
      Some(r)
    else
      var r := AddDays(base, n);
      BeforeIffSmallerDayNumber(base, r);
      if After(r, now) then Some(r) else None
  }

  /** `NextDate(now, date, repeat)` of internal/nextdate.go as a function.
      Whatever date it returns is the `YYYYMMDD` form of a date after the
      day of `now`; it fails on `now` only when `now`'s year has no
      four-digit form. */
  function Resolve(now: Instant, date: string, repeat: string): (r: Resolution)
    requires ValidInstant(now)
    ensures r.Next? ==> DateTextAfter(r.date, now.date)
    ensures r == Failed(UnreadableNow) <==> !(0 <= now.date.year <= 9999)
    ensures 0 <= now.date.year <= 9999 && repeat == "" ==> r == Failed(MissingRule)
  {
    ParseFormatDate(now.date);
    match ParseDate(FormatDate(now.date))
    case None => Failed(UnreadableNow)
    case Some(today) =>
      if repeat == "" then Failed(MissingRule)
      else
        var rep := Split(repeat);
        match ParseDate(date)
        case None => Failed(MalformedBase)
        case Some(base) =>
          if rep[0] == "y" then Next(FormatDate(YearlyFrom(base, base.month, base.day, today)))
          else if rep[0] == "d" then
            if |rep| < 2 then Failed(MalformedMode)
            else match Atoi(rep[1])
              case None => Failed(BadCount)
              case Some(n) =>
                if n > 400 then Failed(CountTooLarge)
                else match Daily(base, n, today)
                  case Some(r) => Next(FormatDate(r))
                  case None => NeverReturns
          else Failed(InvalidRule)
  }

  /** The resolver, step by step as the source runs it. */
  method NextDate(now: Instant, date: string, repeat: string) returns (r: Resolution)
    requires ValidInstant(now)
    ensures r == Resolve(now, date, repeat)
    ensures r.Next? ==> DateTextAfter(r.date, now.date)
  {
    var nowParsed := ParseDate(FormatDate(now.date));
    if nowParsed.None? {
      return Failed(UnreadableNow);
    }
    ParseFormatDate(now.date);
    var today := nowParsed.value;
    if repeat == "" {
      return Failed(MissingRule);
    }
    var rep := Split(repeat);
    var parsed := ParseDate(date);
    if parsed.None? {
      return Failed(MalformedBase);
    }
    var base := parsed.value;
    var cur := base;
    if rep[0] == "y" {
      var origDay, origMonth := cur.day, cur.month;
      while true
        invariant ValidDate(cur)
        invariant YearlyFrom(cur, origMonth, origDay, today) == YearlyFrom(base, origMonth, origDay, today)
        decreases today.year - cur.year
      {
        cur := AddYear(cur);
        if cur.day == origDay && cur.month == origMonth {
          if After(cur, today) {
            break;
          }
        } else {
          cur := Civil(cur.year, 3, 1);
          if After(cur, today) {
            break;
          }
        }
      }
      return Next(FormatDate(cur));
    }
    if rep[0] == "d" {
      if |rep| < 2 {
        return Failed(MalformedMode);
      }
      var count := Atoi(rep[1]);
      if count.None? {
        return Failed(BadCount);
      }
      var days := count.value;
      if days > 400 {
        return Failed(CountTooLarge);
      }
      if days < 1 {
        cur := AddDays(cur, days);
        if After(cur, today) {
          return Next(FormatDate(cur));
        }
        // every further step stays at or before this date (NonPositiveCountNeverPasses)
        return NeverReturns;
      }
      while true
        invariant ValidDate(cur)
        invariant DailyFrom(cur, days, today) == DailyFrom(base, days, today)
        decreases DayNumber(today) - DayNumber(cur)
      {
        DayNumberAddDays(cur, days);
        BeforeIffSmallerDayNumber(today, AddDays(cur, days));
        cur := AddDays(cur, days);
        if After(cur, today) {
          break;
        }
      }
      return Next(FormatDate(cur));
    }
    return Failed(InvalidRule);
  }
}
