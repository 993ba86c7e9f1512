# Task scheduler: recurrence resolver and date-deciding handlers

A Dafny model of the scheduling core of a small Go to-do service
(go_final_project). Its centre is `NextDate(now, date, repeat)` in
`internal/nextdate.go`. Given a reference instant, a base date written `YYYYMMDD` and a
repetition rule, it returns the next occurrence after the reference
date. There are two rule classes:

- `y` is a yearly anniversary. A February 29 base folds to March 1 and stays there.
- `d <n>` adds n days at a time, with n at most 400.

The model also covers the HTTP handlers in `handlers/handlers.go` that
decide dates with it:

- `NextDateHandler` reads `now` as `YYYYMMDD` and answers with the resolver's result.
- Create and update normalise a task's date. An empty date means today. A past date becomes today for a one-shot task and the next occurrence for a recurring one.
- Completion deletes a one-shot task and moves a recurring one to its next occurrence.
- The list handler turns a `DD.MM.YYYY` search into a date query.

Files:

- `calendar.dfy` (`Calendar`) models proleptic Gregorian dates.
  - It covers Go's `AddDate(0, 0, n)` (`AddDays`) and `AddDate(1, 0, 0)` (`AddYear`, through Go's own normalisation of `Date(y+1, m, d)`).
  - A closed-form day number is proved to agree with both.
  - Calendar order and day-number order are proved to coincide.
- `text.dfy` (`Decimal`, `Tokens`) models digit strings, zero padding, `strconv.Atoi` on 64-bit integers, and `strings.Split(s, " ")`.
- `datetext.dfy` (`DateText`) models the layouts `20060102` and `02.01.2006`. `isDate` and `convertToDate` live here, with their round trips.
- `nextdate.dfy` (`Recurrence`) holds two forms of the resolver:
  - `Resolve`, a function: the reference definition.
  - `NextDate`, a method with the source's two loops, proved equal to `Resolve`.
- `nextdate_laws.dfy` (`RecurrenceLaws`) holds what the resolver promises:
  - the order of its error checks;
  - the rule grammar;
  - the anniversary and leap-day behaviour of `y`;
  - for `d n`, the "first multiple after now" characterisation and its exact step count;
  - the case where the loop does not return before the 64-bit wrap-around;
  - that every result is after `now`.
- `handlers.dfy` (`Handlers`) models `NextDateHandler`, the date normalisation, the search classification, and a `TaskStore` class.
  - The class's row map and last id stand for the SQLite table.
  - Its methods are create, update and complete.
- `scenarios.dfy` (`Scenarios`) holds worked examples on concrete strings.

`now` is a parameter (an `Instant`: a date plus the second of the day),
never a clock reading.

Behaviour of the code worth knowing:

- **Base `20240229`, rule `y`, now `20250301`** gives `20260301`, not `20250301`. The 2025 anniversary folds to March 1, and the comparison with now is strict (`After`). See `Scenarios.LeapDayOnItsFoldedAnniversary`.
- **`d n` takes ⌊(now − base)/n⌋ + 1 steps**, and one step when the base is already after now. This is one more than max(1, ⌈(now − base)/n⌉) exactly when the gap is a positive multiple of n. See `RecurrenceLaws.DailyIsFirstStepAfterNow`.
- **Rule `d abc`** returns `strconv.Atoi`'s own error (`BadCount` here), not the malformed-mode error. See `Scenarios.CountNotANumber`.
- **Results lie after the base** only for `y` and for counts ≥ 1. A count of zero or less yields base + n, which is not after the base. See `RecurrenceLaws.ResultAfterNowAndBase`.

## Model

| member | source | states |
|---|---|---|
| Recurrence.YearlyFrom | internal/nextdate.go:33-56 | the yearly loop ends on a valid date strictly after today and in a later year than where it started |
| Recurrence.DailyFrom | internal/nextdate.go:72-77 | the n-day loop (n ≥ 1) ends on a valid date strictly after today and strictly later than where it started |
| Recurrence.Daily | internal/nextdate.go:58-78 | the `d n` outcome is a valid date after today, and after the base exactly when n ≥ 1; there is none (the loop does not return before Go's 64-bit wrap-around) exactly when n ≤ 0 and the first step is not after today |
| Recurrence.Resolve | internal/nextdate.go:10-82 | any date returned is the `YYYYMMDD` form of a date after `now`'s day; `now` is rejected exactly when its year has no four-digit form; an empty rule is then rejected |
| Recurrence.NextDate | internal/nextdate.go:10-82 | running the source's checks and loops gives exactly `Resolve`; any date returned is the `YYYYMMDD` form of a date strictly after `now`'s date |
| RecurrenceLaws.UnreadableNowFirst | internal/nextdate.go:12-16 | the format-and-reparse of `now` fails exactly when its year is outside 0..9999, and that error comes before every other |
| RecurrenceLaws.TodayIsNowsDate | internal/nextdate.go:12-13 | for a readable `now`, the reparsed reference is `now`'s calendar date (the time of day is dropped) |
| RecurrenceLaws.TimeOfDayIgnored | internal/nextdate.go:12-13 | two instants on the same day give the same outcome |
| RecurrenceLaws.EmptyRuleRejected | internal/nextdate.go:18-20 | an empty rule is rejected whatever the base date, even a malformed one |
| RecurrenceLaws.MalformedBaseBeforeRuleClass | internal/nextdate.go:28-31 | an unreadable base date is reported before the rule class is examined |
| RecurrenceLaws.InvalidRuleIffUnknownClass | internal/nextdate.go:58-81 | with a readable base, the rule is invalid if and only if its first token is neither `y` nor `d` |
| RecurrenceLaws.SameLeadingTokens | internal/nextdate.go:22-66 | two non-empty rules with the same first token and the same second token (or no second token in either) give the same outcome |
| RecurrenceLaws.SameCountSameResolution | internal/nextdate.go:58-78 | two `d` rules with the same count give the same outcome |
| RecurrenceLaws.YearlyIgnoresExtraTokens | internal/nextdate.go:22-33 | tokens after `y` do not change the outcome |
| RecurrenceLaws.DailyIgnoresExtraTokens | internal/nextdate.go:58-66 | tokens after the count of a `d` rule do not change the outcome |
| RecurrenceLaws.DailyWithoutCount | internal/nextdate.go:58-61 | `d` without a count is a malformed mode |
| RecurrenceLaws.DailyBadCount | internal/nextdate.go:63-66 | a count that `Atoi` rejects is reported as a bad count |
| RecurrenceLaws.CountLimit | internal/nextdate.go:68-70 | a `d` rule is refused as too large if and only if its count exceeds 400 |
| RecurrenceLaws.YearlyAnniversary | internal/nextdate.go:35-46 | for a base other than February 29, `y` gives the same month and day in the first later year where that date is after today, and no earlier year's anniversary is after today |
| RecurrenceLaws.StickyMarchFirst | internal/nextdate.go:40-54 | once on March 1 with a February 29 origin, every step stays on March 1, ending at the first March 1 after today |
| RecurrenceLaws.LeapDayBase | internal/nextdate.go:40-54 | a February 29 base resolves to March 1 of the first later year whose March 1 is after today; February 29 is never produced |
| RecurrenceLaws.LeapDaySkipsLaterLeapDay | internal/nextdate.go:40-54 | from 2020-02-29 with today 2023-12-31 the answer is 2024-03-01, although 2024-02-29 exists |
| RecurrenceLaws.DailyPointDayNumber | internal/nextdate.go:73 | the j-th point of a `d n` series is j·n days after the base, and it is after today if and only if j·n exceeds the gap in days |
| RecurrenceLaws.DailyPointShift | internal/nextdate.go:72-77 | one step of n days followed by j more steps is the series' (j+1)-th point |
| RecurrenceLaws.DailyFromIsSomePoint | internal/nextdate.go:72-77 | the loop stops at some point k ≥ 1 of the series, and no earlier point is after today |
| RecurrenceLaws.LeastStepCount | internal/nextdate.go:72-77 | the least k ≥ 1 with k·n greater than the gap is 1 for a negative gap and gap / n + 1 otherwise |
| RecurrenceLaws.DailyIsFirstStepAfterNow | internal/nextdate.go:72-77 | for n ≥ 1 the result is base + k·n days with k = `DailySteps`, the first point of the series after today |
| RecurrenceLaws.NonPositiveCountNeverPasses | internal/nextdate.go:72-77 | with a count ≤ 0, if the first step is not after today then no later step is |
| RecurrenceLaws.NeverReturnsIff | internal/nextdate.go:58-78 | the source's loop does not return before Go's 64-bit wrap-around exactly for a `d` rule with a count ≤ 0 whose first step is not after today |
| RecurrenceLaws.ResultAfterNowAndBase | internal/nextdate.go:33-78 | every returned date is after today; it is after the base exactly for `y` and for counts ≥ 1 |
| Calendar.DayNumberAddDays | internal/nextdate.go:73 | adding n days moves the day number by exactly n |
| Calendar.AddDaysIsUnique | internal/nextdate.go:73 | the date whose day number is n later is the one `AddDays` reaches, so stepping agrees with Go's day-count normalisation |
| Calendar.AddDaysAdditive | internal/nextdate.go:72-77 | adding a days and then b days is adding a + b days, for any signs of a and b |
| Calendar.AddDays | internal/nextdate.go:73 | `AddDate(0, 0, n)` always gives a valid date; with `DayNumberAddDays` and `AddDaysIsUnique` it is the date n days on |
| Calendar.Normalize | internal/nextdate.go:40 | Go's normalisation of `Date(y, m, d)` gives a valid date with the same day number as the overflowing one, and leaves an in-range day alone |
| Calendar.AddYear | internal/nextdate.go:40 | `AddDate(1, 0, 0)` gives a valid date in the next year with the same month and day, except that February 29 followed by a common year becomes March 1 |
| Calendar.BeforeIffSmallerDayNumber | internal/nextdate.go:44-50 | `Before`/`After` on dates is the order of their day numbers |
| Decimal.Atoi | internal/nextdate.go:63 | an accepted count lies in the 64-bit range |
| Decimal.AtoiItoa | internal/nextdate.go:63 | `Atoi` reads back the decimal spelling of every 64-bit integer |
| Decimal.AtoiRejectsNonDigit | internal/nextdate.go:63 | a character other than a digit or a leading sign makes `Atoi` fail |
| Tokens.Split | internal/nextdate.go:22-26 | the split always has at least one piece, so the source's `len(rep) < 1` branch cannot be taken |
| Tokens.JoinSplit | internal/nextdate.go:22 | joining the pieces with single spaces gives the rule back |
| Tokens.SplitPiecesHaveNoSpace | internal/nextdate.go:22 | no piece contains a space |
| Tokens.SplitNoSpace | internal/nextdate.go:22 | a rule without spaces is a single piece |
| Tokens.SplitAfterFirstSpace | internal/nextdate.go:22 | a space-free head followed by a space is the first piece, and the rest splits on its own |
| DateText.FormatDate | internal/nextdate.go:78 | the `20060102` layout is exactly eight characters for a four-digit year, longer for a later year, and starts with a minus sign for a negative one |
| DateText.ParseDotted | handlers/handlers.go:14 | a parsed `DD.MM.YYYY` date is a real date with a four-digit year; anything without dots at positions 2 and 5 is rejected; otherwise it reads exactly as `ParseDate` reads its digits reordered as `YYYYMMDD` |
| DateText.IsDottedDate | handlers/handlers.go:13-16 | `isDate` holds exactly when the text has its two dots in place and its digits reordered as `YYYYMMDD` form a readable date |
| DateText.ConvertToDate | handlers/handlers.go:18-21 | a `DD.MM.YYYY` date converts to its digits reordered as `YYYYMMDD`, which read as the same date; any other text converts to `00010101`, Go's zero time |
| DateText.ParseDate | internal/nextdate.go:28-31 | a parsed `YYYYMMDD` date is a real calendar date with a four-digit year |
| DateText.ParseFormatDate | internal/nextdate.go:12-13 | formatting then parsing gives the date back exactly when its year has four digits, and fails otherwise |
| DateText.FormatParseDate | handlers/handlers.go:93-101 | a readable `YYYYMMDD` string is the formatting of the date it reads as |
| Handlers.NextDateRequest | handlers/handlers.go:23-42 | an unreadable `now` is refused, and only then; the resolver never rejects a `now` read this way; an answer is the `YYYYMMDD` form of a date after that day |
| Handlers.MidnightBefore | handlers/handlers.go:102 | `parsedDate.Before(now)` compares the date's midnight with `now` as instants, in seconds from a common epoch |
| Handlers.NormalizeDate | handlers/handlers.go:90-116 | whatever create or update stores is the `YYYYMMDD` form of today or a later date; the bad-date error arises exactly for a non-empty text that is not `YYYYMMDD` |
| Handlers.NormalizeTaskDate | handlers/handlers.go:86-116 | the handlers' in-place rewriting of the date gives `NormalizeDate`, and never an empty date |
| Handlers.NormalizeDateCases | handlers/handlers.go:90-116 | empty means today; unreadable is an error; today or later is kept; earlier becomes today (one-shot) or the next occurrence (recurring), errors included |
| Handlers.Classify | handlers/handlers.go:297-305 | no text lists everything; a `DD.MM.YYYY` text is a date query on the same date; any other text is a text search on itself |
| Handlers.TaskStore.AddTask | handlers/handlers.go:118 | the new row is stored under a fresh id, one past the last, and nothing else changes |
| Handlers.TaskStore.CreateTask | handlers/handlers.go:68-129 | a missing title or a failed normalisation stores nothing; otherwise exactly one new row with the normalised date |
| Handlers.TaskStore.UpdateRow | handlers/handlers.go:188 | the row whose id has the text's integer value is replaced; otherwise not found and nothing changes |
| Handlers.TaskStore.UpdateTask | handlers/handlers.go:131-198 | missing id, then missing title, then normalisation errors, then not found; on success only that row changes, to the normalised date |
| Handlers.TaskStore.CompleteTask | handlers/handlers.go:247-288 | missing or malformed id and unknown rows are errors; a one-shot task is deleted; a recurring one keeps everything but its date, which moves to a date after today |
| Scenarios.EveryWeekFromNewYear | internal/nextdate.go:58-78 | `d 7` from 20240101 with today 20240110 gives 20240115 |
| Scenarios.LeapDayOnItsFoldedAnniversary | internal/nextdate.go:33-55 | `y` from 20240229 with today 20250301 gives 20260301 |
| Scenarios.CountOverLimit | internal/nextdate.go:68-70 | `d 401` is refused as too large |
| Scenarios.NoRule | internal/nextdate.go:18-20 | an empty rule is refused |
| Scenarios.WeeklyClassUnknown | internal/nextdate.go:81 | `w 1` is an invalid rule |
| Scenarios.CountNotANumber | internal/nextdate.go:63-66 | `d abc` fails in `Atoi` |
| Scenarios.BackwardsNeverReturns | internal/nextdate.go:72-77 | `d -1` from 20240101 with today 20240601 does not return before the 64-bit wrap-around |

## Left out

- HTTP plumbing is not modelled: JSON decoding and encoding, status codes, headers, the Russian error texts, and `TaskHandler`'s dispatch on the method. Errors are the `TaskError` and `RuleError` values.
- `time.Now()` and time zones are not modelled. `now` is a parameter holding a date and a second of that day. The clock, location offsets, and Go's nanoseconds are left out.
- `handleGetTask`, `handleDeleteTask` and `GetTaskByIDHandler` are not modelled. They do not decide dates. They only parse an id and call the store.
- Handlers.NextDateRequest: the HTTP side of `NextDateHandler` is left out: reading the query parameters, the 400 answers and writing the body. The error texts become `TaskError` values.
- The store queries behind `GetTasksHandler` are not modelled. db/db.go is not part of this model: its queries and the SQLite file are missing, and so is the `nil` → `[]` replacement for the JSON response. `Handlers.Classify` stops at the query it would send.
- main.go (server start-up, static files) is not modelled.
- Store failures are not modelled. Database I/O errors (the 500 responses) cannot occur in the map model.
- Handlers.TaskStore.AddTask: the id is assumed to be one past the largest id ever handed out, so an id is never reused after a deletion. That is SQLite's `AUTOINCREMENT` key. A plain rowid key would reuse the largest id plus one after the top row is deleted. The table schema is not part of this model.
- Handlers.TaskStore.UpdateRow: the id text is matched by its `Atoi` value. Other numeric spellings that SQLite's numeric affinity would match to a row, such as `5.0` or `5e0`, are treated as not found. An id naming no row is assumed to be reported as not found.
- Recurrence.NextDate: a `d` rule with a count ≤ 0 whose first step is not after today makes the source loop without returning a date before today's. The model returns `NeverReturns` (`NoResponse` in the handlers) instead of running that loop.
- Recurrence.NextDate: Go's `time.Date`, behind `AddDate`, computes days and seconds in unchecked 64-bit integers, which wrap around about 292 billion years from now. The model's dates are unbounded, so that wrap-around is not modelled.
- Recurrence.Daily: `None` (the `NeverReturns` outcome) stands for two source behaviours. A count of 0 stays put forever. A negative count walks backwards until Go's 64-bit day and second arithmetic wraps around, after about 1.07·10^14/|n| steps, which is almost at once for a very large |n|. `After(now)` then ends the loop, and the source returns a meaningless far-future date. For the count -9223372036854775808, which `Atoi` accepts, each step is a no-op in the source (2^63·86400 is 0 modulo 2^64): a base after today comes back unchanged, where the model gives `None`.
- RecurrenceLaws.NeverReturnsIff: it characterises the model's `NeverReturns`, which is the source's loop not returning before the 64-bit wrap-around described under `Recurrence.Daily`, not a loop that runs forever in every case.
- Decimal.Atoi: it returns `None` for both of `strconv.Atoi`'s errors, the syntax error and the range error. The two differ only in their message.
- Handlers.TaskStore.CompleteTask: the source replaces every resolver error by one fixed message. The model keeps the error class, which the handler then discards.
