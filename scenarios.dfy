/** Worked examples of the resolver on concrete dates and rules. */
module Scenarios {
  import opened Calendar
  import opened Decimal
  import opened Tokens
  import opened DateText
  import opened Recurrence

  lemma Spelled2024()
    ensures FormatDate(Civil(2024, 1, 1)) == "20240101"
    ensures FormatDate(Civil(2024, 1, 10)) == "20240110"
    ensures FormatDate(Civil(2024, 1, 15)) == "20240115"
  {
    assert DecimalDigits(2024) == "2024";
    assert Padded(2024, 4) == "2024" && Padded(1, 2) == "01";
  }

  lemma WeeklyRule()
    ensures Split("d 7") == ["d", "7"] && Atoi("7") == Some(7)
  {
    assert "d" + " " + "7" == "d 7";
    SplitAfterFirstSpace("d", "7");
    SplitNoSpace("7");
    AtoiItoa(7);
    assert Itoa(7) == "7";
  }

  /** "d 7" from January 1, 2024, on January 10: the occurrences are
      January 8 and 15, and the first one after the 10th is the 15th. */
  lemma EveryWeekFromNewYear()
    ensures Resolve(Instant(Civil(2024, 1, 10), 0), "20240101", "d 7") == Next("20240115")
  {
    var base, today := Civil(2024, 1, 1), Civil(2024, 1, 10);
    Spelled2024();
    ParseFormatDate(base);
    ParseFormatDate(today);
    WeeklyRule();
    WeeklySteps();
  }

  /** The two steps of seven days: January 8 is not after the 10th,
      January 15 is. */
  lemma WeeklySteps()
    ensures Daily(Civil(2024, 1, 1), 7, Civil(2024, 1, 10)) == Some(Civil(2024, 1, 15))
  {
    var today := Civil(2024, 1, 10);
    AddDaysWithinMonth(2024, 1, 1, 7);
    AddDaysWithinMonth(2024, 1, 8, 7);
    assert DailyFrom(Civil(2024, 1, 8), 7, today) == Civil(2024, 1, 15);
  }

  lemma SpelledLeapDay()
    ensures FormatDate(Civil(2024, 2, 29)) == "20240229"
  {
    assert DecimalDigits(2024) == "2024";
  }

  lemma SpelledMarch2025()
    ensures FormatDate(Civil(2025, 3, 1)) == "20250301"
  {
    assert DecimalDigits(2025) == "2025";
  }

  lemma SpelledMarch2026()
    ensures FormatDate(Civil(2026, 3, 1)) == "20260301"
  {
    assert DecimalDigits(2026) == "2026";
  }

  /** "y" from February 29, 2024, on March 1, 2025: the 2025 anniversary
      folds to March 1, which is not after March 1 (the comparison is
      strict), so the answer is March 1, 2026. */
  lemma LeapDayOnItsFoldedAnniversary()
    ensures Resolve(Instant(Civil(2025, 3, 1), 0), "20240229", "y") == Next("20260301")
  {
    var base, today := Civil(2024, 2, 29), Civil(2025, 3, 1);
    SpelledLeapDay();
    SpelledMarch2025();
    SpelledMarch2026();
    ParseFormatDate(base);
    ParseFormatDate(today);
    SplitNoSpace("y");
    LeapDayYearlySteps();
  }

  /** The yearly steps of that example: 2025-03-01, not after today, then
      2026-03-01. */
  lemma LeapDayYearlySteps()
    ensures YearlyFrom(Civil(2024, 2, 29), 2, 29, Civil(2025, 3, 1)) == Civil(2026, 3, 1)
  {
    var today := Civil(2025, 3, 1);
    assert AddYear(Civil(2024, 2, 29)) == today;
    assert YearlyFrom(today, 2, 29, today) == Civil(2026, 3, 1);
  }

  lemma SpelledJune()
    ensures FormatDate(Civil(2024, 6, 1)) == "20240601"
  {
    assert DecimalDigits(2024) == "2024";
  }

  /** Base and today of the rule-error examples below: January 1 and
      June 1, 2024, both readable. */
  lemma JuneExample()
    ensures ParseDate("20240101") == Some(Civil(2024, 1, 1))
    ensures ParseDate(FormatDate(Civil(2024, 6, 1))) == Some(Civil(2024, 6, 1))
  {
    Spelled2024();
    SpelledJune();
    ParseFormatDate(Civil(2024, 1, 1));
    ParseFormatDate(Civil(2024, 6, 1));
  }

  lemma RuleD401()
    ensures Split("d 401") == ["d", "401"] && Atoi("401") == Some(401)
  {
    assert "d" + " " + "401" == "d 401";
    SplitAfterFirstSpace("d", "401");
    SplitNoSpace("401");
    AtoiItoa(401);
    assert Itoa(401) == "401";
  }

  /** A count over 400 days is refused. */
  lemma CountOverLimit()
    ensures Resolve(Instant(Civil(2024, 6, 1), 0), "20240101", "d 401") == Failed(CountTooLarge)
  {
    JuneExample();
    RuleD401();
  }

  lemma NoRule()
    ensures Resolve(Instant(Civil(2024, 6, 1), 0), "20240101", "") == Failed(MissingRule)
  {
    JuneExample();
  }

  lemma RuleW1()
    ensures Split("w 1") == ["w", "1"]
  {
    assert "w" + " " + "1" == "w 1";
    SplitAfterFirstSpace("w", "1");
    SplitNoSpace("1");
  }

  /** A weekly class "w" is not supported. */
  lemma WeeklyClassUnknown()
    ensures Resolve(Instant(Civil(2024, 6, 1), 0), "20240101", "w 1") == Failed(InvalidRule)
  {
    JuneExample();
    RuleW1();
    assert "w" != "y" && "w" != "d";
  }

  lemma RuleDAbc()
    ensures Split("d abc") == ["d", "abc"] && Atoi("abc") == None
  {
    assert "d" + " " + "abc" == "d abc";
    SplitAfterFirstSpace("d", "abc");
    SplitNoSpace("abc");
    AtoiRejectsNonDigit("abc", 0);
  }

  /** A count that is not a number fails in Atoi. */
  lemma CountNotANumber()
    ensures Resolve(Instant(Civil(2024, 6, 1), 0), "20240101", "d abc") == Failed(BadCount)
  {
    JuneExample();
    RuleDAbc();
  }

  lemma RuleDMinus1()
    ensures Split("d -1") == ["d", "-1"] && Atoi("-1") == Some(-1)
  {
    assert "d" + " " + "-1" == "d -1";
    SplitAfterFirstSpace("d", "-1");
    SplitNoSpace("-1");
    AtoiItoa(-1);
    assert Itoa(-1) == "-1";
  }

  /** A negative count whose first step lands before today: the source's
      loop steps backwards and does not return before the 64-bit
      wrap-around. */
  lemma BackwardsNeverReturns()
    ensures Resolve(Instant(Civil(2024, 6, 1), 0), "20240101", "d -1") == NeverReturns
  {
    JuneExample();
    RuleDMinus1();
    assert AddDays(Civil(2024, 1, 1), -1) == Civil(2023, 12, 31);
  }
}
