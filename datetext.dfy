/** The two date layouts the scheduler reads and writes: Go's layout
    "20060102" (`YYYYMMDD`, the ISO 8601 basic calendar date) and the
    search box's "02.01.2006" (`DD.MM.YYYY`). */
module DateText {
  import opened Calendar
  import opened Decimal

  /** `t.Format("20060102")`: the year zero-padded to at least four digits
      (a year past 9999 prints in full, a negative one with a minus sign),
      then two-digit month and day. Only a four-digit year gives the eight
      characters the layout reads back (`ParseFormatDate`). */
  function FormatDate(c: Civil): (r: string)
    requires ValidDate(c)
    ensures 0 <= c.year <= 9999 ==> |r| == 8
    ensures c.year > 9999 ==> |r| > 8
    ensures c.year < 0 ==> |r| > 8 && r[0] == '-'
  {
    var year := if c.year >= 0 then Padded(c.year, 4) else "-" + Padded(-c.year, 4);
    PaddedValue(c.month, 2);
    PaddedValue(c.day, 2);
    if 0 <= c.year <= 9999 then PaddedValue(c.year, 4); year + Padded(c.month, 2) + Padded(c.day, 2)
    else if c.year > 9999 then DecimalDigitsLong(c.year, 4); year + Padded(c.month, 2) + Padded(c.day, 2)
    else year + Padded(c.month, 2) + Padded(c.day, 2)
  }

  /** `time.Parse("20060102", s)`: exactly eight digits forming a real date. */
  function ParseDate(s: string): (r: Option<Civil>)
    ensures r.Some? ==> ValidDate(r.value) && 0 <= r.value.year <= 9999
  {
    if |s| != 8 || !AllDigits(s) then None
    else
      var y, m, d := DigitsValue(s[..4]), DigitsValue(s[4..6]), DigitsValue(s[6..]);
      DigitsValueBound(s[..4]);
      if 1 <= m <= 12 && 1 <= d <= DaysIn(m, y) then Some(Civil(y, m, d)) else None
  }

  /** `time.Parse("02.01.2006", s)`: two-digit day, a dot, two-digit month,
      a dot, four-digit year, forming a real date. It reads exactly as
      `ParseDate` reads the same digits in `YYYYMMDD` order. */
  function ParseDotted(s: string): (r: Option<Civil>)
    ensures r.Some? ==> ValidDate(r.value) && 0 <= r.value.year <= 9999
    ensures !(|s| == 10 && s[2] == '.' && s[5] == '.') ==> r.None?
    ensures |s| == 10 && s[2] == '.' && s[5] == '.' ==> r == ParseDate(s[6..] + s[3..5] + s[..2])
  {
    if |s| != 10 || s[2] != '.' || s[5] != '.' then None
    else
      DigitsReordered(s);
      if !AllDigits(s[..2]) || !AllDigits(s[3..5]) || !AllDigits(s[6..]) then None
      else
        var d, m, y := DigitsValue(s[..2]), DigitsValue(s[3..5]), DigitsValue(s[6..]);
        DigitsValueBound(s[6..]);
        if 1 <= m <= 12 && 1 <= d <= DaysIn(m, y) then Some(Civil(y, m, d)) else None
  }

  /** The three digit fields of a `DD.MM.YYYY` text, put in `YYYYMMDD`
      order, are the three fields `ParseDate` reads. */
  lemma DigitsReordered(s: string)
    requires |s| == 10
    ensures var t := s[6..] + s[3..5] + s[..2];
      |t| == 8 && t[..4] == s[6..] && t[4..6] == s[3..5] && t[6..] == s[..2] &&
      (AllDigits(t) <==> AllDigits(s[..2]) && AllDigits(s[3..5]) && AllDigits(s[6..]))
  {
    var t := s[6..] + s[3..5] + s[..2];
    assert t[..4] == s[6..];
    assert t[4..6] == s[3..5];
    assert t[6..] == s[..2];
    if AllDigits(t) {
      assert forall i :: 0 <= i < 4 ==> s[6..][i] == t[i];
      assert forall i :: 0 <= i < 2 ==> s[3..5][i] == t[4 + i];
      assert forall i :: 0 <= i < 2 ==> s[..2][i] == t[6 + i];
    }
  }

  /** `isDate` in handlers/handlers.go: the text reads as a `DD.MM.YYYY`
      date, that is, it has the two dots in place and its digits reordered
      as `YYYYMMDD` form a readable date. */
  function IsDottedDate(s: string): (b: bool)
    ensures b <==> |s| == 10 && s[2] == '.' && s[5] == '.' && ParseDate(s[6..] + s[3..5] + s[..2]).Some?
  {
    ParseDotted(s).Some?
  }

  /** `convertToDate` in handlers/handlers.go: a `DD.MM.YYYY` date becomes
      the same digits reordered as `YYYYMMDD`, which read as the same date;
      the parse error is ignored, so any other text becomes Go's zero time,
      0001-01-01. */
  function ConvertToDate(s: string): (r: string)
    ensures IsDottedDate(s) ==> r == s[6..] + s[3..5] + s[..2] && ParseDate(r) == ParseDotted(s)
    ensures !IsDottedDate(s) ==> r == "00010101"
  {
    match ParseDotted(s)
    case Some(c) =>
      ReorderedFormat(s);
      FormatDate(c)
    case None =>
      assert Padded(1, 4) == "0001";
      FormatDate(Civil(1, 1, 1))
  }

  lemma SplitDate(c: Civil)
    requires ValidDate(c) && 0 <= c.year <= 9999
    ensures var s := FormatDate(c);
      |s| == 8 && AllDigits(s) &&
      s[..4] == Padded(c.year, 4) && s[4..6] == Padded(c.month, 2) && s[6..] == Padded(c.day, 2)
  {
    PaddedValue(c.year, 4);
    PaddedValue(c.month, 2);
    PaddedValue(c.day, 2);
  }

  /** Formatting then parsing gives the date back exactly when its year has
      four digits; any other year makes the text unreadable. */
  lemma ParseFormatDate(c: Civil)
    requires ValidDate(c)
    ensures ParseDate(FormatDate(c)) == if 0 <= c.year <= 9999 then Some(c) else None
  {
    var s := FormatDate(c);
    if 0 <= c.year <= 9999 {
      SplitDate(c);
      PaddedValue(c.year, 4);
      PaddedValue(c.month, 2);
      PaddedValue(c.day, 2);
    } else if c.year > 9999 {
      DecimalDigitsLong(c.year, 4);
      PaddedValue(c.month, 2);
      PaddedValue(c.day, 2);
    } else {
      assert s[0] == '-';
    }
  }

  /** A readable date string is the formatting of what it reads as. */
  lemma FormatParseDate(s: string)
    requires ParseDate(s).Some?
    ensures FormatDate(ParseDate(s).value) == s
  {
    var c := ParseDate(s).value;
    PaddedDigitsValue(s[..4]);
    PaddedDigitsValue(s[4..6]);
    PaddedDigitsValue(s[6..]);
    assert s == s[..4] + s[4..6] + s[6..];
  }

  /** The date a `DD.MM.YYYY` text reads as formats to its digits in
      `YYYYMMDD` order. */
  lemma ReorderedFormat(s: string)
    requires ParseDotted(s).Some?
    ensures FormatDate(ParseDotted(s).value) == s[6..] + s[3..5] + s[..2]
  {
    FormatParseDate(s[6..] + s[3..5] + s[..2]);
  }
}
