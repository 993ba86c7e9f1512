/** Decimal digit strings and Go's `strconv.Atoi`. */
module Decimal {

  predicate IsDigit(ch: char) {
    '0' <= ch <= '9'
  }

  predicate AllDigits(s: string) {
    forall i :: 0 <= i < |s| ==> IsDigit(s[i])
  }

  function DigitValue(ch: char): nat
    requires IsDigit(ch)
  {
    (ch - '0') as nat
  }

  function DigitChar(d: nat): (ch: char)
    requires d < 10
    ensures IsDigit(ch) && DigitValue(ch) == d
  {
    ('0' as int + d) as char
  }

  /** The number a string of digits denotes, read most significant first;
      leading zeros are allowed. */
  function DigitsValue(s: string): nat
    requires AllDigits(s)
  {
    if s == [] then 0 else DigitsValue(s[..|s| - 1]) * 10 + DigitValue(s[|s| - 1])
  }

  /** The shortest decimal spelling of n ("0" for zero). */
  function DecimalDigits(n: nat): (s: string)
    ensures AllDigits(s) && |s| >= 1
  {
    if n < 10 then [DigitChar(n)] else DecimalDigits(n / 10) + [DigitChar(n % 10)]
  }

  function Zeros(k: nat): (s: string)
    ensures |s| == k && AllDigits(s)
    ensures forall i :: 0 <= i < k ==> s[i] == '0'
  {
    if k == 0 then "" else Zeros(k - 1) + "0"
  }

  /** n in decimal, left-padded with zeros to at least `width` characters,
      as Go's time formatting pads a year to four digits. */
  function Padded(n: nat, width: nat): (s: string)
    ensures AllDigits(s) && |s| >= width
  {
    var digits := DecimalDigits(n);
    if |digits| < width then Zeros(width - |digits|) + digits else digits
  }

  function Pow10(k: nat): nat {
    if k == 0 then 1 else 10 * Pow10(k - 1)
  }

  lemma {:induction false} DigitsValueAppend(s: string, ch: char)
    requires AllDigits(s) && IsDigit(ch)
    ensures AllDigits(s + [ch]) && DigitsValue(s + [ch]) == DigitsValue(s) * 10 + DigitValue(ch)
  {
    assert (s + [ch])[..|s|] == s;
  }

  lemma {:induction false} DigitsValueBound(s: string)
    requires AllDigits(s)
    ensures DigitsValue(s) < Pow10(|s|)
  {
    if s != [] {
      DigitsValueBound(s[..|s| - 1]);
    }
  }

  lemma {:induction false} ZerosValue(k: nat)
    ensures DigitsValue(Zeros(k)) == 0
  {
    if k > 0 {
      ZerosValue(k - 1);
      DigitsValueAppend(Zeros(k - 1), '0');
    }
  }

  /** Leading zeros do not change the value. */
  lemma {:induction false} ZerosPrefixValue(k: nat, s: string)
    requires AllDigits(s)
    ensures AllDigits(Zeros(k) + s) && DigitsValue(Zeros(k) + s) == DigitsValue(s)
    decreases |s|
  {
    if s == [] {
      assert Zeros(k) + s == Zeros(k);
      ZerosValue(k);
    } else {
      var init, last := s[..|s| - 1], s[|s| - 1];
      assert s == init + [last];
      assert Zeros(k) + s == (Zeros(k) + init) + [last];
      ZerosPrefixValue(k, init);
      DigitsValueAppend(Zeros(k) + init, last);
    }
  }

  /** Reading back the decimal spelling gives the number. */
  lemma {:induction false} DecimalDigitsValue(n: nat)
    ensures DigitsValue(DecimalDigits(n)) == n
  {
    if n >= 10 {
      DecimalDigitsValue(n / 10);
      DigitsValueAppend(DecimalDigits(n / 10), DigitChar(n % 10));
    }
  }

  lemma {:induction false} DecimalDigitsLength(n: nat, k: nat)
    requires n < Pow10(k) && k >= 1
    ensures |DecimalDigits(n)| <= k
  {
    if n >= 10 {
      DecimalDigitsLength(n / 10, k - 1);
    }
  }

  lemma {:induction false} DecimalDigitsLong(n: nat, k: nat)
    requires n >= Pow10(k)
    ensures |DecimalDigits(n)| > k
  {
    if k > 0 {
      DecimalDigitsLong(n / 10, k - 1);
    }
  }

  /** A number below 10^width reads back from its padded spelling, which
      is exactly `width` digits long. */
  lemma PaddedValue(n: nat, width: nat)
    requires n < Pow10(width) && width >= 1
    ensures |Padded(n, width)| == width && DigitsValue(Padded(n, width)) == n
  {
    var digits := DecimalDigits(n);
    DecimalDigitsLength(n, width);
    DecimalDigitsValue(n);
    if |digits| < width {
      ZerosPrefixValue(width - |digits|, digits);
      assert Padded(n, width) == Zeros(width - |digits|) + digits;
    } else {
      assert Padded(n, width) == digits;
    }
  }

  lemma {:induction false} ZeroValueIsZeros(s: string)
    requires AllDigits(s) && DigitsValue(s) == 0
    ensures s == Zeros(|s|)
  {
    if s != [] {
      ZeroValueIsZeros(s[..|s| - 1]);
      assert s == s[..|s| - 1] + [s[|s| - 1]];
    }
  }

  /** Spelling out the value of a digit string, padded to its length,
      gives the string back: `Padded` and `DigitsValue` are inverse on
      fixed-width fields. */
  lemma {:induction false} PaddedDigitsValue(s: string)
    requires AllDigits(s) && |s| >= 1
    ensures Padded(DigitsValue(s), |s|) == s
  {
    var init, last := s[..|s| - 1], s[|s| - 1];
    assert s == init + [last];
    var v := DigitsValue(s);
    if DigitsValue(init) == 0 {
      ZeroValueIsZeros(init);
      assert v == DigitValue(last);
      assert DecimalDigits(v) == [last];
    } else {
      assert v >= 10;
      assert v / 10 == DigitsValue(init) && v % 10 == DigitValue(last);
      PaddedDigitsValue(init);
      DigitsValueBound(init);
      DecimalDigitsLength(DigitsValue(init), |init|);
      assert DecimalDigits(v) == DecimalDigits(DigitsValue(init)) + [last];
      var z := |init| - |DecimalDigits(DigitsValue(init))|;
      if z > 0 {
        assert Padded(v, |s|) == Zeros(z) + DecimalDigits(v);
        assert init == Zeros(z) + DecimalDigits(DigitsValue(init));
      }
    }
  }

  const MinInt64: int := -0x8000_0000_0000_0000
  const MaxInt64: int := 0x7fff_ffff_ffff_ffff

  /** Go's `strconv.Atoi` on a 64-bit platform (also `strconv.ParseInt(s,
      10, 64)`): an optional sign, then one or more decimal digits, with a
      value that fits in 64 bits. None stands for its syntax and range
      errors alike. */
  function Atoi(s: string): (r: Option<int>)
    ensures r.Some? ==> MinInt64 <= r.value <= MaxInt64
  {
    if s == [] then None
    else
      var signed := s[0] == '+' || s[0] == '-';
      var body := if signed then s[1..] else s;
      if body == [] || !AllDigits(body) then None
      else
        var v: int := if s[0] == '-' then 0 - DigitsValue(body) as int else DigitsValue(body);
        if v < MinInt64 || v > MaxInt64 then None else Some(v)
  }

  /** The decimal spelling Go's `strconv.Itoa` gives. */
  function Itoa(n: int): string {
    if n < 0 then "-" + DecimalDigits(-n) else DecimalDigits(n)
  }

  /** Atoi reads back every 64-bit integer's decimal spelling. */
  lemma AtoiItoa(n: int)
    requires MinInt64 <= n <= MaxInt64
    ensures Atoi(Itoa(n)) == Some(n)
  {
    var s := Itoa(n);
    if n < 0 {
      var body := DecimalDigits(-n);
      DecimalDigitsValue(-n);
      assert s[0] == '-' && s[1..] == body;
      assert 0 - DigitsValue(body) as int == n;
    } else {
      var body := DecimalDigits(n);
      DecimalDigitsValue(n);
      assert IsDigit(body[0]);
      assert s == body && DigitsValue(body) == n;
    }
  }

  /** Atoi accepts only signed digit strings: a string with a character
      that is neither a digit nor a leading sign is rejected. */
  lemma AtoiRejectsNonDigit(s: string, i: int)
    requires 0 <= i < |s| && !IsDigit(s[i])
    requires i > 0 || (s[0] != '+' && s[0] != '-')
    ensures Atoi(s) == None
  {
    if s[0] == '+' || s[0] == '-' {
      assert s[1..][i - 1] == s[i];
    }
  }

  datatype Option<T> = None | Some(value: T)
}

/** Go's `strings.Split(s, " ")`: cut at every single space. */
module Tokens {

  function Split(s: string): (parts: seq<string>)
    ensures |parts| >= 1
  {
    if s == [] then [""]
    else
      var rest := Split(s[1..]);
      if s[0] == ' ' then [""] + rest
      else [[s[0]] + rest[0]] + rest[1..]
  }

  /** Go's `strings.Join(parts, " ")`. */
  function Join(parts: seq<string>): string
    requires |parts| >= 1
  {
    if |parts| == 1 then parts[0] else parts[0] + " " + Join(parts[1..])
  }

  /** Joining the pieces with single spaces restores the string ... */
  lemma {:induction false} JoinSplit(s: string)
    ensures Join(Split(s)) == s
  {
    if s != [] {
      JoinSplit(s[1..]);
      var rest := Split(s[1..]);
      if s[0] != ' ' {
        if |rest| > 1 {
          assert rest == [rest[0]] + rest[1..];
          assert Join(rest) == rest[0] + " " + Join(rest[1..]);
        }
      }
    }
  }

  /** ... and no piece contains a space, so the split is the only one. */
  lemma {:induction false} SplitPiecesHaveNoSpace(s: string)
    ensures forall i :: 0 <= i < |Split(s)| ==> ' ' !in Split(s)[i]
  {
    if s != [] {
      SplitPiecesHaveNoSpace(s[1..]);
    }
  }

  /** A string without spaces is a single piece. */
  lemma {:induction false} SplitNoSpace(a: string)
    requires ' ' !in a
    ensures Split(a) == [a]
  {
    if a != [] {
      assert ' ' !in a[1..] by {
        forall i | 0 <= i < |a[1..]| ensures a[1..][i] != ' ' {
          assert a[1..][i] == a[i + 1];
        }
      }
      SplitNoSpace(a[1..]);
      assert [a[0]] + a[1..] == a;
    }
  }

  /** A space-free head followed by a space splits off as the first piece. */
  lemma {:induction false} SplitAfterFirstSpace(a: string, b: string)
    requires ' ' !in a
    ensures Split(a + " " + b) == [a] + Split(b)
  {
    if a == [] {
      assert a + " " + b == [' '] + b;
      assert (a + " " + b)[1..] == b;
    } else {
      assert (a + " " + b)[1..] == a[1..] + " " + b;
      assert ' ' !in a[1..] by {
        forall i | 0 <= i < |a[1..]| ensures a[1..][i] != ' ' {
          assert a[1..][i] == a[i + 1];
        }
      }
      SplitAfterFirstSpace(a[1..], b);
      assert [a[0]] + a[1..] == a;
    }
  }
}
