/**
 * The canonical `YYYY-MM-DD` key of a date (formatDateKey): the year as
 * JavaScript's String prints it, then month and day zero-padded to two
 * digits. A parser for the same format shows that the key loses nothing.
 */
module DateKey {
  import opened Wrappers
  import opened Calendar

  predicate IsDigit(c: char) {
    '0' <= c <= '9'
  }

  predicate AllDigits(s: string) {
    forall i :: 0 <= i < |s| ==> IsDigit(s[i])
  }

  function DigitChar(v: int): (c: char)
    requires 0 <= v < 10
    ensures IsDigit(c) && c as int - '0' as int == v
  {
    ('0' as int + v) as char
  }

  function DigitValue(c: char): (v: int)
    requires IsDigit(c)
    ensures 0 <= v < 10 && DigitChar(v) == c
  {
    c as int - '0' as int
  }

  /** Decimal digits of n without leading zeros, as String(n) prints a non-negative integer. */
  function NatToDecimal(n: nat): (s: string)
    ensures 1 <= |s| && AllDigits(s)
    ensures |s| == 1 || s[0] != '0'
    decreases n
  {
    if n < 10 then [DigitChar(n)] else NatToDecimal(n / 10) + [DigitChar(n % 10)]
  }

  /** String(n) for an integer n: a minus sign before the digits of -n when n is negative. */
  function IntToDecimal(n: int): string {
    if n < 0 then "-" + NatToDecimal(-n) else NatToDecimal(n)
  }

  /** The value of a string of decimal digits. */
  function ParseDigits(s: string): nat
    requires AllDigits(s)
  {
    if s == [] then 0 else ParseDigits(s[..|s| - 1]) * 10 + DigitValue(s[|s| - 1])
  }

  /** Reads an optionally signed decimal integer. */
  function ParseInt(s: string): Option<int> {
    if |s| >= 2 && s[0] == '-' && AllDigits(s[1..]) then Some(0 - ParseDigits(s[1..]))
    else if |s| >= 1 && AllDigits(s) then Some(ParseDigits(s))
    else None
  }

  /** String.prototype.padStart(2, "0"): zeros on the left up to length two. */
  function PadStart2(s: string): (r: string)
    ensures |r| == if |s| < 2 then 2 else |s|
    ensures r[|r| - |s|..] == s
    ensures forall i :: 0 <= i < |r| - |s| ==> r[i] == '0'
  {
    if |s| == 0 then "00" else if |s| == 1 then "0" + s else s
  }

  /** formatDateKey: `<year>-<MM>-<DD>`. */
  function FormatDateKey(d: Date): string
    requires ValidDate(d)
  {
    IntToDecimal(d.year) + "-" + PadStart2(NatToDecimal(d.month)) + "-" + PadStart2(NatToDecimal(d.day))
  }

  /** Two decimal digits as one number. */
  function TwoDigits(a: char, b: char): int
    requires IsDigit(a) && IsDigit(b)
  {
    10 * DigitValue(a) + DigitValue(b)
  }

  /** Reads a date key back: a signed year, then `-MM-DD`; None when it is not a valid date's key. */
  function ParseDateKey(k: string): Option<Date> {
    if |k| < 7 then None
    else
      var n := |k| - 6;
      if k[n] != '-' || k[n + 3] != '-'
         || !IsDigit(k[n + 1]) || !IsDigit(k[n + 2]) || !IsDigit(k[n + 4]) || !IsDigit(k[n + 5])
      then None
      else match ParseInt(k[..n])
        case None => None
        case Some(y) =>
          var d := Date(y, TwoDigits(k[n + 1], k[n + 2]), TwoDigits(k[n + 4], k[n + 5]));
          if ValidDate(d) then Some(d) else None
  }

  // ---------------------------------------------------------------------------

  /** Reading the digits of n gives n back. */
  lemma {:induction false} ParseNatToDecimal(n: nat)
    ensures ParseDigits(NatToDecimal(n)) == n
    decreases n
  {
    var s := NatToDecimal(n);
    if n >= 10 {
      ParseNatToDecimal(n / 10);
      assert s[..|s| - 1] == NatToDecimal(n / 10);
    }
  }

  /** Reading String(n) gives n back, for negative n too. */
  lemma ParseIntToDecimal(n: int)
    ensures ParseInt(IntToDecimal(n)) == Some(n)
  {
    if n < 0 {
      var m: nat := -n;
      var digits := NatToDecimal(m);
      assert IntToDecimal(n) == "-" + digits;
      ParseNatToDecimal(m);
      ParseNegative(digits);
      assert n == 0 - ParseDigits(digits);
    } else {
      var digits := NatToDecimal(n);
      assert IntToDecimal(n) == digits;
      ParseNatToDecimal(n);
      ParseNonNegative(digits);
    }
  }

  /** A minus sign before a run of digits reads as the negated value of the digits. */
  lemma ParseNegative(digits: string)
    requires 1 <= |digits| && AllDigits(digits)
    ensures ParseInt("-" + digits) == Some(0 - ParseDigits(digits))
  {
    var s := "-" + digits;
    assert s[1..] == digits;
  }

  /** A run of digits reads as its value. */
  lemma ParseNonNegative(s: string)
    requires 1 <= |s| && AllDigits(s)
    ensures ParseInt(s) == Some(ParseDigits(s))
  {
    assert IsDigit(s[0]);
  }

  /** A month or day number (1..99) is printed as exactly two digits, zero-padded. */
  lemma PaddedTwoDigits(v: int)
    requires 1 <= v < 100
    ensures PadStart2(NatToDecimal(v)) == [DigitChar(v / 10), DigitChar(v % 10)]
  {
    if v >= 10 {
      assert NatToDecimal(v / 10) == [DigitChar(v / 10)];
    }
  }

  /**
   * The key of a date is its year as String prints it, a dash, the month
   * zero-padded to two digits, a dash and the day zero-padded to two digits.
   */
  lemma DateKeyShape(d: Date)
    requires ValidDate(d)
    ensures var k, n := FormatDateKey(d), |IntToDecimal(d.year)|;
      && |k| == n + 6
      && k[..n] == IntToDecimal(d.year)
      && k[n] == '-' && k[n + 3] == '-'
      && k[n + 1] == DigitChar(d.month / 10) && k[n + 2] == DigitChar(d.month % 10)
      && k[n + 4] == DigitChar(d.day / 10) && k[n + 5] == DigitChar(d.day % 10)
  {
    PaddedTwoDigits(d.month);
    PaddedTwoDigits(d.day);
    KeyLayout(IntToDecimal(d.year), DigitChar(d.month / 10), DigitChar(d.month % 10),
              DigitChar(d.day / 10), DigitChar(d.day % 10));
  }

  /** Where the parts of year + "-" + two characters + "-" + two characters land. */
  lemma KeyLayout(y: string, m1: char, m2: char, d1: char, d2: char)
    ensures var k, n := y + "-" + [m1, m2] + "-" + [d1, d2], |y|;
      && |k| == n + 6 && k[..n] == y
      && k[n] == '-' && k[n + 1] == m1 && k[n + 2] == m2
      && k[n + 3] == '-' && k[n + 4] == d1 && k[n + 5] == d2
  {
    var k := y + "-" + [m1, m2] + "-" + [d1, d2];
    assert k == y + ['-', m1, m2, '-', d1, d2];
  }

  /** A four-digit year gives a key of the form YYYY-MM-DD: ten characters, digits but at 4 and 7. */
  lemma FourDigitYearKey(d: Date)
    requires ValidDate(d) && 1000 <= d.year <= 9999
    ensures var k := FormatDateKey(d);
      && |k| == 10 && k[4] == '-' && k[7] == '-'
      && forall i :: 0 <= i < 10 && i != 4 && i != 7 ==> IsDigit(k[i])
  {
    DateKeyShape(d);
    FourDigits(d.year);
    var k, y := FormatDateKey(d), NatToDecimal(d.year);
    assert k[..4] == y;
    assert k == y + k[4..];
    forall i | 0 <= i < 10 && i != 4 && i != 7
      ensures IsDigit(k[i])
    {
      if i < 4 {
        assert k[i] == y[i];
      }
    }
  }

  /** Numbers from 1000 to 9999 have four decimal digits. */
  lemma FourDigits(n: nat)
    requires 1000 <= n <= 9999
    ensures |NatToDecimal(n)| == 4
  {
    assert |NatToDecimal(n / 1000)| == 1;
    assert |NatToDecimal(n / 100)| == 2 by { assert n / 100 / 10 == n / 1000; }
    assert |NatToDecimal(n / 10)| == 3 by { assert n / 10 / 10 == n / 100; }
  }

  /** The parser splits a year, a two-digit month and a two-digit day apart again. */
  lemma ParseKeyParts(ys: string, d: Date)
    requires ValidDate(d) && ParseInt(ys) == Some(d.year)
    ensures ParseDateKey(ys + "-" + [DigitChar(d.month / 10), DigitChar(d.month % 10)]
                            + "-" + [DigitChar(d.day / 10), DigitChar(d.day % 10)]) == Some(d)
  {
    var k := ys + "-" + [DigitChar(d.month / 10), DigitChar(d.month % 10)]
                + "-" + [DigitChar(d.day / 10), DigitChar(d.day % 10)];
    assert k[..|ys|] == ys;
  }

  /** Parsing the key of a date gives the date back. */
  lemma DateKeyRoundTrip(d: Date)
    requires ValidDate(d)
    ensures ParseDateKey(FormatDateKey(d)) == Some(d)
  {
    PaddedTwoDigits(d.month);
    PaddedTwoDigits(d.day);
    ParseIntToDecimal(d.year);
    ParseKeyParts(IntToDecimal(d.year), d);
  }

  /** Distinct dates have distinct keys, so one override key belongs to one date. */
  lemma DateKeyInjective(a: Date, b: Date)
    requires ValidDate(a) && ValidDate(b)
    ensures FormatDateKey(a) == FormatDateKey(b) <==> a == b
  {
    DateKeyRoundTrip(a);
    DateKeyRoundTrip(b);
  }
}
