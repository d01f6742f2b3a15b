/**
 * The calendar's `formatDate`: `${year}-${MM}-${DD}`, where the year is
 * `String(year)` (no padding, a minus sign before negative years) and the
 * 1-based month and the day are padded to two digits with `padStart(2, "0")`.
 * `ParseDate` reads that shape back; the round trip shows that two dates are
 * equal exactly when their strings are, which is what lets the calendar test
 * membership in its date lists by string.
 */
module DateFormat {
  import opened Wrappers
  import opened CivilDate

  predicate IsDigit(c: char) {
    '0' <= c <= '9'
  }

  function DigitChar(n: nat): (c: char)
    requires n < 10
    ensures IsDigit(c)
  {
    ('0' as int + n) as char
  }

  function DigitValue(c: char): nat
    requires IsDigit(c)
  {
    c as int - '0' as int
  }

  /** `String(n)` for a non-negative integer: decimal, no leading zeros. */
  function Decimal(n: nat): (s: string)
    ensures |s| >= 1
    ensures forall i :: 0 <= i < |s| ==> IsDigit(s[i])
  {
    if n < 10 then [DigitChar(n)] else Decimal(n / 10) + [DigitChar(n % 10)]
  }

  /** The value of a string of decimal digits. */
  function DecimalValue(s: string): nat
    requires forall i :: 0 <= i < |s| ==> IsDigit(s[i])
  {
    if s == [] then 0 else DecimalValue(s[..|s| - 1]) * 10 + DigitValue(s[|s| - 1])
  }

  /** `String(n)` for any integer. */
  function IntToString(n: int): string {
    if n < 0 then "-" + Decimal(-n) else Decimal(n)
  }

  /** `String(n).padStart(2, "0")`. */
  function Pad2(n: nat): string {
    var s := Decimal(n);
    if |s| < 2 then "0" + s else s
  }

  function FormatDate(d: Date): string
    requires Valid(d)
  {
    IntToString(d.year) + "-" + Pad2(d.month) + "-" + Pad2(d.day)
  }

  predicate AllDigits(s: string) {
    forall i :: 0 <= i < |s| ==> IsDigit(s[i])
  }

  function ParseInt(s: string): Option<int> {
    if |s| >= 2 && s[0] == '-' && AllDigits(s[1..]) then Some(0 - DecimalValue(s[1..]) as int)
    else if |s| >= 1 && AllDigits(s) then Some(DecimalValue(s))
    else None
  }

  /** Reads `Y-MM-DD` back, `Y` being an optionally signed decimal. */
  function ParseDate(s: string): Option<Date> {
    if |s| < 7 || s[|s| - 6] != '-' || s[|s| - 3] != '-' then None
    else
      var mm := s[|s| - 5..|s| - 3];
      var dd := s[|s| - 2..];
      var y := ParseInt(s[..|s| - 6]);
      if y.None? || !AllDigits(mm) || !AllDigits(dd) then None
      else Some(Date(y.value, DecimalValue(mm), DecimalValue(dd)))
  }

  // ---------------------------------------------------------------------------
  // Lemmas

  /** Reading back the digits of `n` gives `n`. */
  lemma {:induction false} DecimalRoundTrip(n: nat)
    ensures DecimalValue(Decimal(n)) == n
  {
    if n >= 10 {
      DecimalRoundTrip(n / 10);
      var s := Decimal(n);
      assert s[..|s| - 1] == Decimal(n / 10);
    }
  }

  lemma IntToStringRoundTrip(n: int)
    ensures ParseInt(IntToString(n)) == Some(n)
  {
    if n < 0 {
      NegativeRoundTrip(-n);
    } else {
      DecimalRoundTrip(n);
      DigitsParse(Decimal(n));
    }
  }

  /** A string of digits is read as its value. */
  lemma DigitsParse(s: string)
    requires |s| >= 1 && AllDigits(s)
    ensures ParseInt(s) == Some(DecimalValue(s))
  {
    assert IsDigit(s[0]);
  }

  /** A minus sign before the digits of `k` is read as `-k`. */
  lemma NegativeRoundTrip(k: nat)
    requires k > 0
    ensures ParseInt("-" + Decimal(k)) == Some(-(k as int))
  {
    var d := Decimal(k);
    var s := "-" + d;
    assert s[1..] == d && s[0] == '-';
    DecimalRoundTrip(k);
  }

  /** A padded month or day of the month is exactly two digits and reads back as itself. */
  lemma Pad2RoundTrip(n: nat)
    requires 1 <= n <= 99
    ensures |Pad2(n)| == 2 && AllDigits(Pad2(n))
    ensures DecimalValue(Pad2(n)) == n
  {
    DecimalRoundTrip(n);
    var s := Decimal(n);
    if n < 10 {
      var p := "0" + s;
      assert p[..1] == "0";
    } else {
      assert Decimal(n / 10) == [DigitChar(n / 10)];
    }
  }

  /** Parsing a formatted date gives the date back. */
  lemma FormatParseRoundTrip(d: Date)
    requires Valid(d)
    ensures ParseDate(FormatDate(d)) == Some(d)
  {
    var y := IntToString(d.year);
    var s := FormatDate(d);
    Pad2RoundTrip(d.month);
    Pad2RoundTrip(d.day);
    IntToStringRoundTrip(d.year);
    assert |s| == |y| + 6;
    assert s[..|s| - 6] == y;
    assert s[|s| - 5..|s| - 3] == Pad2(d.month);
    assert s[|s| - 2..] == Pad2(d.day);
  }

  /** Two valid dates have the same string exactly when they are the same date. */
  lemma FormatDateInjective(a: Date, b: Date)
    requires Valid(a) && Valid(b)
    ensures FormatDate(a) == FormatDate(b) <==> a == b
  {
    if FormatDate(a) == FormatDate(b) {
      FormatParseRoundTrip(a);
      FormatParseRoundTrip(b);
    }
  }

  /** For years 1000..9999 the string is `YYYY-MM-DD`: ten characters, digits around two dashes. */
  lemma FormatDateShape(d: Date)
    requires Valid(d) && 1000 <= d.year <= 9999
    ensures var s := FormatDate(d);
      && |s| == 10 && s[4] == '-' && s[7] == '-'
      && forall i :: 0 <= i < 10 && i != 4 && i != 7 ==> IsDigit(s[i])
  {
    Pad2RoundTrip(d.month);
    Pad2RoundTrip(d.day);
    var n: nat := d.year;
    assert Decimal(n) == Decimal(n / 10) + [DigitChar(n % 10)];
    assert Decimal(n / 10) == Decimal(n / 100) + [DigitChar(n / 10 % 10)];
    assert Decimal(n / 100) == Decimal(n / 1000) + [DigitChar(n / 100 % 10)];
    assert |Decimal(n / 1000)| == 1;
  }
}
