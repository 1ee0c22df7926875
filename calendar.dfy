/**
 * The proleptic Gregorian calendar as Python's datetime and pandas use it:
 * dates as (year, month, day) triples, the day number of a date, the UTC
 * instant of its midnight (seconds since 1970-01-01T00:00Z), and the
 * rendering of a date as the text str(year) + "-MM-DD".
 */
module Calendar {
  import opened Wrappers

  datatype Date = Date(year: int, month: int, day: int)

  /** A UTC instant, in whole seconds since 1970-01-01T00:00Z. */
  type Instant = int

  const SECONDS_PER_DAY := 86400

  predicate IsLeapYear(y: int) {
    y % 4 == 0 && (y % 100 != 0 || y % 400 == 0)
  }

  function DaysInMonth(y: int, m: int): (n: int)
    requires 1 <= m <= 12
    ensures 28 <= n <= 31
  {
    if m == 2 then (if IsLeapYear(y) then 29 else 28)
    else if m == 4 || m == 6 || m == 9 || m == 11 then 30
    else 31
  }

  function DaysInYear(y: int): int {
    if IsLeapYear(y) then 366 else 365
  }

  predicate ValidDate(d: Date) {
    1 <= d.month <= 12 && 1 <= d.day <= DaysInMonth(d.year, d.month)
  }

  /** Lexicographic order on triples, which is the calendar order. */
  predicate DateLe(a: Date, b: Date) {
    a.year < b.year
    || (a.year == b.year && (a.month < b.month || (a.month == b.month && a.day <= b.day)))
  }

  /** The day that follows d. */
  function NextDay(d: Date): (e: Date)
    requires ValidDate(d)
    ensures ValidDate(e) && DateLe(d, e) && d != e
  {
    if d.day < DaysInMonth(d.year, d.month) then Date(d.year, d.month, d.day + 1)
    else if d.month < 12 then Date(d.year, d.month + 1, 1)
    else Date(d.year + 1, 1, 1)
  }

  /** Days from 0001-01-01 to the first day of year y (negative before year 1). */
  function DaysBeforeYear(y: int): int {
    365 * (y - 1) + (y - 1) / 4 - (y - 1) / 100 + (y - 1) / 400
  }

  /** Days from the first of the year to the first of month m. */
  function DaysBeforeMonth(y: int, m: int): int
    requires 1 <= m <= 12
  {
    [0, 31, 59, 90, 120, 151, 181, 212, 243, 273, 304, 334][m - 1]
    + (if m > 2 && IsLeapYear(y) then 1 else 0)
  }

  /** Days since 0001-01-01 (day 0). */
  function DayNumber(d: Date): int
    requires ValidDate(d)
  {
    DaysBeforeYear(d.year) + DaysBeforeMonth(d.year, d.month) + d.day - 1
  }

  const EPOCH := Date(1970, 1, 1)

  /** The UTC instant of 00:00 on date d; this is how pandas reads 'YYYY-MM-DD' in a UTC column. */
  function Midnight(d: Date): (t: Instant)
    requires ValidDate(d)
    ensures t % SECONDS_PER_DAY == 0
  {
    var days := DayNumber(d) - DayNumber(EPOCH);
    WholeDays(days);
    days * SECONDS_PER_DAY
  }

  lemma WholeDays(days: int)
    ensures (days * SECONDS_PER_DAY) % SECONDS_PER_DAY == 0
  {
  }

  lemma EpochIsZero()
    ensures Midnight(EPOCH) == 0
  {
  }

  /** Stepping the dividend by one bumps the quotient by 4, 100 or 400 exactly at its multiples. */
  lemma QuotientStep(y: int, k: int)
    requires k == 4 || k == 100 || k == 400
    ensures y / k - (y - 1) / k == (if y % k == 0 then 1 else 0)
  {
    if k == 4 {
      assert y / 4 - (y - 1) / 4 == (if y % 4 == 0 then 1 else 0);
    } else if k == 100 {
      assert y / 100 - (y - 1) / 100 == (if y % 100 == 0 then 1 else 0);
    } else {
      assert y / 400 - (y - 1) / 400 == (if y % 400 == 0 then 1 else 0);
    }
  }

  lemma DivisibilityChain(y: int)
    ensures y % 400 == 0 ==> y % 100 == 0
    ensures y % 100 == 0 ==> y % 4 == 0
  {
    if y % 400 == 0 {
      var t := y / 400;
      assert y == 100 * (4 * t);
    }
    if y % 100 == 0 {
      var t := y / 100;
      assert y == 4 * (25 * t);
    }
  }

  lemma {:induction false} YearLength(y: int)
    ensures DaysBeforeYear(y + 1) == DaysBeforeYear(y) + DaysInYear(y)
  {
    var a, b, c := y / 4 - (y - 1) / 4, y / 100 - (y - 1) / 100, y / 400 - (y - 1) / 400;
    QuotientStep(y, 4);
    QuotientStep(y, 100);
    QuotientStep(y, 400);
    DivisibilityChain(y);
    assert DaysBeforeYear(y + 1) - DaysBeforeYear(y) == 365 + a - b + c;
    assert a - b + c == (if IsLeapYear(y) then 1 else 0);
  }

  lemma DayWithinYear(d: Date)
    requires ValidDate(d)
    ensures 0 <= DayNumber(d) - DaysBeforeYear(d.year) < DaysInYear(d.year)
  {
  }

  /** Consecutive calendar days are consecutive day numbers, across month and year ends. */
  lemma {:induction false} NextDayNumber(d: Date)
    requires ValidDate(d)
    ensures DayNumber(NextDay(d)) == DayNumber(d) + 1
    ensures Midnight(NextDay(d)) == Midnight(d) + SECONDS_PER_DAY
  {
    if d.day == DaysInMonth(d.year, d.month) && d.month == 12 {
      YearLength(d.year);
    }
  }

  lemma {:induction false} YearsIncrease(a: int, b: int)
    requires a < b
    ensures DaysBeforeYear(a) + DaysInYear(a) <= DaysBeforeYear(b)
    decreases b - a
  {
    YearLength(a);
    if a + 1 < b {
      YearsIncrease(a + 1, b);
    }
  }

  /** Day numbers follow the calendar order, in both directions. */
  lemma {:induction false} DayNumberOrder(a: Date, b: Date)
    requires ValidDate(a) && ValidDate(b)
    ensures DateLe(a, b) <==> DayNumber(a) <= DayNumber(b)
    ensures a == b <==> DayNumber(a) == DayNumber(b)
  {
    DayWithinYear(a);
    DayWithinYear(b);
    if a.year < b.year {
      YearsIncrease(a.year, b.year);
    } else if b.year < a.year {
      YearsIncrease(b.year, a.year);
    }
  }

  /** Midnights of valid dates follow the calendar order, in both directions. */
  lemma MidnightOrder(a: Date, b: Date)
    requires ValidDate(a) && ValidDate(b)
    ensures DateLe(a, b) <==> Midnight(a) <= Midnight(b)
  {
    DayNumberOrder(a, b);
  }

  // ---------------------------------------------------------------------------
  // Text rendering: Python's str(int) and f'{year}-MM-DD'.

  function DigitChar(n: int): char
    requires 0 <= n < 10
  {
    "0123456789"[n]
  }

  predicate IsDigit(c: char) {
    '0' <= c <= '9'
  }

  function DigitValue(c: char): int
    requires IsDigit(c)
  {
    c as int - '0' as int
  }

  lemma DigitRoundTrip(n: int)
    requires 0 <= n < 10
    ensures IsDigit(DigitChar(n)) && DigitValue(DigitChar(n)) == n
  {
  }

  /** Decimal digits of n, without leading zeros, as str(n) prints them. */
  function NatToString(n: nat): (s: string)
    ensures |s| >= 1 && forall i :: 0 <= i < |s| ==> IsDigit(s[i])
  {
    if n < 10 then [DigitChar(n)] else NatToString(n / 10) + [DigitChar(n % 10)]
  }

  /** Python's str(n) for an int. */
  function IntToString(n: int): (s: string)
    ensures |s| >= 1
    ensures n < 0 <==> s[0] == '-'
    ensures n >= 0 ==> forall i :: 0 <= i < |s| ==> IsDigit(s[i])
  {
    if n < 0 then "-" + NatToString(-n) else NatToString(n)
  }

  /** The value of a string of decimal digits. */
  function DigitsValue(s: string): nat
    requires forall i :: 0 <= i < |s| ==> IsDigit(s[i])
  {
    if s == [] then 0 else DigitsValue(s[..|s| - 1]) * 10 + DigitValue(s[|s| - 1])
  }

  lemma {:induction false} NatToStringRoundTrip(n: nat)
    ensures DigitsValue(NatToString(n)) == n
  {
    var s := NatToString(n);
    if n >= 10 {
      NatToStringRoundTrip(n / 10);
      assert s[..|s| - 1] == NatToString(n / 10);
    }
  }

  /** str(n) has exactly four characters for four-digit numbers. */
  lemma FourDigits(n: nat)
    requires 1000 <= n <= 9999
    ensures |NatToString(n)| == 4
  {
    var a := n / 10;
    var b := a / 10;
    var c := b / 10;
    assert 100 <= a <= 999 && 10 <= b <= 99 && 1 <= c <= 9;
    assert |NatToString(c)| == 1;
    assert |NatToString(b)| == 2;
    assert |NatToString(a)| == 3;
  }

  /** Two-digit zero-padded rendering of a month or a day. */
  function Pad2(n: int): (s: string)
    requires 0 <= n < 100
    ensures |s| == 2 && IsDigit(s[0]) && IsDigit(s[1])
  {
    [DigitChar(n / 10), DigitChar(n % 10)]
  }

  lemma Pad2RoundTrip(n: int)
    requires 0 <= n < 100
    ensures DigitsValue(Pad2(n)) == n
  {
    var s := Pad2(n);
    DigitRoundTrip(n / 10);
    DigitRoundTrip(n % 10);
    var hi := [DigitChar(n / 10)];
    assert s[..1] == hi && hi[..0] == [];
    assert DigitsValue(hi) == n / 10 by {
      assert DigitsValue(hi) == DigitsValue(hi[..0]) * 10 + DigitValue(hi[0]);
    }
    assert DigitsValue(s) == DigitsValue(hi) * 10 + DigitValue(s[1]);
    assert n == n / 10 * 10 + n % 10;
  }

  /** f'{year}-MM-DD' with the month and day written as two digits. */
  function FormatDate(d: Date): (s: string)
    requires ValidDate(d)
    ensures |s| == |IntToString(d.year)| + 6
    ensures s[..|s| - 6] == IntToString(d.year) && s[|s| - 6] == '-' && s[|s| - 3] == '-'
    ensures forall i :: |s| - 6 < i < |s| && i != |s| - 3 ==> IsDigit(s[i])
    ensures DigitValue(s[|s| - 5]) * 10 + DigitValue(s[|s| - 4]) == d.month
    ensures DigitValue(s[|s| - 2]) * 10 + DigitValue(s[|s| - 1]) == d.day
  {
    DigitRoundTrip(d.month / 10);
    DigitRoundTrip(d.month % 10);
    DigitRoundTrip(d.day / 10);
    DigitRoundTrip(d.day % 10);
    IntToString(d.year) + "-" + Pad2(d.month) + "-" + Pad2(d.day)
  }

  /** Text in the shape YYYY-MM-DD: four digits, a dash, two digits, a dash, two digits. */
  predicate IsIsoShape(s: string) {
    |s| == 10 && s[4] == '-' && s[7] == '-'
    && forall i :: 0 <= i < 10 && i != 4 && i != 7 ==> IsDigit(s[i])
  }

  /** Reads a YYYY-MM-DD string as a calendar date; None when malformed or not a real date. */
  function ParseIsoDate(s: string): (r: Option<Date>)
    ensures r.Some? ==> IsIsoShape(s) && ValidDate(r.value)
  {
    if !IsIsoShape(s) then None
    else
      var d := Date(DigitsValue(s[0..4]), DigitsValue(s[5..7]), DigitsValue(s[8..10]));
      if ValidDate(d) then Some(d) else None
  }

  /** For four-digit years the rendering is YYYY-MM-DD and reads back as the same date. */
  lemma FormatDateRoundTrip(d: Date)
    requires ValidDate(d) && 1000 <= d.year <= 9999
    ensures IsIsoShape(FormatDate(d))
    ensures ParseIsoDate(FormatDate(d)) == Some(d)
  {
    var y := NatToString(d.year);
    FourDigits(d.year);
    NatToStringRoundTrip(d.year);
    var s := FormatDate(d);
    assert s == y + "-" + Pad2(d.month) + "-" + Pad2(d.day);
    assert s[0..4] == y;
    assert s[5..7] == Pad2(d.month);
    assert s[8..10] == Pad2(d.day);
    Pad2RoundTrip(d.month);
    Pad2RoundTrip(d.day);
  }

  /** From four digits up, str(n) has at least four characters. */
  lemma {:induction false} AtLeastFourDigits(n: nat)
    requires n >= 1000
    ensures |NatToString(n)| >= 4
  {
    if n >= 10000 {
      AtLeastFourDigits(n / 10);
    } else {
      FourDigits(n);
    }
  }

  /** Years outside 1000..9999 do not render in the YYYY-MM-DD shape. */
  lemma NonFourDigitYearNotIso(d: Date)
    requires ValidDate(d) && (d.year < 1000 || d.year > 9999)
    ensures !IsIsoShape(FormatDate(d))
  {
    var s := FormatDate(d);
    if d.year < 0 {
      assert s[0] == '-';
    } else if d.year > 9999 {
      var n: nat := d.year;
      AtLeastFourDigits(n / 10);
      assert |NatToString(n)| >= 5;
    } else {
      var n: nat := d.year;
      if n >= 100 {
        var a := n / 10;
        var b := a / 10;
        assert 10 <= a <= 99 && 1 <= b <= 9;
        assert |NatToString(b)| == 1;
        assert |NatToString(a)| == 2;
      } else if n >= 10 {
        assert |NatToString(n / 10)| == 1;
      }
      assert |NatToString(n)| < 4;
    }
  }
}
