/**
  The parts of Go's time package the two parsers depend on: the Gregorian
  calendar, the building blocks time.Parse uses to read a layout's fields
  (two-digit numbers, runs of spaces, literal characters, month
  abbreviations), and Time.IsZero.
 */
module GoTime {
  import opened Wrappers
  import opened Chars
  import opened Violations

  predicate IsLeapYear(year: int) {
    year % 4 == 0 && (year % 100 != 0 || year % 400 == 0)
  }

  function DaysIn(month: int, year: int): int
    requires 1 <= month <= 12
  {
    if month == 2 then (if IsLeapYear(year) then 29 else 28)
    else if month == 4 || month == 6 || month == 9 || month == 11 then 30
    else 31
  }

  function DigitValue(c: char): nat
    requires IsDigit(c)
  {
    c as int - '0' as int
  }

  predicate AllDigits(s: string) {
    forall k :: 0 <= k < |s| ==> IsDigit(s[k])
  }

  /** The decimal number a string of digits spells. */
  function Num(s: string): nat
    requires AllDigits(s)
    decreases |s|
  {
    if s == [] then 0 else 10 * Num(s[..|s| - 1]) + DigitValue(s[|s| - 1])
  }

  /** A number read from the front of a string, and what follows it. */
  datatype Scanned = Scanned(value: nat, rest: string)

  /** Go's getnum: one or two leading digits; with `fixed`, exactly two. */
  function GetNum(v: string, fixed: bool): (r: Option<Scanned>)
    ensures r.None? <==> |v| == 0 || !IsDigit(v[0]) || (fixed && (|v| == 1 || !IsDigit(v[1])))
    ensures r.Some? && (fixed || (|v| >= 2 && IsDigit(v[1]))) ==>
              |v| >= 2 && AllDigits(v[..2]) && r.value == Scanned(Num(v[..2]), v[2..])
  {
    if |v| == 0 || !IsDigit(v[0]) then None
    else if |v| == 1 || !IsDigit(v[1]) then
      (if fixed then None else Some(Scanned(DigitValue(v[0]), v[1..])))
    else
      LemmaNumOfTwo(v[..2]);
      Some(Scanned(DigitValue(v[0]) * 10 + DigitValue(v[1]), v[2..]))
  }

  /** The value of two digits. */
  lemma LemmaNumOfTwo(s: string)
    requires |s| == 2 && AllDigits(s)
    ensures Num(s) == 10 * DigitValue(s[0]) + DigitValue(s[1])
  {
    var first := s[..|s| - 1];
    assert first[..0] == [] && first[0] == s[0];
    assert Num(first) == DigitValue(s[0]);
  }

  function Pow10(k: nat): (p: nat)
    ensures p >= 1
  {
    if k == 0 then 1 else 10 * Pow10(k - 1)
  }

  /** n written with exactly `width` decimal digits, zero-padded, as the
      layouts "2006", "01" and ".999999" print it. */
  function Digits(n: nat, width: nat): (s: string)
    requires n < Pow10(width)
    ensures |s| == width && AllDigits(s) && Num(s) == n
    decreases width
  {
    if width == 0 then []
    else
      var s := Digits(n / 10, width - 1) + [('0' as int + n % 10) as char];
      assert s[..|s| - 1] == Digits(n / 10, width - 1);
      s
  }

  function TwoDigits(n: nat): (s: string)
    requires n < 100
    ensures |s| == 2 && AllDigits(s) && Num(s) == n
  {
    Digits(n, 2)
  }

  /** The time of day as Go's "15:04:05" layout prints it. */
  function FormatTimeOfDay(hour: nat, minute: nat, second: nat): string
    requires hour < 100 && minute < 100 && second < 100
  {
    TwoDigits(hour) + (":" + (TwoDigits(minute) + (":" + TwoDigits(second))))
  }

  function FourDigits(n: nat): (s: string)
    requires n < 10000
    ensures |s| == 4 && AllDigits(s) && Num(s) == n
  {
    assert Pow10(4) == 10000;
    Digits(n, 4)
  }

  function SixDigits(n: nat): (s: string)
    requires n < 1_000_000
    ensures |s| == 6 && AllDigits(s) && Num(s) == n
  {
    assert Pow10(6) == 1_000_000;
    Digits(n, 6)
  }

  /** A number written with k digits is below 10^k. */
  lemma {:induction false} LemmaNumBound(s: string)
    requires AllDigits(s)
    ensures Num(s) < Pow10(|s|)
    decreases |s|
  {
    if s != [] {
      LemmaNumBound(s[..|s| - 1]);
    }
  }

  /** Scaling a k-digit number by 10^j gives a number of at most k + j digits. */
  lemma {:induction false} LemmaScaledBelow(n: nat, k: nat, j: nat)
    requires n < Pow10(k)
    ensures n * Pow10(j) < Pow10(k + j)
    decreases j
  {
    if j > 0 {
      LemmaScaledBelow(n, k, j - 1);
      var m := n * Pow10(j - 1);
      assert Pow10(j) == 10 * Pow10(j - 1);
      assert n * Pow10(j) == 10 * m;
      assert Pow10(k + j) == 10 * Pow10(k + j - 1);
    }
  }

  /** A run of digits between two non-digits is exactly what a greedy `\d+`
      consumes. */
  lemma LemmaDigitRun(pre: string, d: string, rest: string)
    requires AllDigits(d)
    requires rest == [] || !IsDigit(rest[0])
    ensures Span(pre + d + rest, |pre|, Digit) == |pre| + |d|
  {
    var v := pre + d + rest;
    forall k | |pre| <= k < |pre| + |d| ensures In(v[k], Digit) {
      assert v[k] == d[k - |pre|];
    }
    assert |pre| + |d| < |v| ==> v[|pre| + |d|] == rest[0];
    LemmaSpanStops(v, |pre|, |pre| + |d|, Digit);
  }

  /** getnum reads back a two-digit number, with or without `fixed`. */
  lemma LemmaGetNumDigits(n: nat, rest: string, fixed: bool)
    requires n < 100
    ensures GetNum(TwoDigits(n) + rest, fixed) == Some(Scanned(n, rest))
  {
    var v := TwoDigits(n) + rest;
    assert v[..2] == TwoDigits(n) && v[2..] == rest;
  }

  /** The layout's "2006": the first four characters, all digits, as the
      year. */
  function ReadYear(v: string): (r: Option<Scanned>)
    ensures r.Some? ==> r.value.value < 10000 && |v| >= 4 && r.value.rest == v[4..]
  {
    if |v| < 4 || !AllDigits(v[..4]) then None
    else
      LemmaNumBound(v[..4]);
      assert Pow10(4) == 10000;
      Some(Scanned(Num(v[..4]), v[4..]))
  }

  /** A year written with four digits is read back. */
  lemma LemmaReadYearDigits(year: nat, rest: string)
    requires year < 10000
    ensures ReadYear(FourDigits(year) + rest) == Some(Scanned(year, rest))
  {
    var v := FourDigits(year) + rest;
    assert v[..4] == FourDigits(year) && v[4..] == rest;
  }

  /** v without its leading ' ' characters. */
  function DropSpaces(v: string): (r: string)
    ensures |r| <= |v| && r == v[|v| - |r|..]
    ensures forall k :: 0 <= k < |v| - |r| ==> v[k] == ' '
    ensures r == [] || r[0] != ' '
    decreases |v|
  {
    if v != [] && v[0] == ' ' then DropSpaces(v[1..]) else v
  }

  /** A space in a layout matches one or more spaces of the value (Go's
      skip), or the end of the value. */
  function SkipSpaces(v: string): Option<string> {
    if |v| > 0 && v[0] != ' ' then None else Some(DropSpaces(v))
  }

  lemma LemmaSkipOneSpace(rest: string)
    requires rest == [] || rest[0] != ' '
    ensures SkipSpaces(" " + rest) == Some(rest)
  {
    assert (" " + rest)[1..] == rest;
  }

  /** Any other layout character must appear literally. */
  function Expect(v: string, c: char): (r: Option<string>)
    ensures r.Some? <==> |v| > 0 && v[0] == c
    ensures r.Some? ==> r.value == v[1..]
  {
    if |v| > 0 && v[0] == c then Some(v[1..]) else None
  }

  lemma LemmaExpectFront(c: char, rest: string)
    ensures Expect([c] + rest, c) == Some(rest)
  {
    assert ([c] + rest)[1..] == rest;
  }

  const ShortMonthNames: seq<string> :=
    ["Jan", "Feb", "Mar", "Apr", "May", "Jun", "Jul", "Aug", "Sep", "Oct", "Nov", "Dec"]

  predicate IsAsciiLetter(c: char) { IsAsciiUpper(c) || IsAsciiLower(c) }

  /** Equality ignoring the case of ASCII letters (Go's match). */
  predicate EqualFoldAscii(a: string, b: string) {
    && |a| == |b|
    && forall k :: 0 <= k < |a| ==>
         a[k] == b[k] || (IsAsciiLetter(a[k]) && IsAsciiLetter(b[k]) && LowerChar(a[k]) == LowerChar(b[k]))
  }

  /** The first month whose abbreviation starts v, ignoring case, from index i. */
  function LookupMonthFrom(v: string, i: nat): (r: Option<Scanned>)
    requires i <= 12
    ensures r.Some? ==> (&& i < r.value.value <= 12 && |v| >= 3 && r.value.rest == v[3..]
                         && EqualFoldAscii(v[..3], ShortMonthNames[r.value.value - 1]))
    ensures r.None? ==> forall m :: i <= m < 12 ==> |v| < 3 || !EqualFoldAscii(v[..3], ShortMonthNames[m])
    decreases 12 - i
  {
    if i == 12 || |v| < 3 then None
    else if EqualFoldAscii(v[..3], ShortMonthNames[i]) then Some(Scanned(i + 1, v[3..]))
    else LookupMonthFrom(v, i + 1)
  }

  /** Go's lookup over the short month names: month numbers run from 1. */
  function LookupMonth(v: string): (r: Option<Scanned>)
    ensures r.Some? ==> (&& 1 <= r.value.value <= 12 && |v| >= 3 && r.value.rest == v[3..]
                         && EqualFoldAscii(v[..3], ShortMonthNames[r.value.value - 1]))
    ensures r.None? ==> |v| < 3 || forall m :: 0 <= m < 12 ==> !EqualFoldAscii(v[..3], ShortMonthNames[m])
  {
    LookupMonthFrom(v, 0)
  }

  /** Days from 0000-01-01 to the first of January of `year`, counting year 0
      as a leap year like the proleptic Gregorian calendar. */
  function DaysBeforeYear(year: nat): int {
    365 * year + (year + 3) / 4 - (year + 99) / 100 + (year + 399) / 400
  }

  function DaysBeforeMonth(month: int, year: int): int
    requires 1 <= month <= 12
    decreases month
  {
    if month == 1 then 0 else DaysBeforeMonth(month - 1, year) + DaysIn(month - 1, year)
  }

  /** Seconds from 0000-01-01T00:00:00Z to the instant a fixed-offset reading
      denotes. */
  function UtcSeconds(t: Timestamp): int
    requires t.year >= 0 && 1 <= t.month <= 12 && t.zone.FixedOffset?
  {
    (DaysBeforeYear(t.year) + DaysBeforeMonth(t.month, t.year) + t.day - 1) * 86400
      + t.hour * 3600 + t.minute * 60 + t.second - t.zone.seconds
  }

  /** Time.IsZero: the instant is January 1, year 1, 00:00:00 UTC. */
  predicate IsZeroInstant(t: Timestamp)
    requires t.year >= 0 && 1 <= t.month <= 12 && t.zone.FixedOffset?
  {
    t.nanosecond == 0 && UtcSeconds(t) == UtcSeconds(Timestamp(1, 1, 1, 0, 0, 0, 0, FixedOffset(0)))
  }

  /** The months before `month` leave room for that month in the year. */
  lemma {:induction false} LemmaDaysBeforeMonthBound(month: int, year: int)
    requires 1 <= month <= 12
    ensures 0 <= DaysBeforeMonth(month, year)
    ensures month > 1 ==> DaysBeforeMonth(month, year) >= 28
    ensures DaysBeforeMonth(month, year) + DaysIn(month, year) <= if IsLeapYear(year) then 366 else 365
    decreases month
  {
    if month > 1 {
      LemmaDaysBeforeMonthBound(month - 1, year);
    }
  }

  /** Read at offset zero, a valid wall-clock time is the zero instant exactly
      when it is 0001-01-01 00:00:00.000000000. */
  lemma LemmaZeroInstantAtUtc(t: Timestamp)
    requires t.year >= 0 && 1 <= t.month <= 12 && 1 <= t.day <= DaysIn(t.month, t.year)
    requires 0 <= t.hour < 24 && 0 <= t.minute < 60 && 0 <= t.second < 60 && 0 <= t.nanosecond
    requires t.zone == FixedOffset(0)
    ensures IsZeroInstant(t) <==> t == Timestamp(1, 1, 1, 0, 0, 0, 0, FixedOffset(0))
  {
    LemmaDaysBeforeMonthBound(t.month, t.year);
    assert DaysBeforeYear(1) == 366;
  }
}
