/**
 Timestamps are stored as the text of chrono's `to_rfc3339` in UTC, with 0, 3, 6 or 9
 fractional digits, and are compared as text. For years 0000 to 9999 the byte order of
 these texts is the order of the instants, although their lengths differ.
 */
module Timestamps {
  // ------------------------------------------------------------------
  // Instants and their position on the time line.
  // ------------------------------------------------------------------

  datatype Instant = Instant(year: nat, month: nat, day: nat, hour: nat, minute: nat, second: nat, nanos: nat)

  predicate Leap(y: nat) {
    y % 4 == 0 && (y % 100 != 0 || y % 400 == 0)
  }

  function DaysInMonth(y: nat, m: nat): nat {
    if m == 2 then (if Leap(y) then 29 else 28)
    else if m == 4 || m == 6 || m == 9 || m == 11 then 30
    else 31
  }

  predicate Valid(i: Instant) {
    && i.year <= 9999 && 1 <= i.month <= 12 && 1 <= i.day <= DaysInMonth(i.year, i.month)
    && i.hour < 24 && i.minute < 60 && i.second < 60 && i.nanos < 1000000000
  }

  function DaysBeforeMonth(y: nat, m: nat): nat
    requires 1 <= m
  {
    if m == 1 then 0 else DaysBeforeMonth(y, m - 1) + DaysInMonth(y, m - 1)
  }

  function DaysBeforeYear(y: nat): nat {
    if y == 0 then 0 else DaysBeforeYear(y - 1) + DaysBeforeMonth(y - 1, 13)
  }

  const NANOS_PER_MINUTE := 60 * 1000000000
  const NANOS_PER_HOUR := 60 * NANOS_PER_MINUTE
  const NANOS_PER_DAY := 24 * NANOS_PER_HOUR

  function NanosOfMinute(i: Instant): nat {
    i.second * 1000000000 + i.nanos
  }

  function NanosOfHour(i: Instant): nat {
    i.minute * NANOS_PER_MINUTE + NanosOfMinute(i)
  }

  function NanosOfDay(i: Instant): nat {
    i.hour * NANOS_PER_HOUR + NanosOfHour(i)
  }

  /** Nanoseconds since the start of year 0, on the Gregorian calendar. */
  function Nanos(i: Instant): int
    requires Valid(i)
  {
    (DaysBeforeYear(i.year) + DaysBeforeMonth(i.year, i.month) + i.day - 1) * NANOS_PER_DAY + NanosOfDay(i)
  }

  // ------------------------------------------------------------------
  // Their text.
  // ------------------------------------------------------------------

  function Digits(n: nat, width: nat): (r: string)
    ensures |r| == width
    ensures forall k :: 0 <= k < width ==> '0' <= r[k] <= '9'
  {
    if width == 0 then "" else Digits(n / 10, width - 1) + [('0' as int + n % 10) as char]
  }

  /** As few of 0, 3, 6 or 9 digits as show the nanoseconds exactly. */
  function Fraction(nanos: nat): string {
    if nanos == 0 then ""
    else if nanos % 1000000 == 0 then "." + Digits(nanos / 1000000, 3)
    else if nanos % 1000 == 0 then "." + Digits(nanos / 1000, 6)
    else "." + Digits(nanos, 9)
  }

  function FractionText(i: Instant): string {
    Fraction(i.nanos) + "+00:00"
  }

  function SecondText(i: Instant): string {
    Digits(i.second, 2) + FractionText(i)
  }

  function MinuteText(i: Instant): string {
    Digits(i.minute, 2) + (":" + SecondText(i))
  }

  function HourText(i: Instant): string {
    Digits(i.hour, 2) + (":" + MinuteText(i))
  }

  function DayText(i: Instant): string {
    Digits(i.day, 2) + ("T" + HourText(i))
  }

  function MonthText(i: Instant): string {
    Digits(i.month, 2) + ("-" + DayText(i))
  }

  /** YYYY-MM-DDThh:mm:ss, the fraction, and the offset of UTC. */
  function Text(i: Instant): string {
    Digits(i.year, 4) + ("-" + MonthText(i))
  }

  // ------------------------------------------------------------------
  // Byte order.
  // ------------------------------------------------------------------

  /** `a` is smaller than `b` at position `p`, the first where they differ. */
  predicate SmallerAt(a: string, b: string, p: nat) {
    p <= |a| && p < |b| && a[..p] == b[..p] && (p == |a| || a[p] < b[p])
  }

  ghost predicate Less(a: string, b: string) {
    exists p: nat :: SmallerAt(a, b, p)
  }

  lemma LessIsAsymmetric(a: string, b: string)
    requires Less(a, b)
    ensures !Less(b, a) && a != b
  {
    var p: nat :| SmallerAt(a, b, p);
    forall q: nat ensures !SmallerAt(b, a, q) {
      if p < q <= |a| && q <= |b| {
        assert a[..q][p] == a[p] && b[..q][p] == b[p];
      } else if q < p {
        assert a[..p][q] == a[q] && b[..p][q] == b[q];
      }
    }
  }

  /** Texts with leading parts of one length compare by those parts first. */
  lemma LessByParts(a: string, b: string, x: string, y: string)
    requires |a| == |b|
    ensures Less(a + x, b + y) <==> Less(a, b) || (a == b && Less(x, y))
  {
    if Less(a, b) {
      var p: nat :| SmallerAt(a, b, p);
      assert (a + x)[..p] == a[..p] && (b + y)[..p] == b[..p];
      assert SmallerAt(a + x, b + y, p);
    }
    if a == b && Less(x, y) {
      var p: nat :| SmallerAt(x, y, p);
      assert (a + x)[..|a| + p] == a + x[..p] && (b + y)[..|a| + p] == b + y[..p];
      assert SmallerAt(a + x, b + y, |a| + p);
    }
    if Less(a + x, b + y) {
      PartsByLess(a, b, x, y);
    }
  }

  lemma PartsByLess(a: string, b: string, x: string, y: string)
    requires |a| == |b| && Less(a + x, b + y)
    ensures Less(a, b) || (a == b && Less(x, y))
  {
    var p: nat :| SmallerAt(a + x, b + y, p);
    if p < |a| {
      assert a[..p] == (a + x)[..p] && b[..p] == (b + y)[..p];
      assert SmallerAt(a, b, p);
    } else {
      assert a == (a + x)[..p][..|a|] && b == (b + y)[..p][..|a|];
      assert x[..p - |a|] == (a + x)[..p][|a|..] && y[..p - |a|] == (b + y)[..p][|a|..];
      assert SmallerAt(x, y, p - |a|);
    }
  }

  lemma SameFirst(s: string, x: string, y: string)
    ensures Less(s + x, s + y) <==> Less(x, y)
  {
    LessByParts(s, s, x, y);
    if Less(s, s) {
      LessIsAsymmetric(s, s);
    }
  }

  function Pow10(k: nat): nat {
    if k == 0 then 1 else 10 * Pow10(k - 1)
  }

  lemma OneDigit(c: char, d: char)
    ensures Less([c], [d]) <==> c < d
  {
    if c < d {
      assert SmallerAt([c], [d], 0);
    }
    if Less([c], [d]) {
      var p: nat :| SmallerAt([c], [d], p);
    }
  }

  /** Fixed-width decimal texts compare like numbers. */
  lemma {:induction false} DigitsOrder(n: nat, m: nat, width: nat)
    requires n < Pow10(width) && m < Pow10(width)
    ensures Less(Digits(n, width), Digits(m, width)) <==> n < m
    ensures Digits(n, width) == Digits(m, width) <==> n == m
  {
    if width == 0 {
      if Less("", "") {
        LessIsAsymmetric("", "");
      }
    } else {
      DigitsOrder(n / 10, m / 10, width - 1);
      var c, d := ('0' as int + n % 10) as char, ('0' as int + m % 10) as char;
      LessByParts(Digits(n / 10, width - 1), Digits(m / 10, width - 1), [c], [d]);
      OneDigit(c, d);
      var p, q := Digits(n, width), Digits(m, width);
      assert p[..width - 1] == Digits(n / 10, width - 1) && q[..width - 1] == Digits(m / 10, width - 1);
      assert p[width - 1] == c && q[width - 1] == d;
    }
  }

  // ------------------------------------------------------------------
  // Fractions of different lengths.
  // ------------------------------------------------------------------

  /** The number that a decimal text stands for. */
  function ReadDigits(s: string): int {
    if s == "" then 0 else 10 * ReadDigits(s[..|s| - 1]) + (s[|s| - 1] as int - '0' as int)
  }

  /** A field's text is its number in decimal. */
  lemma {:induction false} DigitsRoundTrip(n: nat, width: nat)
    requires n < Pow10(width)
    ensures ReadDigits(Digits(n, width)) == n
  {
    if width > 0 {
      DigitsRoundTrip(n / 10, width - 1);
      var d := Digits(n, width);
      assert d[..width - 1] == Digits(n / 10, width - 1) && d[width - 1] == ('0' as int + n % 10) as char;
    }
  }

  lemma TimeLayout(i: Instant)
    ensures HourText(i) == Digits(i.hour, 2) + ":" + Digits(i.minute, 2) + ":" + Digits(i.second, 2) + Fraction(i.nanos) + "+00:00"
  {
    hide Digits, Fraction;
  }

  lemma DateLayout(i: Instant)
    ensures Text(i) == Digits(i.year, 4) + "-" + Digits(i.month, 2) + "-" + Digits(i.day, 2) + "T" + HourText(i)
  {
    hide Digits, HourText;
  }

  /** A stored text is YYYY-MM-DD and hh:mm:ss around a 'T', each field a number in decimal, the fraction, and "+00:00". */
  lemma TextLayout(i: Instant)
    requires Valid(i)
    ensures var date := Digits(i.year, 4) + "-" + Digits(i.month, 2) + "-" + Digits(i.day, 2);
            var time := Digits(i.hour, 2) + ":" + Digits(i.minute, 2) + ":" + Digits(i.second, 2) + Fraction(i.nanos) + "+00:00";
            Text(i) == date + "T" + time
    ensures ReadDigits(Digits(i.year, 4)) == i.year && ReadDigits(Digits(i.month, 2)) == i.month && ReadDigits(Digits(i.day, 2)) == i.day
    ensures ReadDigits(Digits(i.hour, 2)) == i.hour && ReadDigits(Digits(i.minute, 2)) == i.minute && ReadDigits(Digits(i.second, 2)) == i.second
  {
    hide Digits, ReadDigits, Fraction, Text, HourText;
    TimeLayout(i);
    DateLayout(i);
    PowersOfTen();
    DigitsRoundTrip(i.year, 4);
    DigitsRoundTrip(i.month, 2);
    DigitsRoundTrip(i.day, 2);
    DigitsRoundTrip(i.hour, 2);
    DigitsRoundTrip(i.minute, 2);
    DigitsRoundTrip(i.second, 2);
  }

  /** How many of the nine digits are shown. */
  function Shown(nanos: nat): nat {
    if nanos == 0 then 0 else if nanos % 1000000 == 0 then 3 else if nanos % 1000 == 0 then 6 else 9
  }

  lemma ThreeDigits(n: nat)
    ensures n / 10 / 10 / 10 == n / 1000
    ensures n % 1000 == 0 ==> n % 10 == 0 && n / 10 % 10 == 0 && n / 10 / 10 % 10 == 0
  {
  }

  lemma DropThree(n: nat, width: nat)
    requires 3 <= width
    ensures Digits(n, width)[..width - 3] == Digits(n / 1000, width - 3)
    ensures n % 1000 == 0 ==> Digits(n, width)[width - 3..] == "000"
  {
    ThreeDigits(n);
    var a, b := n / 10, n / 10 / 10;
    var x, y, z := ('0' as int + n % 10) as char, ('0' as int + a % 10) as char, ('0' as int + b % 10) as char;
    assert Digits(n, width) == Digits(a, width - 1) + [x];
    assert Digits(a, width - 1) == Digits(b, width - 2) + [y];
    assert Digits(b, width - 2) == Digits(n / 1000, width - 3) + [z];
    assert Digits(n, width) == Digits(n / 1000, width - 3) + [z, y, x];
  }

  /** The nine digits in groups of three; groups below the last non-zero one are zeros. */
  lemma NineDigits(nanos: nat)
    requires nanos < 1000000000
    ensures var d := Digits(nanos, 9);
            && d[..6] == Digits(nanos / 1000, 6) && d[..3] == Digits(nanos / 1000000, 3)
            && (nanos % 1000 == 0 ==> d[6..9] == "000")
            && (nanos % 1000000 == 0 ==> d[3..6] == "000" && d[6..9] == "000")
            && (nanos == 0 ==> d[..3] == "000")
  {
    hide Digits;
    var d := Digits(nanos, 9);
    DropThree(nanos, 9);
    DropThree(nanos / 1000, 6);
    DropThree(nanos / 1000000, 3);
    assert nanos / 1000 / 1000 == nanos / 1000000;
    assert nanos % 1000000 == 0 ==> nanos % 1000 == 0 && nanos / 1000 % 1000 == 0;
    assert d[..6][..3] == d[..3] && d[..6][3..] == d[3..6] && d[6..] == d[6..9];
    assert Digits(nanos / 1000000, 3)[0..] == d[..3];
  }

  /** The fraction shows a prefix of the nine digits, and what it leaves out is zeros. */
  lemma FractionShowsPrefix(nanos: nat)
    requires nanos < 1000000000
    ensures nanos > 0 ==> Fraction(nanos) == "." + Digits(nanos, 9)[..Shown(nanos)]
    ensures forall k :: Shown(nanos) <= k < 9 ==> Digits(nanos, 9)[k] == '0'
  {
    hide Digits;
    var d := Digits(nanos, 9);
    NineDigits(nanos);
    assert d[..9] == d;
    forall k | Shown(nanos) <= k < 9 ensures d[k] == '0' {
      if 6 <= k {
        assert d[k] == d[6..9][k - 6];
      } else if 3 <= k {
        assert d[k] == d[3..6][k - 3];
      } else {
        assert d[k] == d[..3][k];
      }
    }
  }

  /** Cutting trailing zeros off and closing with '+' keeps the order of two digit strings. */
  lemma CutDigitsOrder(d: string, e: string, i: nat, j: nat, p: nat)
    requires |d| == |e| && i <= |d| && j <= |d| && SmallerAt(d, e, p)
    requires forall k :: 0 <= k < |d| ==> '0' <= d[k] && '0' <= e[k]
    requires forall k :: i <= k < |d| ==> d[k] == '0'
    requires forall k :: j <= k < |d| ==> e[k] == '0'
    ensures Less(d[..i] + "+00:00", e[..j] + "+00:00")
  {
    assert p < j;
    var q := if p < i then p else i;
    var x, y := d[..i] + "+00:00", e[..j] + "+00:00";
    assert d[..q] == d[..p][..q] && e[..q] == e[..p][..q];
    assert x[..q] == d[..q] && y[..q] == e[..q] && y[q] == e[q];
    assert SmallerAt(x, y, q);
  }

  lemma PowersOfTen()
    ensures Pow10(2) == 100 && Pow10(4) == 10000 && Pow10(9) == 1000000000
  {
    assert Pow10(3) == 1000 && Pow10(5) == 100000 && Pow10(7) == 10000000;
  }

  lemma FractionGrows(n: nat, m: nat)
    requires n < m < 1000000000
    ensures Less(Fraction(n) + "+00:00", Fraction(m) + "+00:00")
  {
    FractionShowsPrefix(m);
    if n == 0 {
      assert SmallerAt(Fraction(n) + "+00:00", Fraction(m) + "+00:00", 0);
    } else {
      FractionShowsPrefix(n);
      PowersOfTen();
      DigitsOrder(n, m, 9);
      ShownDigitsOrder(Digits(n, 9), Digits(m, 9), Shown(n), Shown(m));
    }
  }

  lemma ShownDigitsOrder(d: string, e: string, i: nat, j: nat)
    requires |d| == |e| && i <= |d| && j <= |d| && Less(d, e)
    requires forall k :: 0 <= k < |d| ==> '0' <= d[k] && '0' <= e[k]
    requires forall k :: i <= k < |d| ==> d[k] == '0'
    requires forall k :: j <= k < |d| ==> e[k] == '0'
    ensures Less("." + d[..i] + "+00:00", "." + e[..j] + "+00:00")
  {
    var p: nat :| SmallerAt(d, e, p);
    CutDigitsOrder(d, e, i, j, p);
    SameFirst(".", d[..i] + "+00:00", e[..j] + "+00:00");
    assert "." + d[..i] + "+00:00" == "." + (d[..i] + "+00:00") && "." + e[..j] + "+00:00" == "." + (e[..j] + "+00:00");
  }

  lemma FractionOrder(n: nat, m: nat)
    requires n < 1000000000 && m < 1000000000
    ensures Less(Fraction(n) + "+00:00", Fraction(m) + "+00:00") <==> n < m
  {
    var x, y := Fraction(n) + "+00:00", Fraction(m) + "+00:00";
    if n < m {
      FractionGrows(n, m);
    } else if m < n {
      FractionGrows(m, n);
      LessIsAsymmetric(y, x);
    } else if Less(x, y) {
      LessIsAsymmetric(x, y);
    }
  }

  // ------------------------------------------------------------------
  // Field by field.
  // ------------------------------------------------------------------

  lemma FieldOrder(n: nat, m: nat, width: nat, separator: string, x: string, y: string)
    requires n < Pow10(width) && m < Pow10(width)
    ensures Less(Digits(n, width) + (separator + x), Digits(m, width) + (separator + y)) <==> n < m || (n == m && Less(x, y))
  {
    DigitsOrder(n, m, width);
    LessByParts(Digits(n, width), Digits(m, width), separator + x, separator + y);
    SameFirst(separator, x, y);
  }

  /** Comparing a leading field and then a bounded rest is comparing the combined number. */
  lemma Positional(n: nat, m: nat, x: nat, y: nat, unit: nat)
    requires x < unit && y < unit
    ensures n * unit + x < m * unit + y <==> n < m || (n == m && x < y)
  {
    if n < m {
      assert (n + 1) * unit <= m * unit;
    } else if m < n {
      assert (m + 1) * unit <= n * unit;
    }
  }

  lemma SecondOrder(a: Instant, b: Instant)
    requires Valid(a) && Valid(b)
    ensures Less(SecondText(a), SecondText(b)) <==> NanosOfMinute(a) < NanosOfMinute(b)
  {
    FractionOrder(a.nanos, b.nanos);
    PowersOfTen();
    FieldOrder(a.second, b.second, 2, "", FractionText(a), FractionText(b));
    assert "" + FractionText(a) == FractionText(a) && "" + FractionText(b) == FractionText(b);
    Positional(a.second, b.second, a.nanos, b.nanos, 1000000000);
  }

  lemma TimeIsBounded(i: Instant)
    requires Valid(i)
    ensures NanosOfMinute(i) < NANOS_PER_MINUTE && NanosOfHour(i) < NANOS_PER_HOUR && NanosOfDay(i) < NANOS_PER_DAY
  {
  }

  lemma TimeByParts(a: Instant, b: Instant)
    requires Valid(a) && Valid(b)
    ensures NanosOfHour(a) < NanosOfHour(b) <==> a.minute < b.minute || (a.minute == b.minute && NanosOfMinute(a) < NanosOfMinute(b))
    ensures NanosOfDay(a) < NanosOfDay(b) <==> a.hour < b.hour || (a.hour == b.hour && NanosOfHour(a) < NanosOfHour(b))
  {
    TimeIsBounded(a);
    TimeIsBounded(b);
    Positional(a.minute, b.minute, NanosOfMinute(a), NanosOfMinute(b), NANOS_PER_MINUTE);
    Positional(a.hour, b.hour, NanosOfHour(a), NanosOfHour(b), NANOS_PER_HOUR);
  }

  lemma TimeOfDayOrder(a: Instant, b: Instant)
    requires Valid(a) && Valid(b)
    ensures Less(HourText(a), HourText(b)) <==> NanosOfDay(a) < NanosOfDay(b)
  {
    SecondOrder(a, b);
    PowersOfTen();
    TimeByParts(a, b);
    FieldOrder(a.minute, b.minute, 2, ":", SecondText(a), SecondText(b));
    FieldOrder(a.hour, b.hour, 2, ":", MinuteText(a), MinuteText(b));
  }

  /** Year, then month, then day, then time of day. */
  predicate CalendarBefore(a: Instant, b: Instant) {
    a.year < b.year || (a.year == b.year &&
    (a.month < b.month || (a.month == b.month &&
    (a.day < b.day || (a.day == b.day && NanosOfDay(a) < NanosOfDay(b))))))
  }

  lemma TextOrderIsCalendarOrder(a: Instant, b: Instant)
    requires Valid(a) && Valid(b)
    ensures Less(Text(a), Text(b)) <==> CalendarBefore(a, b)
  {
    PowersOfTen();
    TimeOfDayOrder(a, b);
    FieldOrder(a.day, b.day, 2, "T", HourText(a), HourText(b));
    FieldOrder(a.month, b.month, 2, "-", DayText(a), DayText(b));
    FieldOrder(a.year, b.year, 4, "-", MonthText(a), MonthText(b));
  }

  // ------------------------------------------------------------------
  // The calendar.
  // ------------------------------------------------------------------

  lemma {:induction false} MonthsAreOrdered(y: nat, m: nat, n: nat)
    requires 1 <= m < n
    ensures DaysBeforeMonth(y, m) + DaysInMonth(y, m) <= DaysBeforeMonth(y, n)
  {
    if m < n - 1 {
      MonthsAreOrdered(y, m, n - 1);
    }
  }

  lemma {:induction false} YearsAreOrdered(y: nat, z: nat)
    requires y < z
    ensures DaysBeforeYear(y) + DaysBeforeMonth(y, 13) <= DaysBeforeYear(z)
  {
    if y < z - 1 {
      YearsAreOrdered(y, z - 1);
    }
  }

  function DayNumber(i: Instant): int
    requires 1 <= i.month
  {
    DaysBeforeYear(i.year) + DaysBeforeMonth(i.year, i.month) + i.day - 1
  }

  lemma EarlierDateHasSmallerNumber(a: Instant, b: Instant)
    requires Valid(a) && Valid(b)
    requires a.year < b.year || (a.year == b.year && (a.month < b.month || (a.month == b.month && a.day < b.day)))
    ensures DayNumber(a) < DayNumber(b)
  {
    if a.year < b.year {
      YearsAreOrdered(a.year, b.year);
      MonthsAreOrdered(a.year, a.month, 13);
    } else if a.month < b.month {
      MonthsAreOrdered(a.year, a.month, b.month);
    }
  }

  lemma NanosByDay(a: Instant, b: Instant)
    requires Valid(a) && Valid(b)
    ensures Nanos(a) < Nanos(b) <==>
              DayNumber(a) < DayNumber(b) || (DayNumber(a) == DayNumber(b) && NanosOfDay(a) < NanosOfDay(b))
  {
    TimeIsBounded(a);
    TimeIsBounded(b);
    Positional(DayNumber(a), DayNumber(b), NanosOfDay(a), NanosOfDay(b), NANOS_PER_DAY);
  }

  lemma CalendarOrderIsTimeOrder(a: Instant, b: Instant)
    requires Valid(a) && Valid(b)
    ensures CalendarBefore(a, b) <==> Nanos(a) < Nanos(b)
  {
    NanosByDay(a, b);
    if a.year < b.year || (a.year == b.year && (a.month < b.month || (a.month == b.month && a.day < b.day))) {
      EarlierDateHasSmallerNumber(a, b);
    } else if a.year != b.year || a.month != b.month || a.day != b.day {
      EarlierDateHasSmallerNumber(b, a);
    }
  }

  lemma SameTimeOfDay(a: Instant, b: Instant)
    requires Valid(a) && Valid(b) && NanosOfDay(a) == NanosOfDay(b)
    ensures a.hour == b.hour && a.minute == b.minute && a.second == b.second && a.nanos == b.nanos
  {
    TimeByParts(a, b);
    TimeByParts(b, a);
  }

  /** The stored texts compare exactly like the instants they stand for, and determine them. */
  lemma TextOrderIsTimeOrder(a: Instant, b: Instant)
    requires Valid(a) && Valid(b)
    ensures Less(Text(a), Text(b)) <==> Nanos(a) < Nanos(b)
    ensures Text(a) == Text(b) <==> a == b
  {
    TextOrderIsCalendarOrder(a, b);
    TextOrderIsCalendarOrder(b, a);
    CalendarOrderIsTimeOrder(a, b);
    if CalendarBefore(a, b) {
      LessIsAsymmetric(Text(a), Text(b));
    } else if CalendarBefore(b, a) {
      LessIsAsymmetric(Text(b), Text(a));
    } else {
      SameTimeOfDay(a, b);
    }
  }
}
