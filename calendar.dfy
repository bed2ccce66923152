/**
 * The hour arithmetic the partitioners take from Python's `datetime`.
 *
 * An hour is an index `h` counted from 0001-01-01T00:00 UTC (`datetime.min`)
 * in the proleptic Gregorian calendar; `ValidHour(h)` is the range a
 * `datetime` can hold (years 1 to 9999). `HourTuple(h)` is the list that
 * `strftime('%Y-%m-%d-%H').split('-')` yields for that hour, and
 * `ParseHourTuple` reads such a list back; the two are proved inverse.
 */
module Calendar {
  import opened Outcomes

  const MaxYear: int := 9999

  predicate IsLeapYear(y: int) {
    y % 4 == 0 && (y % 100 != 0 || y % 400 == 0)
  }

  function DaysInYear(y: int): nat {
    if IsLeapYear(y) then 366 else 365
  }

  /** Days from 0001-01-01 to January 1 of year `y`. */
  function DaysBeforeYear(y: int): int {
    var p := y - 1;
    365 * p + p / 4 - p / 100 + p / 400
  }

  /** Stepping `n` by one moves `n / k` exactly when `n + 1` is a multiple of `k`. */
  lemma DivStep(n: int, k: int)
    requires k in {4, 100, 400}
    ensures (n + 1) / k == n / k + (if (n + 1) % k == 0 then 1 else 0)
  {
    var q, r := n / k, n % k;
    assert n == k * q + r && 0 <= r < k;
    if r == k - 1 {
      assert n + 1 == k * (q + 1) + 0;
    } else {
      assert n + 1 == k * q + (r + 1);
    }
  }

  lemma DaysBeforeNextYear(y: int)
    ensures DaysBeforeYear(y + 1) == DaysBeforeYear(y) + DaysInYear(y)
  {
    DivStep(y - 1, 4);
    DivStep(y - 1, 100);
    DivStep(y - 1, 400);
  }

  lemma {:induction false} DaysBeforeYearMonotone(a: int, b: int)
    requires a <= b
    ensures DaysBeforeYear(a) + 365 * (b - a) <= DaysBeforeYear(b)
    decreases b - a
  {
    if a < b {
      DaysBeforeYearMonotone(a, b - 1);
      DaysBeforeNextYear(b - 1);
    }
  }

  /**
   * The year, searched upward from `y`, holding the day that lies `z` days
   * after January 1 of `y`, and that day's offset within its year.
   */
  function YearAndDay(z: int, y: int): (r: (int, int))
    requires 0 <= z
    ensures y <= r.0 && 0 <= r.1
    decreases z
  {
    if z < DaysInYear(y) then (y, z) else YearAndDay(z - DaysInYear(y), y + 1)
  }

  lemma {:induction false} YearAndDayCorrect(z: int, y: int)
    requires 0 <= z
    ensures var r := YearAndDay(z, y);
      r.1 < DaysInYear(r.0) && DaysBeforeYear(r.0) + r.1 == DaysBeforeYear(y) + z
    decreases z
  {
    DaysBeforeNextYear(y);
    if z >= DaysInYear(y) {
      YearAndDayCorrect(z - DaysInYear(y), y + 1);
    }
  }

  /** At most one year contains a given day. */
  lemma YearOfDayUnique(z: int, y1: int, y2: int)
    requires DaysBeforeYear(y1) <= z < DaysBeforeYear(y1 + 1)
    requires DaysBeforeYear(y2) <= z < DaysBeforeYear(y2 + 1)
    ensures y1 == y2
  {
    if y1 < y2 {
      DaysBeforeYearMonotone(y1 + 1, y2);
    } else if y2 < y1 {
      DaysBeforeYearMonotone(y2 + 1, y1);
    }
  }

  function DaysInMonth(y: int, m: int): nat
    requires 1 <= m <= 12
  {
    if m == 2 then (if IsLeapYear(y) then 29 else 28)
    else if m == 4 || m == 6 || m == 9 || m == 11 then 30
    else 31
  }

  /** Days of year `y` that precede month `m` (`m == 13` gives the whole year). */
  function DaysBeforeMonth(y: int, m: int): nat
    requires 1 <= m <= 13
  {
    [0, 31, 59, 90, 120, 151, 181, 212, 243, 273, 304, 334, 365][m - 1]
    + (if m > 2 && IsLeapYear(y) then 1 else 0)
  }

  lemma DaysBeforeNextMonth(y: int, m: int)
    requires 1 <= m <= 12
    ensures DaysBeforeMonth(y, m + 1) == DaysBeforeMonth(y, m) + DaysInMonth(y, m)
    ensures DaysBeforeMonth(y, 13) == DaysInYear(y)
  {
  }

  lemma {:induction false} DaysBeforeMonthMonotone(y: int, a: int, b: int)
    requires 1 <= a <= b <= 13
    ensures DaysBeforeMonth(y, a) <= DaysBeforeMonth(y, b)
    decreases b - a
  {
    if a < b {
      DaysBeforeMonthMonotone(y, a, b - 1);
      DaysBeforeNextMonth(y, b - 1);
    }
  }

  /**
   * The month, searched upward from `m`, holding the day that lies `d` days
   * after the first of month `m` in year `y`, and that day's offset within
   * its month.
   */
  function MonthAndDay(d: int, y: int, m: int): (r: (int, int))
    requires 1 <= m <= 12 && 0 <= d
    ensures m <= r.0 <= 12 && 0 <= r.1
    decreases 12 - m
  {
    if m == 12 || d < DaysInMonth(y, m) then (m, d) else MonthAndDay(d - DaysInMonth(y, m), y, m + 1)
  }

  lemma {:induction false} MonthAndDayCorrect(d: int, y: int, m: int)
    requires 1 <= m <= 12 && 0 <= d && DaysBeforeMonth(y, m) + d < DaysInYear(y)
    ensures var r := MonthAndDay(d, y, m);
      r.1 < DaysInMonth(y, r.0) && DaysBeforeMonth(y, r.0) + r.1 == DaysBeforeMonth(y, m) + d
    decreases 12 - m
  {
    DaysBeforeNextMonth(y, m);
    if m < 12 && d >= DaysInMonth(y, m) {
      MonthAndDayCorrect(d - DaysInMonth(y, m), y, m + 1);
    }
  }

  /** At most one month of a year contains a given day of that year. */
  lemma MonthOfDayUnique(y: int, doy: int, m1: int, m2: int)
    requires 1 <= m1 <= 12 && 1 <= m2 <= 12
    requires DaysBeforeMonth(y, m1) <= doy < DaysBeforeMonth(y, m1) + DaysInMonth(y, m1)
    requires DaysBeforeMonth(y, m2) <= doy < DaysBeforeMonth(y, m2) + DaysInMonth(y, m2)
    ensures m1 == m2
  {
    DaysBeforeNextMonth(y, m1);
    DaysBeforeNextMonth(y, m2);
    if m1 < m2 {
      DaysBeforeMonthMonotone(y, m1 + 1, m2);
    } else if m2 < m1 {
      DaysBeforeMonthMonotone(y, m2 + 1, m1);
    }
  }

  /** A broken-down UTC hour, as a `datetime` truncated to the hour holds it. */
  datatype CivilHour = CivilHour(year: int, month: int, day: int, hour: int)

  /** The broken-down hours a `datetime` can represent. */
  predicate ValidCivil(c: CivilHour) {
    && 1 <= c.year <= MaxYear
    && 1 <= c.month <= 12
    && 1 <= c.day <= DaysInMonth(c.year, c.month)
    && 0 <= c.hour < 24
  }

  /** One past the last hour of 9999-12-31, the end of `datetime`'s range. */
  function HourLimit(): int {
    24 * DaysBeforeYear(MaxYear + 1)
  }

  predicate ValidHour(h: int) {
    0 <= h < HourLimit()
  }

  /** The hour index of a broken-down hour; every representable one lies in range. */
  function HourOfCivil(c: CivilHour): (h: int)
    requires ValidCivil(c)
    ensures ValidHour(h)
  {
    DaysBeforeNextMonth(c.year, c.month);
    DaysBeforeMonthMonotone(c.year, c.month + 1, 13);
    DaysBeforeNextYear(c.year);
    DaysBeforeYearMonotone(c.year + 1, MaxYear + 1);
    DaysBeforeYearMonotone(1, c.year);
    24 * (DaysBeforeYear(c.year) + DaysBeforeMonth(c.year, c.month) + c.day - 1) + c.hour
  }

  /** A day before 10000-01-01 falls in a year a `datetime` can hold. */
  lemma YearInRange(z: int, y: int)
    requires DaysBeforeYear(y) <= z < DaysBeforeYear(MaxYear + 1)
    ensures y <= MaxYear
  {
    if y > MaxYear {
      DaysBeforeYearMonotone(MaxYear + 1, y);
    }
  }

  /** The broken-down form of hour `h`: the calendar conversion `datetime` performs. */
  function CivilOfHour(h: int): (c: CivilHour)
    requires 0 <= h
    ensures 1 <= c.year && 1 <= c.month && 1 <= c.day && 0 <= c.hour
  {
    var yd := YearAndDay(h / 24, 1);
    var md := MonthAndDay(yd.1, yd.0, 1);
    CivilHour(yd.0, md.0, md.1 + 1, h % 24)
  }

  /** A representable hour converts to a representable broken-down hour that denotes it. */
  lemma CivilOfHourCorrect(h: int)
    requires ValidHour(h)
    ensures ValidCivil(CivilOfHour(h)) && HourOfCivil(CivilOfHour(h)) == h
  {
    var z := h / 24;
    YearAndDayCorrect(z, 1);
    var yd := YearAndDay(z, 1);
    YearInRange(z, yd.0);
    MonthAndDayCorrect(yd.1, yd.0, 1);
  }

  /** Every representable broken-down hour is the conversion of exactly one hour. */
  lemma CivilOfHourOfCivil(c: CivilHour)
    requires ValidCivil(c)
    ensures CivilOfHour(HourOfCivil(c)) == c
  {
    var h := HourOfCivil(c);
    CivilOfHourCorrect(h);
    var d := CivilOfHour(h);
    var z := DaysBeforeYear(c.year) + DaysBeforeMonth(c.year, c.month) + c.day - 1;
    assert h / 24 == z && h % 24 == c.hour;
    assert z == DaysBeforeYear(d.year) + DaysBeforeMonth(d.year, d.month) + d.day - 1;
    DaysBeforeNextMonth(c.year, c.month);
    DaysBeforeMonthMonotone(c.year, c.month + 1, 13);
    DaysBeforeNextYear(c.year);
    DaysBeforeNextMonth(d.year, d.month);
    DaysBeforeMonthMonotone(d.year, d.month + 1, 13);
    DaysBeforeNextYear(d.year);
    YearOfDayUnique(z, c.year, d.year);
    MonthOfDayUnique(c.year, z - DaysBeforeYear(c.year), c.month, d.month);
  }

  // Zero-padded decimal fields, as `%Y` (four digits) and `%m %d %H` (two) print them.

  predicate IsDigit(ch: char) {
    '0' <= ch <= '9'
  }

  predicate IsDigitString(s: string) {
    forall i | 0 <= i < |s| :: IsDigit(s[i])
  }

  function DigitChar(d: int): (ch: char)
    requires 0 <= d < 10
    ensures IsDigit(ch) && ch as int - '0' as int == d
  {
    ('0' as int + d) as char
  }

  function Pow10(w: nat): (p: nat)
    ensures p > 0
  {
    if w == 0 then 1 else 10 * Pow10(w - 1)
  }

  /** The last `width` decimal digits of `n`, padded on the left with zeros. */
  function PadDigits(n: nat, width: nat): (s: string)
    ensures |s| == width && IsDigitString(s)
  {
    if width == 0 then "" else PadDigits(n / 10, width - 1) + [DigitChar(n % 10)]
  }

  /** The number a string of decimal digits denotes. */
  function DigitsValue(s: string): nat
    requires IsDigitString(s)
  {
    if s == "" then 0 else 10 * DigitsValue(s[..|s| - 1]) + (s[|s| - 1] as int - '0' as int)
  }

  lemma {:induction false} DigitsValueOfPad(n: nat, width: nat)
    requires n < Pow10(width)
    ensures DigitsValue(PadDigits(n, width)) == n
  {
    if width > 0 {
      var s := PadDigits(n, width);
      assert s[..|s| - 1] == PadDigits(n / 10, width - 1);
      DigitsValueOfPad(n / 10, width - 1);
    }
  }

  lemma {:induction false} PadOfDigitsValue(s: string)
    requires IsDigitString(s)
    ensures DigitsValue(s) < Pow10(|s|) && PadDigits(DigitsValue(s), |s|) == s
  {
    if s != "" {
      var init := s[..|s| - 1];
      PadOfDigitsValue(init);
      var d := s[|s| - 1] as int - '0' as int;
      assert DigitsValue(s) / 10 == DigitsValue(init) && DigitsValue(s) % 10 == d;
      assert s == init + [s[|s| - 1]];
    }
  }

  /** `strftime('%Y-%m-%d-%H').split('-')` of hour `h`. */
  function HourTuple(h: int): (t: seq<string>)
    requires ValidHour(h)
    ensures |t| == 4 && |t[0]| == 4 && |t[1]| == 2 && |t[2]| == 2 && |t[3]| == 2
    ensures forall i | 0 <= i < 4 :: IsDigitString(t[i])
  {
    var c := CivilOfHour(h);
    [PadDigits(c.year, 4), PadDigits(c.month, 2), PadDigits(c.day, 2), PadDigits(c.hour, 2)]
  }

  /** Reads a `[YYYY, MM, DD, HH]` partition tuple back as an hour; `None` when it names no representable hour. */
  function ParseHourTuple(t: seq<string>): (r: Option<int>)
    ensures r.Some? ==> ValidHour(r.value)
  {
    if && |t| == 4 && |t[0]| == 4 && |t[1]| == 2 && |t[2]| == 2 && |t[3]| == 2
       && IsDigitString(t[0]) && IsDigitString(t[1]) && IsDigitString(t[2]) && IsDigitString(t[3])
    then
      var c := CivilHour(DigitsValue(t[0]), DigitsValue(t[1]), DigitsValue(t[2]), DigitsValue(t[3]));
      if ValidCivil(c) then Some(HourOfCivil(c)) else None
    else
      None
  }

  /** Formatting an hour and reading it back gives the same hour. */
  lemma ParseOfHourTuple(h: int)
    requires ValidHour(h)
    ensures ParseHourTuple(HourTuple(h)) == Some(h)
  {
    CivilOfHourCorrect(h);
    var c := CivilOfHour(h);
    var t := HourTuple(h);
    assert Pow10(2) == 100 && Pow10(4) == 10000;
    DigitsValueOfPad(c.year, 4);
    DigitsValueOfPad(c.month, 2);
    DigitsValueOfPad(c.day, 2);
    DigitsValueOfPad(c.hour, 2);
    assert CivilHour(DigitsValue(t[0]), DigitsValue(t[1]), DigitsValue(t[2]), DigitsValue(t[3])) == c;
  }

  /** A tuple that reads as an hour is exactly that hour's formatting. */
  lemma HourTupleOfParse(t: seq<string>)
    requires ParseHourTuple(t).Some?
    ensures HourTuple(ParseHourTuple(t).value) == t
  {
    var c := CivilHour(DigitsValue(t[0]), DigitsValue(t[1]), DigitsValue(t[2]), DigitsValue(t[3]));
    CivilOfHourOfCivil(c);
    PadOfDigitsValue(t[0]);
    PadOfDigitsValue(t[1]);
    PadOfDigitsValue(t[2]);
    PadOfDigitsValue(t[3]);
    var u := HourTuple(ParseHourTuple(t).value);
    assert u[0] == t[0] && u[1] == t[1] && u[2] == t[2] && u[3] == t[3];
  }

  /** Distinct hours have distinct partition tuples. */
  lemma HourTupleInjective(a: int, b: int)
    requires ValidHour(a) && ValidHour(b)
    requires HourTuple(a) == HourTuple(b)
    ensures a == b
  {
    ParseOfHourTuple(a);
    ParseOfHourTuple(b);
  }
}
