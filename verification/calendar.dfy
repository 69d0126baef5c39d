/** Proleptic Gregorian calendar on Python's day numbers: day 1 is 0001-01-01,
    the largest representable day is 9999-12-31, and `weekday` counts Monday as 0.
    Also the ISO 8601 extended calendar-date text `YYYY-MM-DD` (section 4.1.2.2 of
    ISO 8601:2004) that `strftime("%Y-%m-%d")` produces. */
module Calendar {
  import opened Wrappers
  import opened PyText

  const MaxYear := 9999
  /** Day number of 9999-12-31, `date.max.toordinal()`. */
  const MaxOrdinal := 3652059

  const Monday := 0
  const Wednesday := 2

  datatype Civil = Civil(year: int, month: int, day: int)

  predicate IsLeap(y: int) {
    y % 4 == 0 && (y % 100 != 0 || y % 400 == 0)
  }

  function DaysInYear(y: int): int {
    if IsLeap(y) then 366 else 365
  }

  function DaysInMonth(y: int, m: int): int
    requires 1 <= m <= 12
  {
    if m == 2 then (if IsLeap(y) then 29 else 28)
    else if m == 4 || m == 6 || m == 9 || m == 11 then 30
    else 31
  }

  predicate ValidCivil(c: Civil) {
    1 <= c.year <= MaxYear && 1 <= c.month <= 12 && 1 <= c.day <= DaysInMonth(c.year, c.month)
  }

  /** Days in the years before `y`. */
  function DaysBeforeYear(y: int): int
    requires y >= 1
  {
    var p := y - 1;
    p * 365 + p / 4 - p / 100 + p / 400
  }

  /** Days in the months of year `y` before month `m`; month 13 closes the year. */
  function DaysBeforeMonth(y: int, m: int): int
    requires 1 <= m <= 13
  {
    [0, 31, 59, 90, 120, 151, 181, 212, 243, 273, 304, 334, 365][m - 1]
    + (if m > 2 && IsLeap(y) then 1 else 0)
  }

  /** `date(y, m, d).toordinal()`. */
  function ToOrdinal(c: Civil): int
    requires ValidCivil(c)
  {
    DaysBeforeYear(c.year) + DaysBeforeMonth(c.year, c.month) + c.day
  }

  /** `date.weekday()` of day number `d`: 0 is Monday, 2 is Wednesday. */
  function Weekday(d: int): (w: int)
    ensures 0 <= w < 7
  {
    (d + 6) % 7
  }

  lemma MulAtLeast(k: int, d: int)
    requires k >= 1 && d > 0
    ensures k * d >= d
  {
    assert k * d == d + (k - 1) * d;
  }

  /** Quotient and remainder are the unique pair with `0 <= r < d`. */
  lemma DivUnique(x: int, d: int, q: int, r: int)
    requires d > 0 && 0 <= r < d && x == q * d + r
    ensures x / d == q && x % d == r
  {
    var q', r' := x / d, x % d;
    assert (q - q') * d == r' - r;
    if q > q' {
      MulAtLeast(q - q', d);
    } else if q < q' {
      MulAtLeast(q' - q, d);
    }
  }

  /** Counting up to `x` gains a multiple of `d` over counting up to `x - 1`
      exactly when `x` is one. */
  lemma DivStep(x: int, d: int)
    requires x >= 1 && d > 0
    ensures x / d == (x - 1) / d + (if x % d == 0 then 1 else 0)
  {
    var q, r := (x - 1) / d, (x - 1) % d;
    if r == d - 1 {
      DivUnique(x, d, q + 1, 0);
    } else {
      DivUnique(x, d, q, r + 1);
    }
  }

  lemma YearStep(y: int)
    requires y >= 1
    ensures DaysBeforeYear(y + 1) == DaysBeforeYear(y) + DaysInYear(y)
  {
    DivStep(y, 4);
    DivStep(y, 100);
    DivStep(y, 400);
    if y % 100 == 0 {
      DivUnique(y, 4, 25 * (y / 100), 0);
    }
    if y % 400 == 0 {
      DivUnique(y, 100, 4 * (y / 400), 0);
    }
  }

  lemma MonthStep(y: int, m: int)
    requires 1 <= m <= 12
    ensures DaysBeforeMonth(y, m + 1) == DaysBeforeMonth(y, m) + DaysInMonth(y, m)
  {
  }

  /** Years are laid end to end: every day of an earlier year comes before every day of a later one. */
  lemma {:induction false} YearsOrdered(a: int, b: int)
    requires 1 <= a < b
    ensures DaysBeforeYear(a + 1) <= DaysBeforeYear(b)
    decreases b - a
  {
    if a + 1 < b {
      YearsOrdered(a, b - 1);
      YearStep(b - 1);
    }
  }

  lemma {:induction false} MonthsOrdered(y: int, a: int, b: int)
    requires 1 <= a < b <= 13
    ensures DaysBeforeMonth(y, a + 1) <= DaysBeforeMonth(y, b)
    decreases b - a
  {
    if a + 1 < b {
      MonthsOrdered(y, a, b - 1);
      MonthStep(y, b - 1);
    }
  }

  /** The year holding day `n`, searching upward from `y`. */
  function YearFrom(n: int, y: int): (r: int)
    requires 1 <= y <= MaxYear
    requires DaysBeforeYear(y) < n <= DaysBeforeYear(MaxYear + 1)
    ensures y <= r <= MaxYear
    ensures DaysBeforeYear(r) < n <= DaysBeforeYear(r + 1)
    decreases MaxYear - y
  {
    if n <= DaysBeforeYear(y + 1) then y else YearFrom(n, y + 1)
  }

  /** The month holding day `rem` of year `y`, searching upward from `m`. */
  function MonthFrom(y: int, rem: int, m: int): (r: int)
    requires 1 <= m <= 12
    requires DaysBeforeMonth(y, m) < rem <= DaysBeforeMonth(y, 13)
    ensures m <= r <= 12
    ensures DaysBeforeMonth(y, r) < rem <= DaysBeforeMonth(y, r + 1)
    decreases 12 - m
  {
    if rem <= DaysBeforeMonth(y, m + 1) then m else MonthFrom(y, rem, m + 1)
  }

  /** No year has more than 366 days, so the years before `y` hold at most `366 * (y - 1)`. */
  lemma DaysBeforeYearAtMost(y: int)
    requires y >= 1
    ensures DaysBeforeYear(y) <= 366 * (y - 1)
  {
    var p := y - 1;
    assert p / 4 - p / 100 + p / 400 <= p;
  }

  /** `date.fromordinal(n)`: the calendar date of day number `n`. The year search
      starts from `(n - 1) / 366 + 1`, a year that cannot yet hold day `n`. */
  function FromOrdinal(n: int): (c: Civil)
    requires 1 <= n <= MaxOrdinal
    ensures ValidCivil(c)
    ensures ToOrdinal(c) == n
  {
    var y0 := (n - 1) / 366 + 1;
    DaysBeforeYearAtMost(y0);
    var y := YearFrom(n, y0);
    YearStep(y);
    var rem := n - DaysBeforeYear(y);
    var m := MonthFrom(y, rem, 1);
    MonthStep(y, m);
    Civil(y, m, rem - DaysBeforeMonth(y, m))
  }

  /** A valid date's day number lies within its year, and its day of the year
      within its month. */
  lemma OrdinalWithin(c: Civil)
    requires ValidCivil(c)
    ensures DaysBeforeYear(c.year) < ToOrdinal(c) <= DaysBeforeYear(c.year + 1)
    ensures DaysBeforeMonth(c.year, c.month) < ToOrdinal(c) - DaysBeforeYear(c.year) <= DaysBeforeMonth(c.year, c.month + 1)
  {
    MonthStep(c.year, c.month);
    MonthsOrdered(c.year, c.month, 13);
    YearStep(c.year);
  }

  /** Two valid dates with the same day number fall in the same year. */
  lemma SameOrdinalSameYear(a: Civil, b: Civil)
    requires ValidCivil(a) && ValidCivil(b) && ToOrdinal(a) == ToOrdinal(b)
    ensures a.year == b.year
  {
    OrdinalWithin(a);
    OrdinalWithin(b);
    if a.year < b.year {
      YearsOrdered(a.year, b.year);
    } else if a.year > b.year {
      YearsOrdered(b.year, a.year);
    }
  }

  /** Day numbering is one-to-one on valid dates. */
  lemma OrdinalInjective(a: Civil, b: Civil)
    requires ValidCivil(a) && ValidCivil(b)
    requires ToOrdinal(a) == ToOrdinal(b)
    ensures a == b
  {
    SameOrdinalSameYear(a, b);
    OrdinalWithin(a);
    OrdinalWithin(b);
    if a.month < b.month {
      MonthsOrdered(a.year, a.month, b.month);
    } else if a.month > b.month {
      MonthsOrdered(a.year, b.month, a.month);
    }
  }

  /** Every valid date has a day number in range, and numbering loses nothing:
      `fromordinal(toordinal(c)) == c`. */
  lemma CivilRoundTrip(c: Civil)
    requires ValidCivil(c)
    ensures 1 <= ToOrdinal(c) <= MaxOrdinal
    ensures FromOrdinal(ToOrdinal(c)) == c
  {
    OrdinalWithin(c);
    if c.year < MaxYear {
      YearsOrdered(c.year, MaxYear + 1);
    }
    OrdinalInjective(c, FromOrdinal(ToOrdinal(c)));
  }

  /** Two ASCII digits, zero-padded. */
  function Pad2(v: int): (r: string)
    requires 0 <= v < 100
    ensures |r| == 2 && IsDigits(r)
    ensures DecimalValue(r) == v
  {
    var hi, lo := [DigitChar(v / 10)], [DigitChar(v % 10)];
    DecimalConcat(hi, lo);
    assert DecimalValue(hi) == v / 10 && DecimalValue(lo) == v % 10;
    assert Pow10(1) == 10;
    hi + lo
  }

  /** Four ASCII digits, zero-padded. */
  function Pad4(v: int): (r: string)
    requires 0 <= v < 10000
    ensures |r| == 4 && IsDigits(r)
    ensures DecimalValue(r) == v
  {
    var hi, lo := Pad2(v / 100), Pad2(v % 100);
    var r := hi + lo;
    assert IsDigits(r) by {
      assert forall k :: 0 <= k < |r| ==> r[k] == if k < 2 then hi[k] else lo[k - 2];
    }
    DecimalConcat(hi, lo);
    assert Pow10(|lo|) == 100 by { assert Pow10(2) == 100; }
    assert DecimalValue(r) == (v / 100) * 100 + v % 100 by {
      var x := DecimalValue(hi);
      assert x * Pow10(|lo|) == x * 100;
    }
    r
  }

  /** `strftime("%Y-%m-%d")` of day number `n`. */
  function IsoDate(n: int): (r: string)
    requires 1 <= n <= MaxOrdinal
    ensures |r| == 10 && r[4] == '-' && r[7] == '-'
  {
    var c := FromOrdinal(n);
    Pad4(c.year) + "-" + Pad2(c.month) + "-" + Pad2(c.day)
  }

  predicate DigitsAt(s: string, lo: int, hi: int)
    requires 0 <= lo <= hi <= |s|
  {
    forall k :: lo <= k < hi ==> IsDigit(s[k])
  }

  /** Reads an ISO 8601 extended calendar date `YYYY-MM-DD` back to its day number. */
  function ParseIsoDate(s: string): (r: Option<int>)
    ensures r.Some? ==> 1 <= r.value <= MaxOrdinal
  {
    if |s| == 10 && s[4] == '-' && s[7] == '-' && DigitsAt(s, 0, 4) && DigitsAt(s, 5, 7) && DigitsAt(s, 8, 10) then
      var c := Civil(DecimalValue(s[0..4]), DecimalValue(s[5..7]), DecimalValue(s[8..10]));
      if ValidCivil(c) then CivilRoundTrip(c); Some(ToOrdinal(c)) else None
    else None
  }

  /** `YYYY-MM-DD` assembled from digit fields reads as the date the fields name,
      when there is one. */
  lemma IsoFields(y: string, m: string, d: string)
    requires |y| == 4 && |m| == 2 && |d| == 2
    requires IsDigits(y) && IsDigits(m) && IsDigits(d)
    ensures var c := Civil(DecimalValue(y), DecimalValue(m), DecimalValue(d));
      ParseIsoDate(y + "-" + m + "-" + d) == if ValidCivil(c) then Some(ToOrdinal(c)) else None
  {
    var s := y + "-" + m + "-" + d;
    assert s[0..4] == y && s[5..7] == m && s[8..10] == d;
    assert s[4] == '-' && s[7] == '-';
    assert DigitsAt(s, 0, 4) && DigitsAt(s, 5, 7) && DigitsAt(s, 8, 10) by {
      assert forall k :: 0 <= k < 4 ==> s[k] == y[k];
      assert forall k :: 5 <= k < 7 ==> s[k] == m[k - 5];
      assert forall k :: 8 <= k < 10 ==> s[k] == d[k - 8];
    }
  }

  /** The rendered date reads back to the day it renders. */
  lemma IsoDateRoundTrip(n: int)
    requires 1 <= n <= MaxOrdinal
    ensures ParseIsoDate(IsoDate(n)) == Some(n)
  {
    var c := FromOrdinal(n);
    IsoFields(Pad4(c.year), Pad2(c.month), Pad2(c.day));
  }

  /** The text of the rendered date spells out its year, month and day. */
  lemma IsoDateOfCivil(c: Civil)
    requires ValidCivil(c)
    ensures 1 <= ToOrdinal(c) <= MaxOrdinal
    ensures IsoDate(ToOrdinal(c)) == Pad4(c.year) + "-" + Pad2(c.month) + "-" + Pad2(c.day)
  {
    CivilRoundTrip(c);
  }
}
