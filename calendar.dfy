/**
 * The proleptic Gregorian calendar, with days counted as ordinals the way
 * Python's date.toordinal() counts them (0001-01-01 is day 1). Attendance
 * dates are ordinals; the monthly summary needs their year and month.
 */
module Calendar {

  predicate IsLeap(y: int)
  {
    y % 4 == 0 && (y % 100 != 0 || y % 400 == 0)
  }

  function YearLength(y: int): int
  {
    if IsLeap(y) then 366 else 365
  }

  function MonthLength(y: int, m: int): (n: int)
    requires 1 <= m <= 12
    ensures 28 <= n <= 31
  {
    if m == 2 then (if IsLeap(y) then 29 else 28)
    else if m == 4 || m == 6 || m == 9 || m == 11 then 30
    else 31
  }

  /** Days of year y that come before the first of month m (m == 13 is the year's end). */
  function DaysBeforeMonth(y: int, m: int): int
    requires 1 <= m <= 13
  {
    if m == 1 then 0 else DaysBeforeMonth(y, m - 1) + MonthLength(y, m - 1)
  }

  /** The twelve months fill the year exactly. */
  lemma MonthsFillYear(y: int)
    ensures DaysBeforeMonth(y, 13) == YearLength(y)
  {
    assert DaysBeforeMonth(y, 2) == 31;
    assert DaysBeforeMonth(y, 3) == 31 + MonthLength(y, 2);
    assert DaysBeforeMonth(y, 4) == DaysBeforeMonth(y, 3) + 31;
    assert DaysBeforeMonth(y, 5) == DaysBeforeMonth(y, 4) + 30;
    assert DaysBeforeMonth(y, 6) == DaysBeforeMonth(y, 5) + 31;
    assert DaysBeforeMonth(y, 7) == DaysBeforeMonth(y, 6) + 30;
    assert DaysBeforeMonth(y, 8) == DaysBeforeMonth(y, 7) + 31;
    assert DaysBeforeMonth(y, 9) == DaysBeforeMonth(y, 8) + 31;
    assert DaysBeforeMonth(y, 10) == DaysBeforeMonth(y, 9) + 30;
    assert DaysBeforeMonth(y, 11) == DaysBeforeMonth(y, 10) + 31;
    assert DaysBeforeMonth(y, 12) == DaysBeforeMonth(y, 11) + 30;
    assert DaysBeforeMonth(y, 13) == DaysBeforeMonth(y, 12) + 31;
  }

  /** The ordinal of the last day of year y - 1. */
  function DaysBeforeYear(y: int): int
    decreases if y >= 1 then y - 1 else 1 - y
  {
    if y == 1 then 0
    else if y > 1 then DaysBeforeYear(y - 1) + YearLength(y - 1)
    else DaysBeforeYear(y + 1) - YearLength(y)
  }

  lemma {:induction false} NextYear(y: int)
    ensures DaysBeforeYear(y + 1) == DaysBeforeYear(y) + YearLength(y)
  {
  }

  datatype Date = Date(year: int, month: int, day: int)

  predicate ValidDate(d: Date)
  {
    1 <= d.month <= 12 && 1 <= d.day <= MonthLength(d.year, d.month)
  }

  /** date.toordinal(). */
  function ToOrdinal(d: Date): int
    requires ValidDate(d)
  {
    DaysBeforeYear(d.year) + DaysBeforeMonth(d.year, d.month) + d.day
  }

  /** The year holding day n of year y (n may fall before or after year y), and
      the day of that year. */
  function LocateYear(n: int, y: int): (r: (int, int))
    ensures 1 <= r.1 <= YearLength(r.0)
    ensures DaysBeforeYear(r.0) + r.1 == DaysBeforeYear(y) + n
    decreases if n < 1 then 1 - n else 0, if n >= 1 then n else 0
  {
    if n < 1 then
      NextYear(y - 1);
      LocateYear(n + YearLength(y - 1), y - 1)
    else if n > YearLength(y) then
      NextYear(y);
      LocateYear(n - YearLength(y), y + 1)
    else (y, n)
  }

  /** The month holding day doy of year y, counted from the first of month m, and
      the day of that month. */
  function LocateMonth(y: int, doy: int, m: int): (r: (int, int))
    requires 1 <= m <= 12 && 1 <= doy && DaysBeforeMonth(y, m) + doy <= YearLength(y)
    ensures 1 <= r.0 <= 12 && 1 <= r.1 <= MonthLength(y, r.0)
    ensures DaysBeforeMonth(y, r.0) + r.1 == DaysBeforeMonth(y, m) + doy
    decreases 12 - m
  {
    if doy <= MonthLength(y, m) then (m, doy)
    else
      MonthsFillYear(y);
      LocateMonth(y, doy - MonthLength(y, m), m + 1)
  }

  /** date.fromordinal(n). */
  function FromOrdinal(n: int): (d: Date)
    ensures ValidDate(d) && ToOrdinal(d) == n
  {
    var yd := LocateYear(n, 1);
    MonthsFillYear(yd.0);
    var md := LocateMonth(yd.0, yd.1, 1);
    Date(yd.0, md.0, md.1)
  }

  lemma {:induction false} DaysBeforeYearMonotone(a: int, b: int)
    requires a <= b
    ensures DaysBeforeYear(a) + (b - a) * 365 <= DaysBeforeYear(b)
    decreases b - a
  {
    if a < b {
      DaysBeforeYearMonotone(a, b - 1);
      NextYear(b - 1);
    }
  }

  lemma {:induction false} DaysBeforeMonthMonotone(y: int, a: int, b: int)
    requires 1 <= a <= b <= 13
    ensures DaysBeforeMonth(y, a) + (b - a) * 28 <= DaysBeforeMonth(y, b)
    decreases b - a
  {
    if a < b {
      DaysBeforeMonthMonotone(y, a, b - 1);
    }
  }

  /** A date of an earlier year has a smaller ordinal. */
  lemma EarlierYear(a: Date, b: Date)
    requires ValidDate(a) && ValidDate(b) && a.year < b.year
    ensures ToOrdinal(a) < ToOrdinal(b)
  {
    MonthsFillYear(a.year);
    DaysBeforeMonthMonotone(a.year, a.month + 1, 13);
    assert DaysBeforeMonth(a.year, a.month + 1) == DaysBeforeMonth(a.year, a.month) + MonthLength(a.year, a.month);
    DaysBeforeMonthMonotone(b.year, 1, b.month);
    DaysBeforeYearMonotone(a.year + 1, b.year);
    NextYear(a.year);
  }

  /** Within a year, a date of an earlier month has a smaller ordinal. */
  lemma EarlierMonth(a: Date, b: Date)
    requires ValidDate(a) && ValidDate(b) && a.year == b.year && a.month < b.month
    ensures ToOrdinal(a) < ToOrdinal(b)
  {
    DaysBeforeMonthMonotone(a.year, a.month + 1, b.month);
    assert DaysBeforeMonth(a.year, a.month + 1) == DaysBeforeMonth(a.year, a.month) + MonthLength(a.year, a.month);
  }

  /** Two valid dates with the same ordinal are the same date. */
  lemma ToOrdinalInjective(a: Date, b: Date)
    requires ValidDate(a) && ValidDate(b) && ToOrdinal(a) == ToOrdinal(b)
    ensures a == b
  {
    if a.year < b.year {
      EarlierYear(a, b);
    } else if b.year < a.year {
      EarlierYear(b, a);
    }
    else if a.month < b.month {
      EarlierMonth(a, b);
    } else if b.month < a.month {
      EarlierMonth(b, a);
    }
  }

  /** Ordinals and dates are in one-to-one correspondence. */
  lemma FromToOrdinal(d: Date)
    requires ValidDate(d)
    ensures FromOrdinal(ToOrdinal(d)) == d
  {
    ToOrdinalInjective(FromOrdinal(ToOrdinal(d)), d);
  }

  /** The ("%Y-%m") period of a date, as year and month. */
  function YearMonthOf(n: int): (ym: (int, int))
    ensures 1 <= ym.1 <= 12
  {
    var d := FromOrdinal(n);
    (d.year, d.month)
  }

  /** The days counted from the first of a month, up to its length, all lie
      in that month: they form one month_year group. */
  lemma DaysOfOneMonth(y: int, m: int, n: int)
    requires 1 <= m <= 12 && 1 <= n <= MonthLength(y, m)
    ensures YearMonthOf(ToOrdinal(Date(y, m, 1)) + (n - 1)) == (y, m)
  {
    var d := Date(y, m, n);
    assert ToOrdinal(d) == ToOrdinal(Date(y, m, 1)) + (n - 1);
    FromToOrdinal(d);
  }
}
