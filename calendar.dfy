/** Calendar dates and instants as JavaScript `Date` values behave in one time zone: a proleptic
    Gregorian day plus the milliseconds elapsed since that day's midnight. Also the two date-fns helpers
    the core uses, `addMonths` and `isSameMonth`. */
module Calendar {

  /** A (year, month, day) triple; `month` and `day` count from 1. */
  datatype Date = Date(year: int, month: int, day: int)

  predicate IsLeapYear(y: int)
  {
    y % 4 == 0 && (y % 100 != 0 || y % 400 == 0)
  }

  function DaysInMonth(y: int, m: int): (n: int)
    requires 1 <= m <= 12
    ensures 28 <= n <= 31
    ensures n == 29 <==> m == 2 && IsLeapYear(y)
  {
    if m == 2 then (if IsLeapYear(y) then 29 else 28)
    else if m == 4 || m == 6 || m == 9 || m == 11 then 30
    else 31
  }

  /** The date names a real calendar day. */
  predicate ValidDate(d: Date)
  {
    1 <= d.month <= 12 && 1 <= d.day <= DaysInMonth(d.year, d.month)
  }

  type CalendarDate = d: Date | ValidDate(d) witness Date(1970, 1, 1)

  function DaysInYear(y: int): int
  {
    if IsLeapYear(y) then 366 else 365
  }

  /** Days from 0001-01-01 to the first day of year `y` (negative for earlier years). */
  function DaysBeforeYear(y: int): int
  {
    var p := y - 1;
    365 * p + p / 4 - p / 100 + p / 400
  }

  /** Days from the first of January of year `y` to the first day of month `m`. */
  function DaysBeforeMonth(y: int, m: int): int
    requires 1 <= m <= 12
  {
    [0, 31, 59, 90, 120, 151, 181, 212, 243, 273, 304, 334][m - 1] + (if m > 2 && IsLeapYear(y) then 1 else 0)
  }

  /** Consecutive days get consecutive numbers: 0001-01-01 is day 0. */
  function DayNumber(d: CalendarDate): int
  {
    DaysBeforeYear(d.year) + DaysBeforeMonth(d.year, d.month) + d.day - 1
  }

  /** Calendar order: year, then month, then day. */
  predicate DateBefore(a: Date, b: Date)
  {
    || a.year < b.year
    || (a.year == b.year && a.month < b.month)
    || (a.year == b.year && a.month == b.month && a.day < b.day)
  }

  lemma YearStep(y: int)
    ensures DaysBeforeYear(y + 1) == DaysBeforeYear(y) + DaysInYear(y)
  {
    var p := y - 1;
    DivStep(p, 4);
    DivStep(p, 100);
    DivStep(p, 400);
    Divisibility(y);
    var d4, d100, d400 := y / 4 - p / 4, y / 100 - p / 100, y / 400 - p / 400;
    assert d4 - d100 + d400 == if IsLeapYear(y) then 1 else 0;
    assert DaysBeforeYear(y + 1) == 365 * y + y / 4 - y / 100 + y / 400;
    assert DaysBeforeYear(y) == 365 * p + p / 4 - p / 100 + p / 400;
  }

  /** A multiple of 400 is a multiple of 100, and a multiple of 100 is a multiple of 4. */
  lemma Divisibility(y: int)
    ensures y % 400 == 0 ==> y % 100 == 0
    ensures y % 100 == 0 ==> y % 4 == 0
  {
    if y % 400 == 0 {
      var q := y / 400;
      assert y == 100 * (4 * q);
    }
    if y % 100 == 0 {
      var q := y / 100;
      assert y == 4 * (25 * q);
    }
  }

  /** Going up by one crosses a multiple of `k` exactly when the new value is that multiple. */
  lemma DivStep(p: int, k: int)
    requires k == 4 || k == 100 || k == 400
    ensures (p + 1) / k == p / k + (if (p + 1) % k == 0 then 1 else 0)
  {
    if k == 4 {
    } else if k == 100 {
    } else {
    }
  }

  lemma {:induction false} YearsBefore(y1: int, y2: int)
    requires y1 < y2
    ensures DaysBeforeYear(y1) + DaysInYear(y1) <= DaysBeforeYear(y2)
    decreases y2 - y1
  {
    YearStep(y1);
    if y1 + 1 < y2 {
      YearsBefore(y1 + 1, y2);
    }
  }

  lemma MonthStep(y: int, m: int)
    requires 1 <= m <= 12
    ensures m < 12 ==> DaysBeforeMonth(y, m + 1) == DaysBeforeMonth(y, m) + DaysInMonth(y, m)
    ensures m == 12 ==> DaysBeforeMonth(y, m) + DaysInMonth(y, m) == DaysInYear(y)
  {
  }

  lemma {:induction false} MonthsBefore(y: int, m1: int, m2: int)
    requires 1 <= m1 < m2 <= 12
    ensures DaysBeforeMonth(y, m1) + DaysInMonth(y, m1) <= DaysBeforeMonth(y, m2)
    decreases m2 - m1
  {
    MonthStep(y, m1);
    if m1 + 1 < m2 {
      MonthsBefore(y, m1 + 1, m2);
    }
  }

  lemma DayNumberBefore(a: CalendarDate, b: CalendarDate)
    requires DateBefore(a, b)
    ensures DayNumber(a) < DayNumber(b)
  {
    if a.year < b.year {
      MonthsInYear(a.year, a.month);
      YearsBefore(a.year, b.year);
    } else if a.month < b.month {
      MonthsBefore(a.year, a.month, b.month);
    }
  }

  lemma MonthsInYear(y: int, m: int)
    requires 1 <= m <= 12
    ensures DaysBeforeMonth(y, m) + DaysInMonth(y, m) <= DaysInYear(y)
  {
    if m < 12 {
      MonthsBefore(y, m, 12);
    }
    MonthStep(y, 12);
  }

  /** Day numbers order dates exactly as the calendar does, and name each date once. */
  lemma DayNumberOrder(a: CalendarDate, b: CalendarDate)
    ensures DateBefore(a, b) <==> DayNumber(a) < DayNumber(b)
    ensures a == b <==> DayNumber(a) == DayNumber(b)
  {
    if DateBefore(a, b) {
      DayNumberBefore(a, b);
    } else if DateBefore(b, a) {
      DayNumberBefore(b, a);
    } else {
      assert a == b;
    }
  }

  const MsPerDay: int := 86400000

  type TimeOfDay = n: int | 0 <= n < MsPerDay

  /** A JavaScript `Date`: a calendar day and the milliseconds since its midnight. */
  datatype Instant = Instant(date: CalendarDate, ms: TimeOfDay)

  /** The day at 00:00, as date-fns `parse` returns it. */
  function Midnight(d: CalendarDate): Instant
  {
    Instant(d, 0)
  }

  /** The number a `Date` compares and subtracts by. It counts from 0001-01-01 rather than from 1970-01-01;
      the constant shift changes no comparison and no difference. */
  function TimeValue(t: Instant): (v: int)
    ensures v / MsPerDay == DayNumber(t.date) && v % MsPerDay == t.ms
  {
    DayNumber(t.date) * MsPerDay + t.ms
  }

  /** Comparing time values compares the day first and the time of day second. */
  lemma TimeValueOrder(a: Instant, b: Instant)
    ensures TimeValue(a) < TimeValue(b) <==> DateBefore(a.date, b.date) || (a.date == b.date && a.ms < b.ms)
    ensures TimeValue(a) == TimeValue(b) <==> a == b
  {
    DayNumberOrder(a.date, b.date);
  }

  /** Months counted from January of year 0, so that consecutive months get consecutive numbers. */
  function MonthIndex(d: Date): int
  {
    d.year * 12 + d.month - 1
  }

  /** date-fns `isSameMonth`: the same year and the same month. */
  predicate IsSameMonth(a: Date, b: Date): (same: bool)
    ensures same ==> MonthIndex(a) == MonthIndex(b)
  {
    a.year == b.year && a.month == b.month
  }

  lemma SameMonthIndex(a: Date, b: Date)
    requires 1 <= a.month <= 12 && 1 <= b.month <= 12
    ensures IsSameMonth(a, b) <==> MonthIndex(a) == MonthIndex(b)
  {
  }

  /** date-fns `addMonths` for a non-negative amount: the same time of day `n` months later, the day of the
      month clamped to the length of the target month. */
  function AddMonths(t: Instant, n: nat): (r: Instant)
    ensures MonthIndex(r.date) == MonthIndex(t.date) + n
    ensures r.ms == t.ms
    ensures r.date.day <= t.date.day
    ensures r.date.day == t.date.day || r.date.day == DaysInMonth(r.date.year, r.date.month)
  {
    var target := MonthIndex(t.date) + n;
    var y := target / 12;
    var m := target % 12 + 1;
    var last := DaysInMonth(y, m);
    Instant(Date(y, m, if t.date.day >= last then last else t.date.day), t.ms)
  }

  /** `addMonths` by one or two rolls December (and November, by two) over into the next year. */
  lemma AddMonthsRollover(t: Instant, n: nat)
    requires n <= 12
    ensures t.date.month + n <= 12 ==>
      AddMonths(t, n).date.year == t.date.year && AddMonths(t, n).date.month == t.date.month + n
    ensures t.date.month + n > 12 ==>
      AddMonths(t, n).date.year == t.date.year + 1 && AddMonths(t, n).date.month == t.date.month + n - 12
  {
    var r := AddMonths(t, n);
    var y, m := t.date.year, t.date.month;
    if m + n <= 12 {
      SameMonthIndex(r.date, Date(y, m + n, 1));
    } else {
      SameMonthIndex(r.date, Date(y + 1, m + n - 12, 1));
    }
  }
}
