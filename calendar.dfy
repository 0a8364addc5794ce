/**
 * Proleptic Gregorian calendar arithmetic, as Python's `datetime` performs it:
 * a date is turned into its ordinal (0001-01-01 is day 1) and a difference of
 * two date-times is a `timedelta` normalised to whole days plus a remainder of
 * seconds in [0, 86400).
 */
module Calendar {

  const SecondsPerDay: int := 86400
  const SecondsPerHour: int := 3600

  predicate IsLeapYear(y: int) {
    y % 4 == 0 && (y % 100 != 0 || y % 400 == 0)
  }

  function DaysInYear(y: int): nat {
    if IsLeapYear(y) then 366 else 365
  }

  function DaysInMonth(y: int, m: int): nat
    requires 1 <= m <= 12
  {
    if m == 2 then (if IsLeapYear(y) then 29 else 28)
    else if m == 4 || m == 6 || m == 9 || m == 11 then 30
    else 31
  }

  /** Days of year `y` before the first of month `m`: a table of common-year
      offsets plus the leap day once February is past. */
  function DaysBeforeMonth(y: int, m: int): nat
    requires 1 <= m <= 12
  {
    [0, 31, 59, 90, 120, 151, 181, 212, 243, 273, 304, 334][m - 1]
      + (if m > 2 && IsLeapYear(y) then 1 else 0)
  }

  /** Reference definition: the lengths of months 1 .. m-1 added up. */
  function MonthsLength(y: int, m: int): nat
    requires 1 <= m <= 13
  {
    if m == 1 then 0 else MonthsLength(y, m - 1) + DaysInMonth(y, m - 1)
  }

  /** Days from 0001-01-01 to the first of January of year `y`. */
  function DaysBeforeYear(y: int): int
    requires y >= 1
  {
    var p := y - 1;
    p * 365 + p / 4 - p / 100 + p / 400
  }

  /** Reference definition: the lengths of years 1 .. y-1 added up. */
  function YearsLength(y: int): nat
    requires y >= 1
  {
    if y == 1 then 0 else YearsLength(y - 1) + DaysInYear(y - 1)
  }

  lemma MonthStep(y: int, m: int)
    requires 1 <= m < 12
    ensures DaysBeforeMonth(y, m + 1) == DaysBeforeMonth(y, m) + DaysInMonth(y, m)
  {
  }

  /** The offset table agrees with adding up the month lengths. */
  lemma {:induction false} DaysBeforeMonthIsSum(y: int, m: int)
    requires 1 <= m <= 12
    ensures DaysBeforeMonth(y, m) == MonthsLength(y, m)
  {
    if m > 1 {
      DaysBeforeMonthIsSum(y, m - 1);
      MonthStep(y, m - 1);
    }
  }

  /** The twelve months together fill the year. */
  lemma MonthsFillYear(y: int)
    ensures MonthsLength(y, 13) == DaysInYear(y)
  {
    DaysBeforeMonthIsSum(y, 12);
  }

  lemma QuotientStep4(y: int)
    ensures y / 4 == (y - 1) / 4 + (if y % 4 == 0 then 1 else 0)
  {
  }

  lemma QuotientStep100(y: int)
    ensures y / 100 == (y - 1) / 100 + (if y % 100 == 0 then 1 else 0)
  {
  }

  lemma QuotientStep400(y: int)
    ensures y / 400 == (y - 1) / 400 + (if y % 400 == 0 then 1 else 0)
  {
  }

  /** A multiple of `a * b` is a multiple of `a`. */
  lemma MultipleOfFactor(y: int, a: int, b: int)
    requires a > 0 && b > 0 && y % (a * b) == 0
    ensures y % a == 0
  {
    var k := y / (a * b);
    assert y == (a * b) * k;
    assert y == a * (b * k);
    var m := b * k;
    assert (y - a * m) == 0;
  }

  /** Every fourth century year is a century year, and every century year
      is divisible by four. */
  lemma DivisorsNest(y: int)
    ensures y % 400 == 0 ==> y % 100 == 0
    ensures y % 100 == 0 ==> y % 4 == 0
  {
    if y % 400 == 0 {
      MultipleOfFactor(y, 100, 4);
    }
    if y % 100 == 0 {
      MultipleOfFactor(y, 4, 25);
    }
  }

  lemma YearStep(y: int)
    requires y >= 1
    ensures DaysBeforeYear(y + 1) == DaysBeforeYear(y) + DaysInYear(y)
  {
    var p := y - 1;
    QuotientStep4(y);
    QuotientStep100(y);
    QuotientStep400(y);
    DivisorsNest(y);
    var leap := (if y % 4 == 0 then 1 else 0) - (if y % 100 == 0 then 1 else 0) + (if y % 400 == 0 then 1 else 0);
    assert DaysInYear(y) == 365 + leap;
    assert DaysBeforeYear(y + 1) == p * 365 + 365 + (y / 4) - (y / 100) + (y / 400);
  }

  /** The closed form used by `datetime` counts exactly the days of the earlier years. */
  lemma {:induction false} DaysBeforeYearIsSum(y: int)
    requires y >= 1
    ensures DaysBeforeYear(y) == YearsLength(y)
  {
    if y > 1 {
      DaysBeforeYearIsSum(y - 1);
      YearStep(y - 1);
    }
  }

  /** A year ends no later than a later year begins. */
  lemma {:induction false} YearsOrdered(y1: int, y2: int)
    requires 1 <= y1 < y2
    ensures DaysBeforeYear(y1) + DaysInYear(y1) <= DaysBeforeYear(y2)
    decreases y2 - y1
  {
    YearStep(y1);
    if y1 + 1 < y2 {
      YearsOrdered(y1 + 1, y2);
    }
  }

  /** A month ends no later than a later month of the same year begins. */
  lemma {:induction false} MonthsOrdered(y: int, m1: int, m2: int)
    requires 1 <= m1 < m2 <= 12
    ensures DaysBeforeMonth(y, m1) + DaysInMonth(y, m1) <= DaysBeforeMonth(y, m2)
    decreases m2 - m1
  {
    MonthStep(y, m1);
    if m1 + 1 < m2 {
      MonthsOrdered(y, m1 + 1, m2);
    }
  }

  lemma MonthWithinYear(y: int, m: int)
    requires 1 <= m <= 12
    ensures DaysBeforeMonth(y, m) + DaysInMonth(y, m) <= DaysInYear(y)
  {
  }

  datatype DateTime = DateTime(year: int, month: int, day: int, hour: int, minute: int, second: int)

  /** The date-times Python's `datetime` can represent (without microseconds). */
  predicate Valid(t: DateTime) {
    1 <= t.year <= 9999 && 1 <= t.month <= 12 && 1 <= t.day <= DaysInMonth(t.year, t.month)
    && 0 <= t.hour < 24 && 0 <= t.minute < 60 && 0 <= t.second < 60
  }

  predicate OnTheHour(t: DateTime) {
    t.minute == 0 && t.second == 0
  }

  predicate IsMidnight(t: DateTime) {
    t.hour == 0 && OnTheHour(t)
  }

  /** `date.toordinal()`: day number counted from 0001-01-01 as 1. */
  function Ordinal(t: DateTime): int
    requires Valid(t)
  {
    DaysBeforeYear(t.year) + DaysBeforeMonth(t.year, t.month) + t.day
  }

  function SecondOfDay(t: DateTime): int {
    t.hour * SecondsPerHour + t.minute * 60 + t.second
  }

  /** The instant of `t`, in seconds on the ordinal time line. */
  function Seconds(t: DateTime): int
    requires Valid(t)
  {
    Ordinal(t) * SecondsPerDay + SecondOfDay(t)
  }

  /** Chronological order: compare year, month, day, hour, minute, second in turn. */
  predicate Before(a: DateTime, b: DateTime) {
    a.year < b.year || (a.year == b.year &&
    (a.month < b.month || (a.month == b.month &&
    (a.day < b.day || (a.day == b.day &&
    (a.hour < b.hour || (a.hour == b.hour &&
    (a.minute < b.minute || (a.minute == b.minute && a.second < b.second)))))))))
  }

  lemma OrdinalOrdered(a: DateTime, b: DateTime)
    requires Valid(a) && Valid(b)
    requires a.year < b.year || (a.year == b.year && (a.month < b.month || (a.month == b.month && a.day < b.day)))
    ensures Ordinal(a) < Ordinal(b)
  {
    if a.year < b.year {
      MonthWithinYear(a.year, a.month);
      YearsOrdered(a.year, b.year);
    } else if a.month < b.month {
      MonthsOrdered(a.year, a.month, b.month);
    }
  }

  /** Chronological order is exactly the order of instants, and different
      date-times are different instants. */
  lemma BeforeIsEarlier(a: DateTime, b: DateTime)
    requires Valid(a) && Valid(b)
    ensures Before(a, b) <==> Seconds(a) < Seconds(b)
    ensures a == b <==> Seconds(a) == Seconds(b)
  {
    if a.year != b.year || a.month != b.month || a.day != b.day {
      if a.year < b.year || (a.year == b.year && (a.month < b.month || (a.month == b.month && a.day < b.day))) {
        OrdinalOrdered(a, b);
      } else {
        OrdinalOrdered(b, a);
      }
    }
  }

  /** Python's `timedelta` after normalisation: whole days and a remainder of seconds. */
  datatype TimeDelta = TimeDelta(days: int, seconds: int)

  /** `a - b` for two naive `datetime` values. */
  function Subtract(a: DateTime, b: DateTime): (r: TimeDelta)
    requires Valid(a) && Valid(b)
    ensures 0 <= r.seconds < SecondsPerDay
    ensures r.days * SecondsPerDay + r.seconds == Seconds(a) - Seconds(b)
  {
    var s := Seconds(a) - Seconds(b);
    TimeDelta(s / SecondsPerDay, s % SecondsPerDay)
  }
}
