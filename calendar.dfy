/**
 Python `datetime` values with second resolution, on the proleptic Gregorian
 calendar that `calendar.monthrange` and `datetime` both use.

 A timestamp is the civil record `(year, month, day, hour, minute, second)`.
 The arithmetic the partitioner performs on it (`+ timedelta(seconds=1)`,
 `+/- timedelta(days=1)`) is written on the fields with explicit carries;
 `Seconds` counts the seconds since 0001-01-01 00:00:00, and the lemmas
 below show that the field arithmetic is exactly `+1`, `+86400` and
 `-86400` on that count, and that `Before` (Python's field-by-field `<`) is
 the order of that count.
 */
module Calendar {

  /** `datetime.MINYEAR` and `datetime.MAXYEAR`: results outside raise OverflowError. */
  const MinYear := 1
  const MaxYear := 9999
  const SecondsPerDay := 86400

  datatype DateTime = DateTime(year: int, month: int, day: int, hour: int, minute: int, second: int)

  /** `datetime.max` at second resolution; `+ 1 second` overflows only here. */
  const MaxInstant := DateTime(MaxYear, 12, 31, 23, 59, 59)

  predicate IsLeapYear(y: int) {
    y % 4 == 0 && (y % 100 != 0 || y % 400 == 0)
  }

  /** The second component of `calendar.monthrange(y, m)`. */
  function DaysInMonth(y: int, m: int): int {
    if m == 2 then (if IsLeapYear(y) then 29 else 28)
    else if m == 4 || m == 6 || m == 9 || m == 11 then 30
    else 31
  }

  function DaysInYear(y: int): int {
    if IsLeapYear(y) then 366 else 365
  }

  predicate ValidDateTime(t: DateTime) {
    && MinYear <= t.year <= MaxYear
    && 1 <= t.month <= 12
    && 1 <= t.day <= DaysInMonth(t.year, t.month)
    && 0 <= t.hour < 24
    && 0 <= t.minute < 60
    && 0 <= t.second < 60
  }

  predicate IsFirstDay(t: DateTime) {
    t.year == MinYear && t.month == 1 && t.day == 1
  }

  predicate IsLastDay(t: DateTime) {
    t.year == MaxYear && t.month == 12 && t.day == 31
  }

  predicate AtMidnight(t: DateTime) {
    t.hour == 0 && t.minute == 0 && t.second == 0
  }

  predicate AtEndOfDay(t: DateTime) {
    t.hour == 23 && t.minute == 59 && t.second == 59
  }

  /** `t + timedelta(days=1)`. */
  function AddDay(t: DateTime): DateTime {
    if t.day < DaysInMonth(t.year, t.month) then t.(day := t.day + 1)
    else if t.month < 12 then t.(month := t.month + 1, day := 1)
    else t.(year := t.year + 1, month := 1, day := 1)
  }

  /** `t - timedelta(days=1)`. */
  function SubDay(t: DateTime): DateTime {
    if t.day > 1 then t.(day := t.day - 1)
    else if t.month > 1 then t.(month := t.month - 1, day := DaysInMonth(t.year, t.month - 1))
    else t.(year := t.year - 1, month := 12, day := 31)
  }

  /** `t + timedelta(seconds=1)`. */
  function NextSecond(t: DateTime): DateTime {
    if t.second < 59 then t.(second := t.second + 1)
    else if t.minute < 59 then t.(minute := t.minute + 1, second := 0)
    else if t.hour < 23 then t.(hour := t.hour + 1, minute := 0, second := 0)
    else AddDay(t).(hour := 0, minute := 0, second := 0)
  }

  /** `t.replace(hour=23, minute=59, second=59)`. */
  function EndOfDay(t: DateTime): DateTime {
    t.(hour := 23, minute := 59, second := 59)
  }

  /** Python's `a < b` on datetimes: the fields compared in order. */
  predicate Before(a: DateTime, b: DateTime) {
    if a.year != b.year then a.year < b.year
    else if a.month != b.month then a.month < b.month
    else if a.day != b.day then a.day < b.day
    else if a.hour != b.hour then a.hour < b.hour
    else if a.minute != b.minute then a.minute < b.minute
    else a.second < b.second
  }

  // ---------------------------------------------------------------------
  // The absolute count of seconds (the reference the arithmetic is checked
  // against)
  // ---------------------------------------------------------------------

  function DaysBeforeYear(y: int): nat
    decreases y
  {
    if y <= MinYear then 0 else DaysBeforeYear(y - 1) + DaysInYear(y - 1)
  }

  /** Days of year `y` before the first of month `m` (1 <= m <= 12). */
  function DaysBeforeMonth(y: int, m: int): int {
    (if m <= 1 then 0
     else if m == 2 then 31
     else if m == 3 then 59
     else if m == 4 then 90
     else if m == 5 then 120
     else if m == 6 then 151
     else if m == 7 then 181
     else if m == 8 then 212
     else if m == 9 then 243
     else if m == 10 then 273
     else if m == 11 then 304
     else 334)
    + (if m > 2 && IsLeapYear(y) then 1 else 0)
  }

  /** Days since 0001-01-01 (Python's `toordinal() - 1`). */
  function DayNumber(t: DateTime): int {
    DaysBeforeYear(t.year) + DaysBeforeMonth(t.year, t.month) + t.day - 1
  }

  function SecondOfDay(t: DateTime): int {
    t.hour * 3600 + t.minute * 60 + t.second
  }

  /** Seconds since 0001-01-01 00:00:00. */
  function Seconds(t: DateTime): int {
    DayNumber(t) * SecondsPerDay + SecondOfDay(t)
  }

  // ---------------------------------------------------------------------
  // Lemmas
  // ---------------------------------------------------------------------

  lemma DaysBeforeNextMonth(y: int, m: int)
    requires 1 <= m < 12
    ensures DaysBeforeMonth(y, m + 1) == DaysBeforeMonth(y, m) + DaysInMonth(y, m)
  {
  }

  lemma DecemberEndsYear(y: int)
    ensures DaysBeforeMonth(y, 12) + DaysInMonth(y, 12) == DaysInYear(y)
  {
  }

  lemma {:induction false} DaysBeforeMonthMonotone(y: int, m1: int, m2: int)
    requires 1 <= m1 < m2 <= 12
    ensures DaysBeforeMonth(y, m1) + DaysInMonth(y, m1) <= DaysBeforeMonth(y, m2)
    decreases m2
  {
    if m1 + 1 < m2 {
      DaysBeforeMonthMonotone(y, m1, m2 - 1);
      DaysBeforeNextMonth(y, m2 - 1);
    } else {
      DaysBeforeNextMonth(y, m1);
    }
  }

  lemma {:induction false} DaysBeforeYearMonotone(y1: int, y2: int)
    requires MinYear <= y1 < y2
    ensures DaysBeforeYear(y1) + DaysInYear(y1) <= DaysBeforeYear(y2)
    decreases y2
  {
    if y1 + 1 < y2 {
      DaysBeforeYearMonotone(y1, y2 - 1);
    }
  }

  /** The day number of a valid date lies within the days of its year. */
  lemma DayNumberWithinYear(t: DateTime)
    requires ValidDateTime(t)
    ensures DaysBeforeYear(t.year) <= DayNumber(t) < DaysBeforeYear(t.year) + DaysInYear(t.year)
  {
    if t.month < 12 {
      DaysBeforeMonthMonotone(t.year, t.month, 12);
    }
    DecemberEndsYear(t.year);
  }

  /** Python's field-by-field `<` is the order of the seconds count. */
  lemma ChronologicalOrder(a: DateTime, b: DateTime)
    requires ValidDateTime(a) && ValidDateTime(b)
    ensures Before(a, b) <==> Seconds(a) < Seconds(b)
  {
    DayNumberWithinYear(a);
    DayNumberWithinYear(b);
    if a.year < b.year {
      DaysBeforeYearMonotone(a.year, b.year);
    } else if b.year < a.year {
      DaysBeforeYearMonotone(b.year, a.year);
    } else if a.month < b.month {
      DaysBeforeMonthMonotone(a.year, a.month, b.month);
    } else if b.month < a.month {
      DaysBeforeMonthMonotone(a.year, b.month, a.month);
    }
  }

  /** Distinct valid timestamps have distinct seconds counts. */
  lemma SecondsInjective(a: DateTime, b: DateTime)
    requires ValidDateTime(a) && ValidDateTime(b)
    requires Seconds(a) == Seconds(b)
    ensures a == b
  {
    ChronologicalOrder(a, b);
    ChronologicalOrder(b, a);
  }

  /** `+ timedelta(days=1)` adds 86400 seconds and overflows only on 9999-12-31. */
  lemma AddDayIsOneDayLater(t: DateTime)
    requires ValidDateTime(t) && !IsLastDay(t)
    ensures ValidDateTime(AddDay(t))
    ensures Seconds(AddDay(t)) == Seconds(t) + SecondsPerDay
  {
    if t.day == DaysInMonth(t.year, t.month) {
      if t.month < 12 {
        DaysBeforeNextMonth(t.year, t.month);
      } else {
        DecemberEndsYear(t.year);
      }
    }
  }

  /** `- timedelta(days=1)` subtracts 86400 seconds and overflows only on 0001-01-01. */
  lemma SubDayIsOneDayEarlier(t: DateTime)
    requires ValidDateTime(t) && !IsFirstDay(t)
    ensures ValidDateTime(SubDay(t))
    ensures Seconds(SubDay(t)) == Seconds(t) - SecondsPerDay
  {
    if t.day == 1 {
      if t.month > 1 {
        DaysBeforeNextMonth(t.year, t.month - 1);
      } else {
        DecemberEndsYear(t.year - 1);
      }
    }
  }

  /** `+ timedelta(seconds=1)` adds one second and overflows only at `datetime.max`. */
  lemma NextSecondIsOneSecondLater(t: DateTime)
    requires ValidDateTime(t) && t != MaxInstant
    ensures ValidDateTime(NextSecond(t))
    ensures Seconds(NextSecond(t)) == Seconds(t) + 1
    ensures NextSecond(t).year <= t.year + 1
  {
    if t.second == 59 && t.minute == 59 && t.hour == 23 {
      AddDayIsOneDayLater(t);
    }
  }

  /** The seconds count splits into a day number and a second of the day. */
  lemma SecondsSplit(t: DateTime)
    requires ValidDateTime(t)
    ensures 0 <= SecondOfDay(t) < SecondsPerDay
    ensures DayNumber(t) >= 0
    ensures DayNumber(t) == Seconds(t) / SecondsPerDay
    ensures SecondOfDay(t) == Seconds(t) % SecondsPerDay
  {
  }

  /** Only 0001-01-01 has day number zero. */
  lemma DayNumberPositive(t: DateTime)
    requires ValidDateTime(t) && !IsFirstDay(t)
    ensures DayNumber(t) > 0
  {
    if t.year > MinYear {
      DaysBeforeYearMonotone(MinYear, t.year);
    }
  }
}
