/** Gregorian dates and naive datetimes, as Python's `datetime` module has
    them: a date is (year, month, day), a time is (hour, minute, second,
    microsecond), datetimes compare lexicographically, and `timedelta`
    arithmetic goes through the proleptic Gregorian day ordinal. */
module Calendar {

  import opened Wrappers

  const MIN_YEAR := 1
  const MAX_YEAR := 9999
  const MICROS_PER_DAY := 86_400_000_000

  datatype Date = Date(year: int, month: int, day: int)
  datatype Time = Time(hour: int, minute: int, second: int, microsecond: int)
  datatype DateTime = DateTime(date: Date, time: Time)

  /** `datetime.min.time()` and `datetime.max.time()`. */
  const MIDNIGHT := Time(0, 0, 0, 0)
  const LAST_INSTANT := Time(23, 59, 59, 999999)

  predicate IsLeap(year: int) {
    year % 4 == 0 && (year % 100 != 0 || year % 400 == 0)
  }

  function DaysInMonth(year: int, month: int): (n: int)
    requires 1 <= month <= 12
    ensures 28 <= n <= 31
    ensures n == 29 <==> month == 2 && IsLeap(year)
  {
    if month == 2 then (if IsLeap(year) then 29 else 28)
    else if month == 4 || month == 6 || month == 9 || month == 11 then 30
    else 31
  }

  function DaysInYear(year: int): int {
    if IsLeap(year) then 366 else 365
  }

  /** A day of the proleptic Gregorian calendar, with no upper bound on the year. */
  predicate IsCalendarDate(d: Date) {
    MIN_YEAR <= d.year && 1 <= d.month <= 12 && 1 <= d.day <= DaysInMonth(d.year, d.month)
  }

  /** A date Python's `date` type can represent. */
  predicate ValidDate(d: Date) {
    IsCalendarDate(d) && d.year <= MAX_YEAR
  }

  predicate ValidTime(t: Time) {
    0 <= t.hour < 24 && 0 <= t.minute < 60 && 0 <= t.second < 60 && 0 <= t.microsecond < 1000000
  }

  predicate ValidDateTime(dt: DateTime) {
    ValidDate(dt.date) && ValidTime(dt.time)
  }

  /** `datetime.combine(date, time)`. */
  function Combine(d: Date, t: Time): DateTime {
    DateTime(d, t)
  }

  function StartOfDay(d: Date): DateTime {
    Combine(d, MIDNIGHT)
  }

  // ---------------------------------------------------------------------
  // Ordering

  predicate DateBefore(a: Date, b: Date) {
    a.year < b.year ||
    (a.year == b.year && (a.month < b.month || (a.month == b.month && a.day < b.day)))
  }

  predicate TimeBefore(a: Time, b: Time) {
    a.hour < b.hour ||
    (a.hour == b.hour &&
      (a.minute < b.minute ||
        (a.minute == b.minute &&
          (a.second < b.second || (a.second == b.second && a.microsecond < b.microsecond)))))
  }

  /** `a < b` on naive datetimes. */
  predicate Before(a: DateTime, b: DateTime) {
    DateBefore(a.date, b.date) || (a.date == b.date && TimeBefore(a.time, b.time))
  }

  /** `a <= b` on naive datetimes. */
  predicate NotAfter(a: DateTime, b: DateTime) {
    !Before(b, a)
  }

  lemma NotAfterTransitive(a: DateTime, b: DateTime, c: DateTime)
    requires NotAfter(a, b) && NotAfter(b, c)
    ensures NotAfter(a, c)
  {
  }

  // ---------------------------------------------------------------------
  // Day ordinal (Python's `date.toordinal`)

  /** Days in the years before `year`: Python's `_days_before_year`. */
  function DaysBeforeYear(year: int): int
    requires year >= MIN_YEAR
  {
    var y := year - 1;
    y * 365 + y / 4 - y / 100 + y / 400
  }

  /** Days in the months of `year` before `month`: Python's `_days_before_month`. */
  function DaysBeforeMonth(year: int, month: int): int
    requires 1 <= month <= 12
  {
    [0, 31, 59, 90, 120, 151, 181, 212, 243, 273, 304, 334][month - 1]
      + (if month > 2 && IsLeap(year) then 1 else 0)
  }

  /** Day number of `d`, where 0001-01-01 is day 1. */
  function Ordinal(d: Date): int
    requires IsCalendarDate(d)
  {
    DaysBeforeYear(d.year) + DaysBeforeMonth(d.year, d.month) + d.day
  }

  /** How many multiples of 4, 100 and 400 `year` adds to the years before it. */
  lemma MultiplesStep(year: int)
    requires year >= MIN_YEAR
    ensures year / 4 - (year - 1) / 4 == if year % 4 == 0 then 1 else 0
    ensures year / 100 - (year - 1) / 100 == if year % 100 == 0 then 1 else 0
    ensures year / 400 - (year - 1) / 400 == if year % 400 == 0 then 1 else 0
    ensures year % 400 == 0 ==> year % 100 == 0
    ensures year % 100 == 0 ==> year % 4 == 0
  {
  }

  lemma DaysBeforeYearStep(year: int)
    requires year >= MIN_YEAR
    ensures DaysBeforeYear(year + 1) == DaysBeforeYear(year) + DaysInYear(year)
  {
    MultiplesStep(year);
    var (a, b, c) := (year / 4 - (year - 1) / 4, year / 100 - (year - 1) / 100, year / 400 - (year - 1) / 400);
    assert DaysBeforeYear(year + 1) - DaysBeforeYear(year) == 365 + a - b + c;
  }

  lemma {:induction false} DaysBeforeYearMonotone(a: int, b: int)
    requires MIN_YEAR <= a < b
    ensures DaysBeforeYear(a) + DaysInYear(a) <= DaysBeforeYear(b)
    decreases b - a
  {
    DaysBeforeYearStep(a);
    if a + 1 < b {
      DaysBeforeYearMonotone(a + 1, b);
    }
  }

  lemma DaysBeforeMonthStep(year: int, month: int)
    requires 1 <= month < 12
    ensures DaysBeforeMonth(year, month + 1) == DaysBeforeMonth(year, month) + DaysInMonth(year, month)
  {
  }

  lemma {:induction false} DaysBeforeMonthMonotone(year: int, a: int, b: int)
    requires 1 <= a < b <= 12
    ensures DaysBeforeMonth(year, a) + DaysInMonth(year, a) <= DaysBeforeMonth(year, b)
    decreases b - a
  {
    DaysBeforeMonthStep(year, a);
    if a + 1 < b {
      DaysBeforeMonthMonotone(year, a + 1, b);
    }
  }

  lemma DayOfYearBound(d: Date)
    requires IsCalendarDate(d)
    ensures DaysBeforeMonth(d.year, d.month) + d.day <= DaysInYear(d.year)
  {
    if d.month < 12 {
      DaysBeforeMonthMonotone(d.year, d.month, 12);
    }
  }

  /** The ordinal is strictly increasing along the calendar order, so it is
      also one-to-one on calendar dates. */
  lemma OrdinalMonotone(a: Date, b: Date)
    requires IsCalendarDate(a) && IsCalendarDate(b)
    ensures DateBefore(a, b) <==> Ordinal(a) < Ordinal(b)
    ensures a == b <==> Ordinal(a) == Ordinal(b)
  {
    if a.year < b.year {
      DayOfYearBound(a);
      DaysBeforeYearMonotone(a.year, b.year);
    } else if b.year < a.year {
      DayOfYearBound(b);
      DaysBeforeYearMonotone(b.year, a.year);
    } else if a.month < b.month {
      DaysBeforeMonthMonotone(a.year, a.month, b.month);
    } else if b.month < a.month {
      DaysBeforeMonthMonotone(b.year, b.month, a.month);
    }
  }

  // ---------------------------------------------------------------------
  // `+ timedelta(days=1)` and month boundaries

  /** The day after `d`, rolling over month and year ends. */
  function NextDay(d: Date): (n: Date)
    requires IsCalendarDate(d)
    ensures IsCalendarDate(n)
    ensures DateBefore(d, n)
  {
    if d.day < DaysInMonth(d.year, d.month) then Date(d.year, d.month, d.day + 1)
    else if d.month < 12 then Date(d.year, d.month + 1, 1)
    else Date(d.year + 1, 1, 1)
  }

  /** The rollover agrees with Python's ordinal arithmetic:
      `date + timedelta(days=1) == date.fromordinal(date.toordinal() + 1)`. */
  lemma NextDayOrdinal(d: Date)
    requires IsCalendarDate(d)
    ensures Ordinal(NextDay(d)) == Ordinal(d) + 1
  {
    if d.day == DaysInMonth(d.year, d.month) {
      if d.month < 12 {
        DaysBeforeMonthStep(d.year, d.month);
      } else {
        DaysBeforeYearStep(d.year);
      }
    }
  }

  /** `NextDay(d)` is the immediate successor of `d`: later, with no
      calendar date strictly in between. */
  lemma NextDayIsSuccessor(d: Date, e: Date)
    requires IsCalendarDate(d) && IsCalendarDate(e)
    ensures DateBefore(d, e) ==> !DateBefore(e, NextDay(d))
  {
    NextDayOrdinal(d);
    OrdinalMonotone(d, NextDay(d));
    OrdinalMonotone(d, e);
    OrdinalMonotone(e, NextDay(d));
  }

  /** `get_month_tasks`' boundaries: the first instant of `month` and of the
      month after it, or None where Python's `datetime` constructor raises. */
  function MonthBounds(year: int, month: int): (r: Option<(DateTime, DateTime)>)
    ensures r.Some? <==> MIN_YEAR <= year <= MAX_YEAR && 1 <= month <= 12 && !(year == MAX_YEAR && month == 12)
    ensures r.Some? ==> ValidDateTime(r.value.0) && ValidDateTime(r.value.1)
  {
    if !(MIN_YEAR <= year <= MAX_YEAR && 1 <= month <= 12) then None
    else if month == 12 then
      (if year + 1 > MAX_YEAR then None
       else Some((StartOfDay(Date(year, month, 1)), StartOfDay(Date(year + 1, 1, 1)))))
    else Some((StartOfDay(Date(year, month, 1)), StartOfDay(Date(year, month + 1, 1))))
  }

  /** The half-open month window holds exactly the datetimes of that month. */
  lemma MonthWindow(year: int, month: int, t: DateTime)
    requires MonthBounds(year, month).Some?
    requires ValidDateTime(t)
    ensures var (lo, hi) := MonthBounds(year, month).value;
      NotAfter(lo, t) && Before(t, hi) <==> t.date.year == year && t.date.month == month
  {
  }

  /** `get_day_tasks`' window `[day 00:00, next day 00:00)` holds exactly
      the datetimes of that day. */
  lemma DayWindow(d: Date, t: DateTime)
    requires IsCalendarDate(d)
    requires IsCalendarDate(t.date) && ValidTime(t.time)
    ensures NotAfter(StartOfDay(d), t) && Before(t, StartOfDay(NextDay(d))) <==> t.date == d
  {
    NextDayIsSuccessor(d, t.date);
  }

  /** `get_filtered_tasks`' window
      `[combine(start, min time), combine(end, max time)]` holds exactly the
      datetimes whose date lies in `[start, end]`. */
  lemma WholeDayWindow(start: Date, end: Date, t: DateTime)
    requires ValidTime(t.time)
    ensures NotAfter(Combine(start, MIDNIGHT), t) && NotAfter(t, Combine(end, LAST_INSTANT))
      <==> !DateBefore(t.date, start) && !DateBefore(end, t.date)
  {
  }

  // ---------------------------------------------------------------------
  // `timedelta` arithmetic

  function TimeOfDayMicros(t: Time): int {
    ((t.hour * 60 + t.minute) * 60 + t.second) * 1000000 + t.microsecond
  }

  /** Microseconds since 0001-01-01 00:00 minus one day; differences of
      these are exactly `(a - b)` as a `timedelta` in microseconds. */
  function Micros(dt: DateTime): (m: int)
    requires IsCalendarDate(dt.date) && ValidTime(dt.time)
    ensures Ordinal(dt.date) * MICROS_PER_DAY <= m < Ordinal(dt.date) * MICROS_PER_DAY + MICROS_PER_DAY
  {
    Ordinal(dt.date) * MICROS_PER_DAY + TimeOfDayMicros(dt.time)
  }

  lemma TimeOfDayOrder(a: Time, b: Time)
    requires ValidTime(a) && ValidTime(b)
    ensures 0 <= TimeOfDayMicros(a) < MICROS_PER_DAY
    ensures TimeBefore(a, b) <==> TimeOfDayMicros(a) < TimeOfDayMicros(b)
    ensures a == b <==> TimeOfDayMicros(a) == TimeOfDayMicros(b)
  {
  }

  /** Comparing datetimes is comparing their microsecond counts. */
  lemma MicrosOrder(a: DateTime, b: DateTime)
    requires IsCalendarDate(a.date) && ValidTime(a.time)
    requires IsCalendarDate(b.date) && ValidTime(b.time)
    ensures Before(a, b) <==> Micros(a) < Micros(b)
  {
    OrdinalMonotone(a.date, b.date);
    TimeOfDayOrder(a.time, b.time);
    TimeOfDayOrder(b.time, a.time);
  }
}
