/**
 * Civil (local) date-time arithmetic on the proleptic Gregorian calendar.
 *
 * The repository reads dates through JavaScript's local getters
 * (getFullYear, getMonth, getDate, getHours, getMinutes, getSeconds,
 * getMilliseconds) and moves them with setDate/setHours. Here a date-time is
 * the record of those seven fields; months are 1-based (the source's
 * getMonth() + 1). There is a single fixed offset and no daylight-saving time.
 */
module CivilTime {

  datatype Civil = Civil(year: int, month: int, day: int,
                         hour: int, minute: int, second: int, millisecond: int)
  {
    /** The fields of a JavaScript Date as its local getters return them. */
    predicate Valid() {
      && 1 <= month <= 12
      && 1 <= day <= DaysInMonth(year, month)
      && 0 <= hour < 24
      && 0 <= minute < 60
      && 0 <= second < 60
      && 0 <= millisecond < 1000
    }
  }

  /** A date-time that a JavaScript Date can hold. */
  type DateTime = c: Civil | c.Valid() witness Civil(1970, 1, 1, 0, 0, 0, 0)

  predicate IsLeapYear(y: int) {
    y % 4 == 0 && (y % 100 != 0 || y % 400 == 0)
  }

  /** The last day of month m of year y: `new Date(y, m, 0).getDate()` with a 1-based m. */
  function DaysInMonth(y: int, m: int): int {
    if m == 2 then (if IsLeapYear(y) then 29 else 28)
    else if m == 4 || m == 6 || m == 9 || m == 11 then 30
    else 31
  }

  function DaysInYear(y: int): int {
    if IsLeapYear(y) then 366 else 365
  }

  /** Days from 0001-01-01 to January 1st of year y (Dafny's `/` floors for a positive divisor). */
  function DaysBeforeYear(y: int): int {
    365 * (y - 1) + (y - 1) / 4 - (y - 1) / 100 + (y - 1) / 400
  }

  /** Days from January 1st to the first day of month m of year y. */
  function DaysBeforeMonth(y: int, m: int): int
    decreases m
  {
    if m <= 1 then 0 else DaysBeforeMonth(y, m - 1) + DaysInMonth(y, m - 1)
  }

  /** Days elapsed since 0001-01-01, which was a Monday. */
  function DayNumber(y: int, m: int, d: int): int {
    DaysBeforeYear(y) + DaysBeforeMonth(y, m) + d - 1
  }

  /** `getDay()`: Sunday is 0, Monday 1, ..., Saturday 6. */
  function DayOfWeek(y: int, m: int, d: int): int {
    (DayNumber(y, m, d) + 1) % 7
  }

  function Weekday(t: DateTime): int {
    DayOfWeek(t.year, t.month, t.day)
  }

  /** The local analogue of `getTime()`: milliseconds since 0001-01-01T00:00. */
  function Ordinal(t: DateTime): int {
    (((DayNumber(t.year, t.month, t.day) * 24 + t.hour) * 60 + t.minute) * 60 + t.second) * 1000
      + t.millisecond
  }

  /** Field-by-field (lexicographic) order: a comes strictly before b on the calendar and clock. */
  predicate Earlier(a: DateTime, b: DateTime) {
    if a.year != b.year then a.year < b.year
    else if a.month != b.month then a.month < b.month
    else if a.day != b.day then a.day < b.day
    else if a.hour != b.hour then a.hour < b.hour
    else if a.minute != b.minute then a.minute < b.minute
    else if a.second != b.second then a.second < b.second
    else a.millisecond < b.millisecond
  }

  /** `setDate(getDate() + 1)`: the same time of day on the next calendar day. */
  function NextDay(t: DateTime): DateTime {
    if t.day < DaysInMonth(t.year, t.month) then t.(day := t.day + 1)
    else if t.month < 12 then t.(month := t.month + 1, day := 1)
    else t.(year := t.year + 1, month := 1, day := 1)
  }

  /** `setDate(getDate() - 1)`: the same time of day on the previous calendar day. */
  function PrevDay(t: DateTime): DateTime {
    if t.day > 1 then t.(day := t.day - 1)
    else if t.month > 1 then t.(month := t.month - 1, day := DaysInMonth(t.year, t.month - 1))
    else t.(year := t.year - 1, month := 12, day := 31)
  }

  /**
   * `setHours(getHours() + k)` for |k| < 24: the hour moves by k and an
   * overflow or underflow carries into the calendar day (and from there into
   * the month and the year).
   */
  function ShiftHours(t: DateTime, k: int): DateTime
    requires -24 < k < 24
  {
    var h := t.hour + k;
    if h < 0 then PrevDay(t).(hour := h + 24)
    else if h >= 24 then NextDay(t).(hour := h - 24)
    else t.(hour := h)
  }

  // ---------------------------------------------------------------------
  // Calendar facts

  /** Consecutive floors differ by one exactly at the multiples of 4, 100 and 400. */
  lemma FloorSteps(y: int)
    ensures y / 4 - (y - 1) / 4 == if y % 4 == 0 then 1 else 0
    ensures y / 100 - (y - 1) / 100 == if y % 100 == 0 then 1 else 0
    ensures y / 400 - (y - 1) / 400 == if y % 400 == 0 then 1 else 0
  {
  }

  /** Year y contributes exactly DaysInYear(y) days to the day count. */
  lemma {:induction false} DaysBeforeYearStep(y: int)
    ensures DaysBeforeYear(y + 1) == DaysBeforeYear(y) + DaysInYear(y)
  {
    FloorSteps(y);
  }

  /** The twelve months of year y add up to DaysInYear(y) days. */
  lemma MonthsFillYear(y: int)
    ensures DaysBeforeMonth(y, 12) + DaysInMonth(y, 12) == DaysInYear(y)
  {
    assert DaysBeforeMonth(y, 12) ==
      31 + DaysInMonth(y, 2) + 31 + 30 + 31 + 30 + 31 + 31 + 30 + 31 + 30;
  }

  /** NextDay advances the day count by exactly one, across month and year ends. */
  lemma NextDayNumber(t: DateTime)
    ensures DayNumber(NextDay(t).year, NextDay(t).month, NextDay(t).day)
         == DayNumber(t.year, t.month, t.day) + 1
  {
    if t.day == DaysInMonth(t.year, t.month) && t.month == 12 {
      DaysBeforeYearStep(t.year);
      MonthsFillYear(t.year);
    }
  }

  /** NextDay and PrevDay keep the time of day. */
  lemma NextDayKeepsTime(t: DateTime)
    ensures NextDay(t).hour == t.hour && NextDay(t).minute == t.minute
    ensures NextDay(t).second == t.second && NextDay(t).millisecond == t.millisecond
    ensures PrevDay(t).hour == t.hour && PrevDay(t).minute == t.minute
    ensures PrevDay(t).second == t.second && PrevDay(t).millisecond == t.millisecond
  {
  }

  /** PrevDay undoes NextDay and NextDay undoes PrevDay. */
  lemma NextPrevInverse(t: DateTime)
    ensures PrevDay(NextDay(t)) == t
    ensures NextDay(PrevDay(t)) == t
  {
  }

  /** The weekday advances by one, modulo seven, from one day to the next. */
  lemma NextDayWeekday(t: DateTime)
    ensures Weekday(NextDay(t)) == (Weekday(t) + 1) % 7
  {
    NextDayNumber(t);
    var u := NextDay(t);
    var a := DayNumber(t.year, t.month, t.day);
    assert DayNumber(u.year, u.month, u.day) == a + 1;
    ModSevenStep(a + 1);
  }

  lemma ModSevenStep(n: int)
    ensures (n + 1) % 7 == (n % 7 + 1) % 7
  {
  }

  /**
   * The reference meaning of the fixed-offset shift: ShiftHours moves the
   * instant by exactly k hours of elapsed time, whatever boundary it crosses.
   */
  lemma ShiftHoursOrdinal(t: DateTime, k: int)
    requires -24 < k < 24
    ensures Ordinal(ShiftHours(t, k)) == Ordinal(t) + k * 3600000
  {
    var h := t.hour + k;
    if h < 0 {
      var p := PrevDay(t);
      NextDayNumber(p);
      NextPrevInverse(t);
      assert DayNumber(p.year, p.month, p.day) + 1 == DayNumber(t.year, t.month, t.day);
    } else if h >= 24 {
      NextDayNumber(t);
    }
  }

  /** Shifting back by k hours undoes shifting by k hours: the read shift cancels the write shift. */
  lemma ShiftHoursInverse(t: DateTime, k: int)
    requires -24 < k < 24
    ensures ShiftHours(ShiftHours(t, k), -k) == t
  {
    var h := t.hour + k;
    NextPrevInverse(t);
    if h < 0 {
      assert ShiftHours(t, k) == PrevDay(t).(hour := h + 24);
    } else if h >= 24 {
      assert ShiftHours(t, k) == NextDay(t).(hour := h - 24);
    }
  }

  /** Two date-times with the same shifted value are the same date-time. */
  lemma ShiftHoursInjective(a: DateTime, b: DateTime, k: int)
    requires -24 < k < 24
    requires ShiftHours(a, k) == ShiftHours(b, k)
    ensures a == b
  {
    ShiftHoursInverse(a, k);
    ShiftHoursInverse(b, k);
  }

  /** The months before m, together with m itself, fit in year y. */
  lemma {:induction false} DaysBeforeMonthBound(y: int, m: int, m': int)
    requires 1 <= m < m' <= 13
    ensures DaysBeforeMonth(y, m) + DaysInMonth(y, m) <= DaysBeforeMonth(y, m')
    decreases m'
  {
    if m' - 1 > m {
      DaysBeforeMonthBound(y, m, m' - 1);
    }
  }

  /** Later years start later. */
  lemma {:induction false} DaysBeforeYearMonotone(y: int, y': int)
    requires y < y'
    ensures DaysBeforeYear(y) + DaysInYear(y) <= DaysBeforeYear(y')
    decreases y' - y
  {
    DaysBeforeYearStep(y);
    if y + 1 < y' {
      DaysBeforeYearMonotone(y + 1, y');
    }
  }

  /** A date's day count lies within the days of its own year. */
  lemma DayNumberWithinYear(t: DateTime)
    ensures DaysBeforeYear(t.year) <= DayNumber(t.year, t.month, t.day)
    ensures DayNumber(t.year, t.month, t.day) < DaysBeforeYear(t.year) + DaysInYear(t.year)
  {
    DaysBeforeMonthBound(t.year, t.month, 13);
    MonthsFillYear(t.year);
  }

  /** The day count follows the calendar order of (year, month, day). */
  lemma DayNumberMonotone(a: DateTime, b: DateTime)
    requires a.year < b.year
          || (a.year == b.year && a.month < b.month)
          || (a.year == b.year && a.month == b.month && a.day < b.day)
    ensures DayNumber(a.year, a.month, a.day) < DayNumber(b.year, b.month, b.day)
  {
    if a.year < b.year {
      DayNumberWithinYear(a);
      DayNumberWithinYear(b);
      DaysBeforeYearMonotone(a.year, b.year);
    } else if a.month < b.month {
      DaysBeforeMonthBound(a.year, a.month, b.month);
    }
  }

  /**
   * The calendar order is the order of instants: a is Earlier than b
   * exactly when its getTime-like Ordinal is smaller.
   */
  lemma EarlierIffOrdinal(a: DateTime, b: DateTime)
    ensures Earlier(a, b) <==> Ordinal(a) < Ordinal(b)
  {
    var da := DayNumber(a.year, a.month, a.day);
    var db := DayNumber(b.year, b.month, b.day);
    if (a.year, a.month, a.day) != (b.year, b.month, b.day) {
      if Earlier(a, b) {
        DayNumberMonotone(a, b);
      } else {
        DayNumberMonotone(b, a);
      }
      assert da != db;
    }
  }

  /** 2021-08-10, the date the repository's tests freeze the clock at, is a Tuesday. */
  lemma TestDateIsTuesday()
    ensures DayOfWeek(2021, 8, 10) == 2
  {
  }
}
