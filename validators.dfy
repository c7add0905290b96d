/**
 * The slot validator: whether a requested date-time is a bookable start
 * time, judged against the clock's current date-time `now`.
 */
module Validators {
  import opened CivilTime

  /** Starts from 08:00 up to and including 17:xx; an 18:00 start is refused. */
  predicate IsWithinBusinessHours(date: DateTime) {
    date.hour >= 8 && date.hour < 18
  }

  /** Monday (1) to Friday (5) in the Sunday = 0 numbering of `getDay()`. */
  predicate IsWeekday(date: DateTime) {
    Weekday(date) > 0 && Weekday(date) < 6
  }

  predicate IsCurrentMonth(date: DateTime, now: DateTime) {
    date.month == now.month && date.year == now.year
  }

  /** A comparison of days of the month only: the time of day is not looked at. */
  predicate IsAfterOrEqualCurrentDay(date: DateTime, now: DateTime) {
    date.day >= now.day
  }

  /** Seconds and milliseconds are not looked at. */
  predicate IsValidMinutes(date: DateTime) {
    date.minute == 0 || date.minute == 30
  }

  /** `isValidScheduleDate`: the conjunction of the five checks. */
  predicate IsValidScheduleDate(date: DateTime, now: DateTime) {
    && IsWithinBusinessHours(date)
    && IsWeekday(date)
    && IsCurrentMonth(date, now)
    && IsAfterOrEqualCurrentDay(date, now)
    && IsValidMinutes(date)
  }

  /** The accepted dates, described field by field without the helper predicates. */
  lemma ValidScheduleDateIff(date: DateTime, now: DateTime)
    ensures IsValidScheduleDate(date, now) <==>
      && 8 <= date.hour <= 17
      && 1 <= DayOfWeek(date.year, date.month, date.day) <= 5
      && date.year == now.year && date.month == now.month
      && now.day <= date.day
      && date.minute in {0, 30}
  {
  }

  lemma RejectsOutsideBusinessHours(date: DateTime, now: DateTime)
    requires date.hour < 8 || date.hour >= 18
    ensures !IsValidScheduleDate(date, now)
  {
  }

  /** 17:30 is the latest start the validator accepts. */
  lemma LatestAcceptedStart(date: DateTime, now: DateTime)
    requires IsValidScheduleDate(date, now)
    ensures date.hour * 60 + date.minute <= 17 * 60 + 30
  {
  }

  lemma RejectsWeekend(date: DateTime, now: DateTime)
    requires Weekday(date) == 0 || Weekday(date) == 6
    ensures !IsValidScheduleDate(date, now)
  {
  }

  lemma RejectsOtherMonthOrYear(date: DateTime, now: DateTime)
    requires date.month != now.month || date.year != now.year
    ensures !IsValidScheduleDate(date, now)
  {
  }

  lemma RejectsEarlierDay(date: DateTime, now: DateTime)
    requires date.day < now.day
    ensures !IsValidScheduleDate(date, now)
  {
  }

  lemma RejectsOffGridMinutes(date: DateTime, now: DateTime)
    requires date.minute != 0 && date.minute != 30
    ensures !IsValidScheduleDate(date, now)
  {
  }

  /** The verdict does not depend on the seconds or the milliseconds of the date. */
  lemma IgnoresSecondsAndMilliseconds(date: DateTime, now: DateTime, s: int, ms: int)
    requires 0 <= s < 60 && 0 <= ms < 1000
    ensures IsValidScheduleDate(date.(second := s, millisecond := ms), now)
        == IsValidScheduleDate(date, now)
  {
    var d': DateTime := date.(second := s, millisecond := ms);
    assert Weekday(d') == Weekday(date);
  }

  /**
   * The verdict does not depend on the time of day of `now`: a slot earlier
   * today than `now` is accepted just like a later one.
   */
  lemma IgnoresTimeOfDayOfNow(date: DateTime, now: DateTime, h: int, m: int)
    requires 0 <= h < 24 && 0 <= m < 60
    ensures IsValidScheduleDate(date, now.(hour := h, minute := m))
        == IsValidScheduleDate(date, now)
  {
  }

  /** On the tests' date, a 09:00 slot is still accepted at 15:00 the same day. */
  lemma AcceptsPastHourToday()
    ensures IsValidScheduleDate(Civil(2021, 8, 10, 9, 0, 0, 0), Civil(2021, 8, 10, 15, 0, 0, 0))
  {
    TestDateIsTuesday();
  }
}
