/**
 * The scheduling service: the availability calculator, which enumerates the
 * free half-hour slots for the rest of the month, and the service object
 * that forwards every other operation to the booking store.
 */
module ScheduleServices {
  import opened Wrappers
  import opened CivilTime
  import opened Validators
  import opened SchedulerDtos
  import opened BookingStores
  import opened MysqlProviders

  // ---------------------------------------------------------------------
  // Specification of the enumeration

  /** The day the enumeration starts on: today, or the next calendar day from 18:00 on. */
  function Anchor(now: DateTime): DateTime {
    if now.hour >= 18 then NextDay(now) else now
  }

  /**
   * The first hour the inner loop keeps on day d: on the anchor day the
   * hours up to and including the current one are skipped.
   */
  function FirstHour(d: int, first: int, currentHour: int): int {
    if d == first && currentHour >= 8 then currentHour + 1 else 8
  }

  /**
   * The slots the inner loop has pushed for day d once it has run up to
   * (and not including) hour j, starting at hour lo: hh:00 and hh:30 of
   * every hour lo <= hh < j.
   */
  function DaySlots(y: int, m: int, d: int, lo: int, j: int): seq<DateTime>
    requires 1 <= m <= 12 && 1 <= d <= DaysInMonth(y, m) && 8 <= lo && j <= 18
  {
    if j <= lo then []
    else
      seq(2 * (j - lo), k requires 0 <= k < 2 * (j - lo) => Civil(y, m, d, lo + k / 2, 30 * (k % 2), 0, 0))
  }

  /** The slots the outer loop pushes for the weekdays first <= d < i. */
  function MonthSlots(y: int, m: int, first: int, currentHour: int, i: int): seq<DateTime>
    requires 1 <= m <= 12 && 1 <= first && i <= DaysInMonth(y, m) + 1
    decreases i
  {
    if i <= first then []
    else
      MonthSlots(y, m, first, currentHour, i - 1)
      + (if 0 < DayOfWeek(y, m, i - 1) < 6 then DaySlots(y, m, i - 1, FirstHour(i - 1, first, currentHour), 18) else [])
  }

  /** Every slot the nested loops generate, before bookings are looked at. */
  function GeneratedSlots(now: DateTime): seq<DateTime> {
    var a := Anchor(now);
    MonthSlots(a.year, a.month, a.day, now.hour, DaysInMonth(a.year, a.month) + 1)
  }

  /**
   * A repository booking takes the slot: the booking's returned date-time
   * equals the slot moved back three hours.
   */
  predicate Booked(schedules: seq<SchedulerDto>, slot: DateTime) {
    exists k :: 0 <= k < |schedules| && schedules[k].dateTime == ShiftHours(slot, -3)
  }

  /** The slots of `days` that no booking takes, in their order. */
  function Unbooked(days: seq<DateTime>, schedules: seq<SchedulerDto>): seq<DateTime>
    decreases |days|
  {
    if days == [] then []
    else
      var last := days[|days| - 1];
      Unbooked(days[..|days| - 1], schedules) + (if Booked(schedules, last) then [] else [last])
  }

  /** The answer of the availability endpoint; a repository that returns no list yields nothing. */
  function AvailableDays(now: DateTime, schedules: Option<seq<SchedulerDto>>): seq<DateTime> {
    match schedules
    case None => []
    case Some(list) => Unbooked(GeneratedSlots(now), list)
  }

  /** The independent description of an offered slot. */
  predicate IsOfferedSlot(now: DateTime, t: DateTime) {
    var a := Anchor(now);
    && t.year == a.year && t.month == a.month && a.day <= t.day
    && 0 < Weekday(t) < 6
    && 8 <= t.hour < 18
    && (t.minute == 0 || t.minute == 30)
    && t.second == 0 && t.millisecond == 0
    && (t.day == a.day ==> t.hour > now.hour)
  }

  /** Strictly increasing in calendar order, hence also free of duplicates. */
  predicate Chronological(s: seq<DateTime>) {
    forall p, q :: 0 <= p < q < |s| ==> Earlier(s[p], s[q])
  }

  /** Each element comes before the next one. */
  predicate Increasing(s: seq<DateTime>) {
    forall p :: 0 < p < |s| ==> Earlier(s[p - 1], s[p])
  }

  // ---------------------------------------------------------------------
  // The calculator

  /**
   * The nested loops: from the anchor day to the month's last day, on
   * weekdays, every hour from 8 to 17 gives hh:00 and hh:30, except the
   * hours up to the current one on the anchor day.
   */
  method EnumerateSlots(now: DateTime) returns (days: seq<DateTime>)
    ensures days == GeneratedSlots(now)
  {
    var currentHour := now.hour;
    var actualDate := now;
    if currentHour >= 18 {
      actualDate := NextDay(actualDate);
    }
    // The minute guard compares the hour with 30, so it always picks 0.
    actualDate := actualDate.(hour := if currentHour < 8 then 8 else currentHour,
                              minute := if currentHour < 30 then 0 else 30,
                              second := 0, millisecond := 0);

    days := [];
    var y, m, first := actualDate.year, actualDate.month, actualDate.day;
    assert (y, m, first) == (Anchor(now).year, Anchor(now).month, Anchor(now).day);
    var daysInMonth := DaysInMonth(y, m);
    var i := first;
    while i <= daysInMonth
      invariant first <= i <= daysInMonth + 1
      invariant days == MonthSlots(y, m, first, currentHour, i)
    {
      MonthSlotsStep(y, m, first, currentHour, i);
      if 0 < DayOfWeek(y, m, i) < 6 {
        var today := EnumerateDay(y, m, i, first, currentHour);
        days := days + today;
      }
      i := i + 1;
    }
  }

  /** One more day of the outer loop appends that day's slots when it is a weekday. */
  lemma MonthSlotsStep(y: int, m: int, first: int, currentHour: int, i: int)
    requires 1 <= m <= 12 && 1 <= first <= i <= DaysInMonth(y, m)
    ensures MonthSlots(y, m, first, currentHour, i + 1) == MonthSlots(y, m, first, currentHour, i)
      + (if 0 < DayOfWeek(y, m, i) < 6 then DaySlots(y, m, i, FirstHour(i, first, currentHour), 18) else [])
  {
  }

  /**
   * The inner loop for day i: hours 8 to 17, skipping those up to the
   * current hour on the anchor day, each giving hh:00 and hh:30.
   */
  method EnumerateDay(y: int, m: int, i: int, first: int, currentHour: int) returns (today: seq<DateTime>)
    requires 1 <= m <= 12 && 1 <= i <= DaysInMonth(y, m)
    ensures today == DaySlots(y, m, i, FirstHour(i, first, currentHour), 18)
  {
    ghost var lo := FirstHour(i, first, currentHour);
    today := [];
    var j := 8;
    while j < 18
      invariant 8 <= j <= 18
      invariant today == DaySlots(y, m, i, lo, j)
    {
      DaySlotsStep(y, m, i, lo, j);
      if !(i == first && j <= currentHour) {
        var onTheHour: DateTime := Civil(y, m, i, j, 0, 0, 0);
        var halfPast: DateTime := Civil(y, m, i, j, 30, 0, 0);
        today := today + [onTheHour, halfPast];
      }
      j := j + 1;
    }
  }

  /**
   * The filtering loop: each slot is moved back three hours and compared
   * with every booking's date; a free slot is moved forward again and kept.
   */
  method KeepUnbooked(days: seq<DateTime>, list: seq<SchedulerDto>) returns (avaliableDays: seq<DateTime>)
    ensures avaliableDays == Unbooked(days, list)
  {
    avaliableDays := [];
    var n := 0;
    while n < |days|
      invariant 0 <= n <= |days|
      invariant avaliableDays == Unbooked(days[..n], list)
    {
      var day := ShiftHours(days[n], -3);
      var isAvaliable := true;
      var k := 0;
      while k < |list|
        invariant 0 <= k <= |list|
        invariant forall q :: 0 <= q < k ==> list[q].dateTime != day
      {
        if day == list[k].dateTime {
          isAvaliable := false;
          break;
        }
        k := k + 1;
      }
      assert isAvaliable == !Booked(list, days[n]);
      assert days[..n + 1][..n] == days[..n];
      if isAvaliable {
        ShiftHoursInverse(days[n], -3);
        day := ShiftHours(day, 3);
        avaliableDays := avaliableDays + [day];
      }
      n := n + 1;
    }
    assert days[..|days|] == days;
  }

  // ---------------------------------------------------------------------
  // What the generated slots are

  /** One more hour of the inner loop appends hh:00 and hh:30, or nothing before the first hour. */
  lemma DaySlotsStep(y: int, m: int, d: int, lo: int, j: int)
    requires 1 <= m <= 12 && 1 <= d <= DaysInMonth(y, m) && 8 <= lo && j < 18
    ensures j >= lo ==>
      DaySlots(y, m, d, lo, j + 1) == DaySlots(y, m, d, lo, j) + [Civil(y, m, d, j, 0, 0, 0), Civil(y, m, d, j, 30, 0, 0)]
    ensures j < lo ==> DaySlots(y, m, d, lo, j + 1) == DaySlots(y, m, d, lo, j) == []
  {
    if j >= lo {
      var s := DaySlots(y, m, d, lo, j);
      var u := DaySlots(y, m, d, lo, j + 1);
      var n := 2 * (j - lo);
      assert |u| == n + 2;
      forall k | 0 <= k < n
        ensures u[k] == s[k]
      {
      }
      assert u[n] == Civil(y, m, d, j, 0, 0, 0);
      assert u[n + 1] == Civil(y, m, d, j, 30, 0, 0);
      assert u == s + [u[n], u[n + 1]];
    }
  }

  lemma DaySlotsIff(y: int, m: int, d: int, lo: int, j: int, t: DateTime)
    requires 1 <= m <= 12 && 1 <= d <= DaysInMonth(y, m) && 8 <= lo && j <= 18
    ensures t in DaySlots(y, m, d, lo, j) <==>
      && t.year == y && t.month == m && t.day == d
      && lo <= t.hour < j
      && (t.minute == 0 || t.minute == 30)
      && t.second == 0 && t.millisecond == 0
  {
    var s := DaySlots(y, m, d, lo, j);
    if t.year == y && t.month == m && t.day == d && lo <= t.hour < j
       && (t.minute == 0 || t.minute == 30) && t.second == 0 && t.millisecond == 0 {
      var k := 2 * (t.hour - lo) + t.minute / 30;
      assert s[k] == t;
    }
  }

  lemma {:induction false} MonthSlotsIff(y: int, m: int, first: int, currentHour: int, i: int, t: DateTime)
    requires 1 <= m <= 12 && 1 <= first && i <= DaysInMonth(y, m) + 1
    ensures t in MonthSlots(y, m, first, currentHour, i) <==>
      && t.year == y && t.month == m && first <= t.day < i
      && 0 < DayOfWeek(y, m, t.day) < 6
      && 8 <= t.hour < 18
      && (t.minute == 0 || t.minute == 30)
      && t.second == 0 && t.millisecond == 0
      && !(t.day == first && t.hour <= currentHour)
    decreases i
  {
    if i > first {
      var d := i - 1;
      var u := if 0 < DayOfWeek(y, m, d) < 6 then DaySlots(y, m, d, FirstHour(d, first, currentHour), 18) else [];
      assert MonthSlots(y, m, first, currentHour, i) == MonthSlots(y, m, first, currentHour, d) + u;
      MonthSlotsIff(y, m, first, currentHour, d, t);
      if 0 < DayOfWeek(y, m, d) < 6 {
        DaySlotsIff(y, m, d, FirstHour(d, first, currentHour), 18, t);
      }
    }
  }

  /** Soundness and completeness of the enumeration. */
  lemma GeneratedSlotsIff(now: DateTime, t: DateTime)
    ensures t in GeneratedSlots(now) <==> IsOfferedSlot(now, t)
  {
    var a := Anchor(now);
    MonthSlotsIff(a.year, a.month, a.day, now.hour, DaysInMonth(a.year, a.month) + 1, t);
  }

  lemma ChronologicalAppend(s: seq<DateTime>, u: seq<DateTime>)
    requires Chronological(s) && Chronological(u)
    requires forall p, q :: 0 <= p < |s| && 0 <= q < |u| ==> Earlier(s[p], u[q])
    ensures Chronological(s + u)
  {
    forall p, q | 0 <= p < q < |s + u|
      ensures Earlier((s + u)[p], (s + u)[q])
    {
      if q < |s| {
      } else if p >= |s| {
        assert (s + u)[p] == u[p - |s|] && (s + u)[q] == u[q - |s|];
      } else {
        assert (s + u)[p] == s[p] && (s + u)[q] == u[q - |s|];
      }
    }
  }

  lemma EarlierTransitive(a: DateTime, b: DateTime, c: DateTime)
    requires Earlier(a, b) && Earlier(b, c)
    ensures Earlier(a, c)
  {
  }

  /** Comparing neighbours suffices: an increasing sequence is chronological. */
  lemma {:induction false} IncreasingIsChronological(s: seq<DateTime>)
    requires Increasing(s)
    ensures Chronological(s)
    decreases |s|
  {
    if |s| > 1 {
      var init := s[..|s| - 1];
      assert Increasing(init) by {
        forall p | 0 < p < |init|
          ensures Earlier(init[p - 1], init[p])
        {
          assert init[p - 1] == s[p - 1] && init[p] == s[p];
        }
      }
      IncreasingIsChronological(init);
      forall p, q | 0 <= p < q < |s|
        ensures Earlier(s[p], s[q])
      {
        if q < |s| - 1 {
          assert s[p] == init[p] && s[q] == init[q];
        } else if p < |s| - 2 {
          assert s[p] == init[p] && s[|s| - 2] == init[|s| - 2];
          EarlierTransitive(s[p], s[|s| - 2], s[q]);
        }
      }
    }
  }

  /** Two increasing sequences joined where the first ends before the second starts. */
  lemma IncreasingAppend(s: seq<DateTime>, u: seq<DateTime>)
    requires Increasing(s) && Increasing(u)
    requires |s| > 0 && |u| > 0 ==> Earlier(s[|s| - 1], u[0])
    ensures Increasing(s + u)
  {
    var w := s + u;
    forall p | 0 < p < |w|
      ensures Earlier(w[p - 1], w[p])
    {
      if p < |s| {
        assert w[p - 1] == s[p - 1] && w[p] == s[p];
      } else if p == |s| {
        assert w[p - 1] == s[|s| - 1] && w[p] == u[0];
      } else {
        assert w[p - 1] == u[p - 1 - |s|] && w[p] == u[p - |s|];
      }
    }
  }

  /** A day's slots increase, and all lie on that day. */
  lemma DaySlotsIncreasing(y: int, m: int, d: int, lo: int, j: int)
    requires 1 <= m <= 12 && 1 <= d <= DaysInMonth(y, m) && 8 <= lo && j <= 18
    ensures Increasing(DaySlots(y, m, d, lo, j))
    ensures var u := DaySlots(y, m, d, lo, j);
      |u| > 0 ==> u[0].year == y && u[0].month == m && u[0].day == d
  {
  }

  /** The last generated slot before day i lies on an earlier day of the same month. */
  lemma MonthSlotsLast(y: int, m: int, first: int, currentHour: int, i: int)
    requires 1 <= m <= 12 && 1 <= first && i <= DaysInMonth(y, m) + 1
    ensures var s := MonthSlots(y, m, first, currentHour, i);
      |s| > 0 ==> s[|s| - 1].year == y && s[|s| - 1].month == m && s[|s| - 1].day < i
  {
    var s := MonthSlots(y, m, first, currentHour, i);
    if |s| > 0 {
      MonthSlotsIff(y, m, first, currentHour, i, s[|s| - 1]);
    }
  }

  /** Slots up to an earlier day, followed by increasing slots of day d, increase. */
  lemma AppendDayIncreasing(s: seq<DateTime>, u: seq<DateTime>, y: int, m: int, d: int)
    requires Increasing(s) && Increasing(u)
    requires |s| > 0 ==> s[|s| - 1].year == y && s[|s| - 1].month == m && s[|s| - 1].day < d
    requires |u| > 0 ==> u[0].year == y && u[0].month == m && u[0].day == d
    ensures Increasing(s + u)
  {
    IncreasingAppend(s, u);
  }

  lemma {:induction false} MonthSlotsIncreasing(y: int, m: int, first: int, currentHour: int, i: int)
    requires 1 <= m <= 12 && 1 <= first && i <= DaysInMonth(y, m) + 1
    ensures Increasing(MonthSlots(y, m, first, currentHour, i))
    decreases i
  {
    if i > first {
      var d := i - 1;
      var s := MonthSlots(y, m, first, currentHour, d);
      MonthSlotsStep(y, m, first, currentHour, d);
      MonthSlotsIncreasing(y, m, first, currentHour, d);
      if 0 < DayOfWeek(y, m, d) < 6 {
        var lo := FirstHour(d, first, currentHour);
        var u := DaySlots(y, m, d, lo, 18);
        DaySlotsIncreasing(y, m, d, lo, 18);
        MonthSlotsLast(y, m, first, currentHour, d);
        AppendDayIncreasing(s, u, y, m, d);
        assert MonthSlots(y, m, first, currentHour, i) == s + u;
      } else {
        assert MonthSlots(y, m, first, currentHour, i) == s;
      }
    }
  }

  /** The inner loop contributes at most two slots per hour, so at most 20 per day. */
  lemma DaySlotsBound(y: int, m: int, d: int, lo: int, j: int)
    requires 1 <= m <= 12 && 1 <= d <= DaysInMonth(y, m) && 8 <= lo && j <= 18
    ensures |DaySlots(y, m, d, lo, j)| <= 20
  {
  }

  // ---------------------------------------------------------------------
  // What the filter keeps

  lemma {:induction false} UnbookedIff(days: seq<DateTime>, schedules: seq<SchedulerDto>, t: DateTime)
    ensures t in Unbooked(days, schedules) <==> t in days && !Booked(schedules, t)
    decreases |days|
  {
    if days != [] {
      var init := days[..|days| - 1];
      UnbookedIff(init, schedules, t);
      assert days == init + [days[|days| - 1]];
    }
  }

  lemma {:induction false} UnbookedChronological(days: seq<DateTime>, schedules: seq<SchedulerDto>)
    requires Chronological(days)
    ensures Chronological(Unbooked(days, schedules))
    decreases |days|
  {
    if days != [] {
      var init := days[..|days| - 1];
      var last := days[|days| - 1];
      var s := Unbooked(init, schedules);
      UnbookedChronological(init, schedules);
      if !Booked(schedules, last) {
        forall p, q | 0 <= p < |s| && 0 <= q < 1
          ensures Earlier(s[p], [last][q])
        {
          UnbookedIff(init, schedules, s[p]);
          assert s[p] in s;
          var r :| 0 <= r < |init| && init[r] == s[p];
          assert days[r] == s[p];
        }
        ChronologicalAppend(s, [last]);
      }
    }
  }

  // ---------------------------------------------------------------------
  // What the endpoint returns

  /**
   * A slot is offered exactly when it lies in the rest of the anchor's
   * month on a weekday, starts on a half hour between 08:00 and 17:30,
   * comes after the current hour on the anchor day, and no booking takes it.
   */
  lemma AvailableDaysIff(now: DateTime, schedules: seq<SchedulerDto>, t: DateTime)
    ensures t in AvailableDays(now, Some(schedules)) <==>
      IsOfferedSlot(now, t) && !Booked(schedules, t)
  {
    UnbookedIff(GeneratedSlots(now), schedules, t);
    GeneratedSlotsIff(now, t);
  }

  /** The slots come out in strictly increasing chronological order. */
  lemma AvailableDaysChronological(now: DateTime, schedules: Option<seq<SchedulerDto>>)
    ensures Chronological(AvailableDays(now, schedules))
    ensures var r := AvailableDays(now, schedules);
      forall p, q :: 0 <= p < q < |r| ==> Ordinal(r[p]) < Ordinal(r[q])
  {
    var r := AvailableDays(now, schedules);
    if schedules.Some? {
      var a := Anchor(now);
      MonthSlotsIncreasing(a.year, a.month, a.day, now.hour, DaysInMonth(a.year, a.month) + 1);
      IncreasingIsChronological(GeneratedSlots(now));
      UnbookedChronological(GeneratedSlots(now), schedules.value);
    }
    forall p, q | 0 <= p < q < |r|
      ensures Ordinal(r[p]) < Ordinal(r[q])
    {
      EarlierIffOrdinal(r[p], r[q]);
    }
  }

  /** When the repository returns no list at all, nothing is offered. */
  lemma NoListNoSlots(now: DateTime)
    ensures AvailableDays(now, None) == []
  {
  }

  /** From 18:00 on, the enumeration starts on the next calendar day, which itself yields nothing. */
  lemma EveningAnchorDayIsEmpty(now: DateTime, schedules: seq<SchedulerDto>, t: DateTime)
    requires now.hour >= 18
    requires t in AvailableDays(now, Some(schedules))
    ensures Anchor(now) == NextDay(now)
    ensures (t.year, t.month) == (NextDay(now).year, NextDay(now).month) && t.day > NextDay(now).day
  {
    AvailableDaysIff(now, schedules, t);
  }

  /**
   * Before 18:00 every offered slot passes the slot validator, and every
   * date the validator accepts that has zero seconds, comes after the
   * current hour and is not booked, is offered.
   */
  lemma AvailableDaysMatchValidator(now: DateTime, schedules: seq<SchedulerDto>, t: DateTime)
    requires now.hour < 18
    ensures t in AvailableDays(now, Some(schedules)) ==> IsValidScheduleDate(t, now)
    ensures IsValidScheduleDate(t, now) && t.second == 0 && t.millisecond == 0
         && (t.day == now.day ==> t.hour > now.hour) && !Booked(schedules, t)
         ==> t in AvailableDays(now, Some(schedules))
  {
    AvailableDaysIff(now, schedules, t);
  }

  /**
   * With the clock at 2021-08-10 10:00 and no bookings, the first slot
   * offered is 11:00 that day: the whole 10 o'clock hour is cut off.
   */
  lemma FirstSlotOnTestDate()
    ensures var now := Civil(2021, 8, 10, 10, 0, 0, 0);
      var r := AvailableDays(now, Some([]));
      |r| > 0 && r[0] == Civil(2021, 8, 10, 11, 0, 0, 0)
  {
    var now: DateTime := Civil(2021, 8, 10, 10, 0, 0, 0);
    var t0: DateTime := Civil(2021, 8, 10, 11, 0, 0, 0);
    var r := AvailableDays(now, Some([]));
    TestDateIsTuesday();
    AvailableDaysIff(now, [], t0);
    assert t0 in r;
    AvailableDaysChronological(now, Some([]));
    AvailableDaysIff(now, [], r[0]);
  }

  /** A booking returned at 07:30 (10:30 moved back three hours) takes the 10:30 slot. */
  lemma BookedSlotIsAbsent(dto: SchedulerDto)
    requires dto.dateTime == Civil(2021, 8, 10, 7, 30, 0, 0)
    ensures Civil(2021, 8, 10, 10, 30, 0, 0) !in AvailableDays(Civil(2021, 8, 10, 9, 0, 0, 0), Some([dto]))
    ensures Civil(2021, 8, 10, 11, 0, 0, 0) in AvailableDays(Civil(2021, 8, 10, 9, 0, 0, 0), Some([dto]))
  {
    var now: DateTime := Civil(2021, 8, 10, 9, 0, 0, 0);
    TestDateIsTuesday();
    AvailableDaysIff(now, [dto], Civil(2021, 8, 10, 10, 30, 0, 0));
    AvailableDaysIff(now, [dto], Civil(2021, 8, 10, 11, 0, 0, 0));
    assert [dto][0].dateTime == ShiftHours(Civil(2021, 8, 10, 10, 30, 0, 0), -3);
  }

  /**
   * The unit test's clock (2021-08-10 10:00) and repository answer (one
   * booking returned at 10:30): 10:30 is not offered because the whole
   * 10 o'clock hour is cut off, the booking takes the 13:30 slot, and 13:00
   * is offered.
   */
  lemma UnitTestScenario(dto: SchedulerDto)
    requires dto.dateTime == Civil(2021, 8, 10, 10, 30, 0, 0)
    ensures var r := AvailableDays(Civil(2021, 8, 10, 10, 0, 0, 0), Some([dto]));
      && Civil(2021, 8, 10, 10, 30, 0, 0) !in r
      && Civil(2021, 8, 10, 13, 30, 0, 0) !in r
      && Civil(2021, 8, 10, 13, 0, 0, 0) in r
    ensures Anchor(Civil(2021, 8, 10, 10, 0, 0, 0)).month == 8
  {
    var now: DateTime := Civil(2021, 8, 10, 10, 0, 0, 0);
    TestDateIsTuesday();
    AvailableDaysIff(now, [dto], Civil(2021, 8, 10, 10, 30, 0, 0));
    AvailableDaysIff(now, [dto], Civil(2021, 8, 10, 13, 30, 0, 0));
    AvailableDaysIff(now, [dto], Civil(2021, 8, 10, 13, 0, 0, 0));
    assert [dto][0].dateTime == ShiftHours(Civil(2021, 8, 10, 13, 30, 0, 0), -3);
  }

  // ---------------------------------------------------------------------
  // The endpoint over the booking store

  /**
   * The slots `getAvaliableDaysToSchedule` offers over store st: the
   * bookings are fetched for the anchor's month and, as the provider reads
   * the clock itself, for the current year of the clock.
   */
  function OfferedSlotsAsWritten(st: Store, now: DateTime): seq<DateTime>
    requires Consistent(st)
  {
    AvailableDays(now, Some(BookingStores.GetSchedulesByMonth(st, Num(Anchor(now).month), now.year).value))
  }

  /** The same, with the bookings fetched for the anchor's own month and year. */
  function OfferedSlots(st: Store, now: DateTime): seq<DateTime>
    requires Consistent(st)
  {
    AvailableDays(now, Some(Views(st, InMonth(st.rows, Anchor(now).month, Anchor(now).year))))
  }

  /** A booking returned by the store takes a slot exactly when the booking is stored at that slot. */
  lemma BookedIffStored(st: Store, rows: seq<Row>, t: DateTime)
    requires forall r :: r in rows ==> Linked(st, r)
    ensures Booked(Views(st, rows), t) <==> DateTaken(rows, t)
  {
    var vs := Views(st, rows);
    if Booked(vs, t) {
      var k :| 0 <= k < |vs| && vs[k].dateTime == ShiftHours(t, -3);
      assert ShiftHours(rows[k].date, -3) == ShiftHours(t, -3);
      ShiftHoursInjective(rows[k].date, t, -3);
    }
    if DateTaken(rows, t) {
      var k :| 0 <= k < |rows| && rows[k].date == t;
      assert vs[k].dateTime == ShiftHours(t, -3);
    }
  }

  /** A date is taken in a month's selection exactly when it is taken and lies in that month. */
  lemma TakenInMonth(rows: seq<Row>, month: int, year: int, t: DateTime)
    ensures DateTaken(InMonth(rows, month, year), t) <==>
      DateTaken(rows, t) && t.month == month && t.year == year
  {
    var p := (r: Row) => r.date.month == month && r.date.year == year;
    var s := InMonth(rows, month, year);
    if DateTaken(s, t) {
      var k :| 0 <= k < |s| && s[k].date == t;
      SelectIff(rows, p, s[k]);
      var j :| 0 <= j < |rows| && rows[j] == s[k];
    }
    if DateTaken(rows, t) && t.month == month && t.year == year {
      var j :| 0 <= j < |rows| && rows[j].date == t;
      SelectIff(rows, p, rows[j]);
      var k :| 0 <= k < |s| && s[k] == rows[j];
    }
  }

  /**
   * With the bookings of the anchor's month and year, a slot is offered
   * exactly when it is an offered slot and no booking is stored at it, so
   * that `createSchedule` would not refuse it as taken.
   */
  lemma OfferedSlotsIff(st: Store, now: DateTime, t: DateTime)
    requires Consistent(st)
    ensures t in OfferedSlots(st, now) <==> IsOfferedSlot(now, t) && !DateTaken(st.rows, t)
  {
    var a := Anchor(now);
    var inMonth := InMonth(st.rows, a.month, a.year);
    AvailableDaysIff(now, Views(st, inMonth), t);
    BookedIffStored(st, inMonth, t);
    TakenInMonth(st.rows, a.month, a.year, t);
  }

  /**
   * As written, a booking is only seen when the anchor lies in the clock's
   * current year; otherwise every offered slot is offered, booked or not.
   */
  lemma OfferedSlotsAsWrittenIff(st: Store, now: DateTime, t: DateTime)
    requires Consistent(st)
    ensures t in OfferedSlotsAsWritten(st, now) <==>
      IsOfferedSlot(now, t) && (t.year == now.year ==> !DateTaken(st.rows, t))
  {
    var a := Anchor(now);
    var inMonth := InMonth(st.rows, a.month, now.year);
    assert BookingStores.GetSchedulesByMonth(st, Num(a.month), now.year).value == Views(st, inMonth);
    AvailableDaysIff(now, Views(st, inMonth), t);
    BookedIffStored(st, inMonth, t);
    TakenInMonth(st.rows, a.month, now.year, t);
  }

  /** The anchor leaves the clock's year only on 31 December from 18:00 on, and then the two agree no more. */
  lemma AnchorLeavesYear(now: DateTime)
    ensures Anchor(now).year != now.year <==> now.month == 12 && now.day == 31 && now.hour >= 18
  {
  }

  /** In every other case the code as written offers exactly the intended slots. */
  lemma AsWrittenAgreesWithinYear(st: Store, now: DateTime)
    requires Consistent(st) && Anchor(now).year == now.year
    ensures OfferedSlotsAsWritten(st, now) == OfferedSlots(st, now)
  {
  }

  const NewYearEve: DateTime := Civil(2021, 12, 31, 18, 0, 0, 0)
  const FirstMondayOf2022: DateTime := Civil(2022, 1, 3, 8, 0, 0, 0)

  /** At 18:00 on 2021-12-31 the enumeration reaches into January 2022, up to its Monday the 3rd. */
  lemma FirstMondayOf2022IsOffered()
    ensures IsOfferedSlot(NewYearEve, FirstMondayOf2022)
  {
    assert Anchor(NewYearEve) == Civil(2022, 1, 1, 18, 0, 0, 0);
    assert DayOfWeek(2022, 1, 3) == 1;
  }

  /**
   * A store holding a booking at 08:00 on Monday 2022-01-03. `createSchedule`
   * refuses that date before the new year, but `updateSchedule` checks no
   * date, so moving an earlier booking there yields this store.
   */
  lemma StoreWithNewYearBooking()
    ensures var car := Car("ABC1234", "Gol");
            var customer := Customer("12345678901", "Ana", "11999999999");
            var st := Store(map["ABC1234" := car], map["12345678901" := customer],
                            [Row(1, FirstMondayOf2022, "ABC1234", "12345678901")], 2);
            var before := st.(rows := [Row(1, Civil(2021, 12, 1, 8, 0, 0, 0), "ABC1234", "12345678901")]);
            var dto := SchedulerDto("Ana", "11999999999", "12345678901", "Gol", "ABC1234", FirstMondayOf2022);
      && Consistent(before)
      && UpdateSchedule(before, Num(1), dto) == Outcome(st, Ok(()))
      && Consistent(st) && DateTaken(st.rows, FirstMondayOf2022)
  {
    var car := Car("ABC1234", "Gol");
    var customer := Customer("12345678901", "Ana", "11999999999");
    var st := Store(map["ABC1234" := car], map["12345678901" := customer],
                    [Row(1, FirstMondayOf2022, "ABC1234", "12345678901")], 2);
    var before := st.(rows := [Row(1, Civil(2021, 12, 1, 8, 0, 0, 0), "ABC1234", "12345678901")]);
    assert before.rows[0].id == 1;
    assert st.rows[0].date == FirstMondayOf2022;
  }

  /**
   * On 2021-12-31 at 18:00 the code as written offers 08:00 on Monday
   * 2022-01-03 although a booking is stored at it; the intended answer does not.
   */
  lemma NewYearEveOffersBookedSlot(st: Store)
    requires Consistent(st) && DateTaken(st.rows, FirstMondayOf2022)
    ensures FirstMondayOf2022 in OfferedSlotsAsWritten(st, NewYearEve)
    ensures FirstMondayOf2022 !in OfferedSlots(st, NewYearEve)
  {
    FirstMondayOf2022IsOffered();
    OfferedSlotsAsWrittenIff(st, NewYearEve, FirstMondayOf2022);
    OfferedSlotsIff(st, NewYearEve, FirstMondayOf2022);
  }

  // ---------------------------------------------------------------------
  // The service object

  /** `ScheduleService`: the availability endpoint, and every other operation forwarded unchanged. */
  class ScheduleService {
    const databaseService: MysqlProvider

    constructor(databaseService: MysqlProvider)
      ensures this.databaseService == databaseService
    {
      this.databaseService := databaseService;
    }

    method CreateSchedule(createSchedulerDto: SchedulerDto, now: DateTime) returns (r: Result<Created, StoreError>)
      requires databaseService.Valid()
      modifies databaseService
      ensures databaseService.Valid()
      ensures Outcome(databaseService.Abstract(), r)
           == BookingStores.CreateSchedule(old(databaseService.Abstract()), createSchedulerDto, now)
    {
      r := databaseService.CreateSchedule(createSchedulerDto, now);
    }

    method GetAllSchedules() returns (r: seq<SchedulerDto>)
      requires databaseService.Valid()
      ensures r == BookingStores.GetAllSchedules(databaseService.Abstract())
    {
      r := databaseService.GetAllSchedules();
    }

    method DeleteSchedule(scheduleId: NumberArg) returns (r: Result<(), StoreError>)
      requires databaseService.Valid()
      modifies databaseService
      ensures databaseService.Valid()
      ensures Outcome(databaseService.Abstract(), r)
           == BookingStores.DeleteSchedule(old(databaseService.Abstract()), scheduleId)
    {
      r := databaseService.DeleteSchedule(scheduleId);
    }

    method UpdateSchedule(scheduleId: NumberArg, schedulerDto: SchedulerDto) returns (r: Result<(), StoreError>)
      requires databaseService.Valid()
      modifies databaseService
      ensures databaseService.Valid()
      ensures Outcome(databaseService.Abstract(), r)
           == BookingStores.UpdateSchedule(old(databaseService.Abstract()), scheduleId, schedulerDto)
    {
      r := databaseService.UpdateSchedule(scheduleId, schedulerDto);
    }

    method GetSchedule(scheduleId: NumberArg) returns (r: Result<SchedulerDto, StoreError>)
      requires databaseService.Valid()
      ensures r == BookingStores.GetSchedule(databaseService.Abstract(), scheduleId)
    {
      r := databaseService.GetSchedule(scheduleId);
    }

    method GetSchedulesByLicensePlate(carLicensePlate: string) returns (r: Result<seq<SchedulerDto>, StoreError>)
      requires databaseService.Valid()
      ensures r == BookingStores.GetSchedulesByLicensePlate(databaseService.Abstract(), carLicensePlate)
    {
      r := databaseService.GetSchedulesByLicensePlate(carLicensePlate);
    }

    method GetSchedulesByCpf(cpf: string) returns (r: Result<seq<SchedulerDto>, StoreError>)
      requires databaseService.Valid()
      ensures r == BookingStores.GetSchedulesByCpf(databaseService.Abstract(), cpf)
    {
      r := databaseService.GetSchedulesByCpf(cpf);
    }

    /** `actualYear` is the year the provider reads from the clock. */
    method GetSchedulesByMonth(month: NumberArg, actualYear: int) returns (r: Result<seq<SchedulerDto>, StoreError>)
      requires databaseService.Valid()
      ensures r == BookingStores.GetSchedulesByMonth(databaseService.Abstract(), month, actualYear)
    {
      r := databaseService.GetSchedulesByMonth(month, actualYear);
    }

    method GetSchedulesByWeek(week: NumberArg, month: NumberArg, actualYear: int, isoWeek: DateTime -> int)
      returns (r: Result<seq<SchedulerDto>, StoreError>)
      requires databaseService.Valid()
      ensures r == BookingStores.GetSchedulesByWeek(databaseService.Abstract(), week, month, actualYear, isoWeek)
    {
      r := databaseService.GetSchedulesByWeek(week, month, actualYear, isoWeek);
    }

    /**
     * `getAvaliableDaysToSchedule`: generate the slots, fetch the bookings
     * of the anchor's month, and keep the free slots when a list came back.
     */
    method GetAvaliableDaysToSchedule(now: DateTime) returns (avaliableDays: seq<DateTime>)
      requires databaseService.Valid()
      ensures avaliableDays == OfferedSlotsAsWritten(databaseService.Abstract(), now)
    {
      var days := EnumerateSlots(now);
      var schedules := databaseService.GetSchedulesByMonth(Num(Anchor(now).month), now.year);
      avaliableDays := [];
      if schedules.Ok? {
        avaliableDays := KeepUnbooked(days, schedules.value);
      }
    }
  }
}
