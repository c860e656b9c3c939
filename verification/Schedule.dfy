/**
 When a scheduled query is due (`should_schedule_next`): clock times, weekdays and the
 exponential delay after failures. Instants count microseconds from 0001-01-01 00:00 UTC.
 */
module Schedule {
  import opened Text

  function Seconds(n: int): int { n * 1_000_000 }

  function Minutes(n: int): int { n * 60_000_000 }

  function Days(n: int): int { n * 86_400_000_000 }

  function DayOf(t: int): int { t / 86_400_000_000 }

  function MinuteOfDay(t: int): int { t / 60_000_000 % 1440 }

  function InMinute(t: int): int { t % 60_000_000 }

  function HourOf(t: int): int { MinuteOfDay(t) / 60 }

  function MinuteOf(t: int): int { MinuteOfDay(t) % 60 }

  /** An instant is its day, its minute of the day and what is left, in exactly one way. */
  lemma Composed(day: int, minute: int, rest: int)
    requires 0 <= minute < 1440 && 0 <= rest < 60_000_000
    ensures var t := Days(day) + Minutes(minute) + rest;
            DayOf(t) == day && MinuteOfDay(t) == minute && InMinute(t) == rest
  {
    var t := Days(day) + Minutes(minute) + rest;
    assert t / 60_000_000 == day * 1440 + minute;
    assert t == day * 86_400_000_000 + (minute * 60_000_000 + rest);
  }

  lemma Decomposed(t: int)
    ensures t == Days(DayOf(t)) + Minutes(MinuteOfDay(t)) + InMinute(t)
    ensures 0 <= MinuteOfDay(t) < 1440 && 0 <= InMinute(t) < 60_000_000
  {
    var n := t / 60_000_000;
    var day, minute := n / 1440, n % 1440;
    assert t == Days(day) + Minutes(minute) + InMinute(t);
    Composed(day, minute, InMinute(t));
  }

  /** The calendar ends with 9999-12-31. */
  predicate IsInstant(t: int) {
    0 <= t < Days(3_652_059)
  }

  type Instant = t: int | IsInstant(t) witness 0

  /** Adding a duration to an instant may leave the calendar. */
  function Shift(t: Instant, duration: int): Result<Instant, string> {
    if IsInstant(t + duration) then Success(t + duration) else Failure("OverflowError")
  }

  /** `t.replace(hour=hour, minute=minute)`: seconds and microseconds stay. */
  function Replace(t: Instant, hour: int, minute: int): (r: Instant)
    requires 0 <= hour < 24 && 0 <= minute < 60
    ensures DayOf(r) == DayOf(t) && HourOf(r) == hour && MinuteOf(r) == minute && InMinute(r) == InMinute(t)
  {
    Composed(DayOf(t), 60 * hour + minute, InMinute(t));
    Decomposed(t);
    assert IsInstant(t) && DayOf(t) <= 3_652_058;
    Days(DayOf(t)) + Minutes(60 * hour + minute) + InMinute(t)
  }

  /** 0001-01-01 was a Monday; Monday is 0. */
  function Weekday(t: int): int { DayOf(t) % 7 }

  /** The arguments as the stored schedule supplies them. */
  datatype Interval = Every(seconds: int) | NotANumber
  datatype Clock = AnyTime | At(hour: int, minute: int) | NotATime
  datatype Day = AnyDay | On(index: int) | UnknownDay

  datatype Plan = Plan(interval: Interval, clock: Clock, day: Day)

  predicate ValidClock(c: Clock) {
    c.At? && 0 <= c.hour < 24 && 0 <= c.minute < 60
  }

  predicate ValidDay(d: Day) {
    d.AnyDay? || (d.On? && 0 <= d.index < 7)
  }

  /** The previous iteration, moved to the day before when it ran before the scheduled minute. */
  function StartDay(previous: Instant, clock: Clock): int
    requires ValidClock(clock)
  {
    var normalized := Replace(previous, clock.hour, clock.minute);
    if normalized > previous then normalized - Days(1) else previous
  }

  /** The days the weekday of the schedule adds, counted from the normalized previous run. */
  function DaysToAdd(previous: Instant, clock: Clock, day: Day): int
    requires ValidClock(clock)
  {
    if day.On? then day.index - Weekday(Replace(previous, clock.hour, clock.minute)) else 0
  }

  /** The next iteration before any delay for failures; every exception is a Failure. */
  function NextIteration(previous: Instant, plan: Plan): Result<Instant, string> {
    if plan.interval.NotANumber? then Failure("ValueError")
    else if plan.clock.AnyTime? then Shift(previous, Seconds(plan.interval.seconds))
    else if !ValidClock(plan.clock) || !ValidDay(plan.day) then Failure("ValueError")
    else
      var start := StartDay(previous, plan.clock);
      if !IsInstant(start) then Failure("OverflowError") else
      var delayed := start + Seconds(plan.interval.seconds);
      if !IsInstant(delayed) then Failure("OverflowError") else
      var next := delayed + Days(DaysToAdd(previous, plan.clock, plan.day));
      if !IsInstant(next) then Failure("OverflowError")
      else Success(Replace(next, plan.clock.hour, plan.clock.minute))
  }

  function Pow2(n: nat): (p: nat)
    ensures p >= 1
  {
    if n == 0 then 1 else 2 * Pow2(n - 1)
  }

  /** `should_schedule_next`. */
  function ShouldScheduleNext(previous: Instant, now: Instant, plan: Plan, failures: nat): Result<bool, string> {
    var next := NextIteration(previous, plan);
    if next.Failure? then Failure(next.error)
    else if failures > 0 then
      var delayed := Shift(next.value, Minutes(Pow2(failures)));
      if delayed.Failure? then Success(false) else Success(now > delayed.value)
    else Success(now > next.value)
  }

  // ----- daily slots -----

  /** The minute of the day the schedule asks for. */
  function ClockMinute(clock: Clock): (m: int)
    requires ValidClock(clock)
    ensures 0 <= m < 1440
  {
    60 * clock.hour + clock.minute
  }

  /** Whether the clock at t shows the scheduled minute or a later one. */
  predicate AtOrAfterSlot(t: int, clock: Clock)
    requires ValidClock(clock)
  {
    MinuteOfDay(t) >= ClockMinute(clock)
  }

  /** The day of the latest slot that is not after t. */
  function SlotDay(t: int, clock: Clock): int
    requires ValidClock(clock)
  {
    if AtOrAfterSlot(t, clock) then DayOf(t) else DayOf(t) - 1
  }

  function SlotBefore(t: int, clock: Clock): int
    requires ValidClock(clock)
  {
    Days(SlotDay(t, clock)) + Minutes(ClockMinute(clock))
  }

  /** A slot shows hh:mm:00, is not after t, and the next one is. */
  lemma SlotBeforeIsLatest(t: int, clock: Clock)
    requires ValidClock(clock)
    ensures var s := SlotBefore(t, clock);
            s <= t < s + Days(1) && HourOf(s) == clock.hour && MinuteOf(s) == clock.minute && InMinute(s) == 0
  {
    Decomposed(t);
    Composed(SlotDay(t, clock), ClockMinute(clock), 0);
  }

  predicate EveryNDays(plan: Plan, days: int) {
    plan.interval == Every(days * 86_400) && ValidClock(plan.clock) && ValidDay(plan.day)
  }

  lemma MovedByDays(t: int, days: int)
    ensures DayOf(t + Days(days)) == DayOf(t) + days
    ensures MinuteOfDay(t + Days(days)) == MinuteOfDay(t) && InMinute(t + Days(days)) == InMinute(t)
  {
    Decomposed(t);
    Composed(DayOf(t) + days, MinuteOfDay(t), InMinute(t));
  }

  /** The days the weekday of the schedule adds, counted from the weekday of the previous run. */
  function ExtraDays(previous: int, day: Day): int {
    if day.On? then day.index - Weekday(previous) else 0
  }

  lemma StartIsSlotDay(previous: Instant, clock: Clock, day: Day)
    requires ValidClock(clock)
    ensures DayOf(StartDay(previous, clock)) == SlotDay(previous, clock)
    ensures InMinute(StartDay(previous, clock)) == InMinute(previous)
    ensures DaysToAdd(previous, clock, day) == ExtraDays(previous, day)
  {
    Decomposed(previous);
    MovedByDays(Replace(previous, clock.hour, clock.minute), -1);
  }

  /**
   The next iteration of an N-day schedule in closed form: the latest slot that is not
   after the previous run, plus N days, plus the weekday correction, with the previous
   run's seconds carried along.
   */
  lemma NextIsSlot(previous: Instant, plan: Plan, days: int)
    requires EveryNDays(plan, days)
    ensures NextIteration(previous, plan).Success? ==>
              NextIteration(previous, plan).value ==
              SlotBefore(previous, plan.clock) + Days(days + ExtraDays(previous, plan.day)) + InMinute(previous)
  {
    if NextIteration(previous, plan).Success? {
      var start, extra := StartDay(previous, plan.clock), DaysToAdd(previous, plan.clock, plan.day);
      NextUnfolded(previous, plan, days, start, extra);
      NextFrom(start, plan, days, extra);
      StartIsSlotDay(previous, plan.clock, plan.day);
    }
  }

  lemma NextUnfolded(previous: Instant, plan: Plan, days: int, start: int, extra: int)
    requires EveryNDays(plan, days)
    requires start == StartDay(previous, plan.clock) && extra == DaysToAdd(previous, plan.clock, plan.day)
    ensures NextIteration(previous, plan).Success? ==>
              IsInstant(start + Seconds(days * 86_400) + Days(extra))
              && NextIteration(previous, plan).value ==
                 Replace(start + Seconds(days * 86_400) + Days(extra), plan.clock.hour, plan.clock.minute)
  {
  }

  lemma NextFrom(start: int, plan: Plan, days: int, extra: int)
    requires EveryNDays(plan, days)
    requires IsInstant(start + Seconds(days * 86_400) + Days(extra))
    ensures Replace(start + Seconds(days * 86_400) + Days(extra), plan.clock.hour, plan.clock.minute) ==
            Days(DayOf(start)) + Minutes(ClockMinute(plan.clock)) + Days(days + extra) + InMinute(start)
  {
    assert Seconds(days * 86_400) + Days(extra) == Days(days + extra);
    MovedByDays(start, days + extra);
  }

  /** Without a weekday the next iteration is at hh:mm, keeps the seconds, and lies in (N-1, N] days. */
  lemma DailyBounds(previous: Instant, plan: Plan, days: int)
    requires EveryNDays(plan, days) && plan.day.AnyDay?
    ensures NextIteration(previous, plan).Success? ==>
              var next := NextIteration(previous, plan).value;
              HourOf(next) == plan.clock.hour && MinuteOf(next) == plan.clock.minute
              && InMinute(next) == InMinute(previous)
              && previous + Days(days - 1) < next <= previous + Days(days)
  {
    NextIsSlot(previous, plan, days);
    Decomposed(previous);
    Composed(SlotDay(previous, plan.clock) + days, ClockMinute(plan.clock), InMinute(previous));
  }

  /**
   Each slot is served once: a query is due within the minute of the slot N days after
   the one it served last and not earlier, and any run that was due serves a slot at
   least N days later.
   */
  lemma SlotsServedOnce(previous: Instant, now: Instant, plan: Plan, days: int)
    requires EveryNDays(plan, days) && plan.day.AnyDay?
    ensures var due := ShouldScheduleNext(previous, now, plan, 0);
            due.Success? ==>
              var slot := SlotBefore(previous, plan.clock) + Days(days);
              (due.value ==> now > slot && SlotBefore(now, plan.clock) >= slot)
              && (now >= slot + Minutes(1) ==> due.value)
  {
    NextIsSlot(previous, plan, days);
    Decomposed(previous);
    Decomposed(now);
    var day := SlotDay(previous, plan.clock) + days;
    var slot := SlotBefore(previous, plan.clock) + Days(days);
    assert slot == Days(day) + Minutes(ClockMinute(plan.clock));
    if now > slot {
      SlotNotLater(now, day, plan.clock);
    }
  }

  lemma SlotNotLater(now: int, day: int, clock: Clock)
    requires ValidClock(clock) && now >= Days(day) + Minutes(ClockMinute(clock))
    ensures SlotBefore(now, clock) >= Days(day) + Minutes(ClockMinute(clock))
  {
    SlotBeforeIsLatest(now, clock);
    assert Days(SlotDay(now, clock) + 1) > Days(day);
  }

  /**
   A weekday schedule over whole weeks moves strictly forward, and hits the requested
   weekday exactly when the previous run's clock was at or after the scheduled minute;
   otherwise it falls on the day before.
   */
  lemma WeekdayNext(previous: Instant, plan: Plan, weeks: int)
    requires EveryNDays(plan, 7 * weeks) && weeks > 0 && plan.day.On?
    ensures NextIteration(previous, plan).Success? ==>
              var next := NextIteration(previous, plan).value;
              next > previous
              && Weekday(next) ==
                 (if AtOrAfterSlot(previous, plan.clock) then plan.day.index else (plan.day.index + 6) % 7)
              && (Weekday(next) == plan.day.index <==> AtOrAfterSlot(previous, plan.clock))
  {
    if NextIteration(previous, plan).Success? {
      NextIsSlot(previous, plan, 7 * weeks);
      WeekdayOf(previous, NextIteration(previous, plan).value, plan.clock, weeks, plan.day.index);
    }
  }

  lemma WeekdayOf(previous: int, next: int, clock: Clock, weeks: int, index: int)
    requires ValidClock(clock) && 0 <= index < 7 && weeks > 0
    requires next == SlotBefore(previous, clock) + Days(7 * weeks + index - Weekday(previous)) + InMinute(previous)
    ensures next > previous
    ensures Weekday(next) == if AtOrAfterSlot(previous, clock) then index else (index + 6) % 7
  {
    Decomposed(previous);
    FromSlot(DayOf(previous), MinuteOfDay(previous), SlotDay(previous, clock), ClockMinute(clock), InMinute(previous),
             weeks, index);
  }

  lemma FromSlot(day: int, minute: int, slotDay: int, slotMinute: int, rest: int, weeks: int, index: int)
    requires 0 <= minute < 1440 && 0 <= slotMinute < 1440 && 0 <= rest < 60_000_000
    requires 0 <= index < 7 && weeks > 0 && slotDay == if minute >= slotMinute then day else day - 1
    ensures var next := Days(slotDay) + Minutes(slotMinute) + Days(7 * weeks + index - day % 7) + rest;
            next > Days(day) + Minutes(minute) + rest
            && DayOf(next) % 7 == if minute >= slotMinute then index else (index + 6) % 7
  {
    NextDayOfWeek(day, slotDay, weeks, index);
    DaysAdd(slotDay, 7 * weeks + index - day % 7);
    LaterDay(day, minute, slotDay + 7 * weeks + index - day % 7, slotMinute, rest);
  }

  lemma DaysAdd(m: int, n: int)
    ensures Days(m) + Days(n) == Days(m + n)
  {
  }

  lemma LaterDay(day: int, minute: int, nextDay: int, nextMinute: int, rest: int)
    requires 0 <= minute < 1440 && 0 <= nextMinute < 1440 && 0 <= rest < 60_000_000
    requires nextDay > day || (nextDay == day && nextMinute > minute)
    ensures Days(nextDay) + Minutes(nextMinute) + rest > Days(day) + Minutes(minute) + rest
    ensures DayOf(Days(nextDay) + Minutes(nextMinute) + rest) == nextDay
  {
    Composed(nextDay, nextMinute, rest);
  }

  lemma NextDayOfWeek(day: int, slotDay: int, weeks: int, index: int)
    requires 0 <= index < 7 && weeks > 0 && day - 1 <= slotDay <= day
    ensures var next := slotDay + 7 * weeks + index - day % 7;
            next >= slotDay + 1 && next % 7 == if slotDay == day then index else (index + 6) % 7
  {
    var k := day / 7 + weeks;
    var next := slotDay + 7 * weeks + index - day % 7;
    assert next == 7 * k + (index + slotDay - day);
    if slotDay == day {
      assert (7 * k + index) % 7 == index;
    } else {
      assert (7 * (k - 1) + (index + 6)) % 7 == (index + 6) % 7;
    }
  }

  // ----- exponential delay -----

  lemma {:induction false} Pow2Grows(m: nat, n: nat)
    requires m <= n
    ensures Pow2(m) <= Pow2(n)
  {
    if m < n {
      Pow2Grows(m, n - 1);
    }
  }

  /** The delay counted without the calendar: no delay at all before the first failure. */
  function Delay(failures: nat): nat {
    if failures == 0 then 0 else Minutes(Pow2(failures))
  }

  /** Leaving the calendar is treated as not due, which is what unbounded dates would say. */
  lemma DueIsUnbounded(previous: Instant, now: Instant, plan: Plan, failures: nat)
    ensures ShouldScheduleNext(previous, now, plan, failures) ==
            match NextIteration(previous, plan)
            case Failure(error) => Failure(error)
            case Success(next) => Success(now > next + Delay(failures))
  {
    if NextIteration(previous, plan).Failure? {
      return;
    }
    var next := NextIteration(previous, plan).value;
    if failures > 0 && Shift(next, Minutes(Pow2(failures))).Failure? {
      assert IsInstant(now) && next + Delay(failures) >= Days(3_652_059);
    }
  }

  /** More failures never make a query due. */
  lemma FailuresNeverHelp(previous: Instant, now: Instant, plan: Plan, few: nat, many: nat)
    requires few <= many
    ensures ShouldScheduleNext(previous, now, plan, many) == Success(true) ==>
              ShouldScheduleNext(previous, now, plan, few) == Success(true)
  {
    DueIsUnbounded(previous, now, plan, few);
    DueIsUnbounded(previous, now, plan, many);
    Pow2Grows(few, many);
  }

  /** The interval is not negative, and with a time of day it is whole days, on a weekday whole weeks. */
  predicate LooksAhead(plan: Plan, days: int) {
    if plan.clock.AnyTime? then plan.interval.Every? ==> plan.interval.seconds >= 0
    else EveryNDays(plan, days) && days > 0 && (plan.day.On? ==> days % 7 == 0)
  }

  lemma NextIsNotEarlier(previous: Instant, plan: Plan, days: int)
    requires LooksAhead(plan, days)
    ensures NextIteration(previous, plan).Success? ==> NextIteration(previous, plan).value >= previous
  {
    if plan.clock.AnyTime? {
      return;
    }
    if plan.day.On? {
      WeekdayNext(previous, plan, days / 7);
    } else {
      DailyBounds(previous, plan, days);
    }
  }

  /** A query whose previous run is not in the past is not due, whatever has failed. */
  lemma NotDueBeforePrevious(previous: Instant, now: Instant, plan: Plan, failures: nat, days: int)
    requires LooksAhead(plan, days) && now <= previous
    ensures ShouldScheduleNext(previous, now, plan, failures) != Success(true)
  {
    NextIsNotEarlier(previous, plan, days);
    DueIsUnbounded(previous, now, plan, failures);
  }

  /** A query that has never run is compared with now itself, so a schedule that looks ahead is never due. */
  lemma NeverRunIsNeverDue(now: Instant, plan: Plan, failures: nat, days: int)
    requires LooksAhead(plan, days)
    ensures ShouldScheduleNext(now, now, plan, failures) != Success(true)
  {
    NotDueBeforePrevious(now, now, plan, failures, days);
  }

  /** Whether a query that has never run is due all the same: its next iteration lies in the past. */
  predicate PlansBack(now: Instant, plan: Plan) {
    if plan.interval.NotANumber? then false
    else if plan.clock.AnyTime? then plan.interval.seconds < 0
    else
      ValidClock(plan.clock)
      && var days := plan.interval.seconds / 86_400 + ExtraDays(now, plan.day);
      days < 0 || (days == 0 && MinuteOfDay(now) != ClockMinute(plan.clock))
  }

  /**
   For whole days: a query that has never run, and has not failed, is due exactly when the
   plan looks back, as on a weekday earlier in the week than today by more than the interval.
   */
  lemma NeverRunDueIff(now: Instant, plan: Plan, days: int)
    requires plan.clock.AnyTime? || EveryNDays(plan, days)
    requires NextIteration(now, plan).Success?
    ensures ShouldScheduleNext(now, now, plan, 0) == Success(true) <==> PlansBack(now, plan)
  {
    if !plan.clock.AnyTime? {
      NextIsSlot(now, plan, days);
      Decomposed(now);
      var extra := days + ExtraDays(now, plan.day);
      PastByDays(DayOf(now), MinuteOfDay(now), ClockMinute(plan.clock), extra);
      DaysAdd(SlotDay(now, plan.clock), extra);
    }
  }

  lemma PastByDays(day: int, minute: int, slotMinute: int, extra: int)
    requires 0 <= minute < 1440 && 0 <= slotMinute < 1440
    ensures var slotDay := if minute >= slotMinute then day else day - 1;
            Days(slotDay + extra) + Minutes(slotMinute) < Days(day) + Minutes(minute)
            <==> extra < 0 || (extra == 0 && minute != slotMinute)
  {
  }

  // ----- runs in which every attempt fails -----

  predicate Due(previous: Instant, now: Instant, plan: Plan, failures: nat) {
    ShouldScheduleNext(previous, now, plan, failures) == Success(true)
  }

  /** The instants at which the query is tried, when each tick is handled with the failures counted so far. */
  function Attempts(previous: Instant, plan: Plan, ticks: seq<Instant>): (a: seq<Instant>)
    ensures |a| <= |ticks|
  {
    if ticks == [] then []
    else
      var before := Attempts(previous, plan, ticks[..|ticks| - 1]);
      var now := ticks[|ticks| - 1];
      if Due(previous, now, plan, |before|) then before + [now] else before
  }

  /**
   In every run the k-th retry comes more than 2^k minutes after the undelayed due time,
   so the number of failures is at most logarithmic in the time that has passed.
   */
  lemma {:induction false} AttemptsAreDelayed(previous: Instant, plan: Plan, ticks: seq<Instant>, k: nat)
    requires NextIteration(previous, plan).Success? && k < |Attempts(previous, plan, ticks)|
    ensures Attempts(previous, plan, ticks)[k] in ticks
    ensures Attempts(previous, plan, ticks)[k] > NextIteration(previous, plan).value + Delay(k)
  {
    var last := |ticks| - 1;
    var before := Attempts(previous, plan, ticks[..last]);
    if k < |before| {
      AttemptsAreDelayed(previous, plan, ticks[..last], k);
    } else {
      DueIsUnbounded(previous, ticks[last], plan, k);
    }
  }

  /** After F failures, F is at most one or more than 2^(F-1) minutes have passed since the due time. */
  lemma BackoffBound(previous: Instant, plan: Plan, ticks: seq<Instant>, now: int)
    requires NextIteration(previous, plan).Success?
    requires forall t :: t in ticks ==> t <= now
    ensures var failures := |Attempts(previous, plan, ticks)|;
            failures <= 1 || now - NextIteration(previous, plan).value > Minutes(Pow2(failures - 1))
  {
    var failures := |Attempts(previous, plan, ticks)|;
    if failures > 1 {
      AttemptsAreDelayed(previous, plan, ticks, failures - 1);
    }
  }

  /** Ticks at most `gap` apart, the first at most `gap` after the due time. */
  predicate TicksWithin(ticks: seq<Instant>, gap: int, due: int) {
    (ticks != [] ==> ticks[0] <= due + gap) && forall i :: 0 <= i < |ticks| - 1 ==> ticks[i + 1] <= ticks[i] + gap
  }

  /** How long after the undelayed due time the k-th retry has been made at the latest. */
  function Wait(k: nat, gap: nat): nat {
    if k == 0 then gap
    else (if Wait(k - 1, gap) > Delay(k) then Wait(k - 1, gap) else Delay(k)) + gap
  }

  lemma {:induction false} WaitIsShort(k: nat, gap: nat)
    ensures Delay(k) + gap <= Wait(k, gap) <= Delay(k) + (k + 1) * gap
    ensures gap <= Minutes(2) ==> Wait(k, gap) == Delay(k) + gap
  {
    if k > 0 {
      WaitIsShort(k - 1, gap);
      assert (k + 1) * gap == k * gap + gap;
      assert Pow2(k) == 2 * Pow2(k - 1) && (k > 1 ==> Pow2(k - 1) == 2 * Pow2(k - 2));
      assert k > 1 ==> Delay(k - 1) == Minutes(Pow2(k - 1)) && Delay(k) == 2 * Delay(k - 1);
    }
  }

  lemma {:induction false} RetriesHappen(previous: Instant, plan: Plan, ticks: seq<Instant>, gap: nat, k: nat)
    requires NextIteration(previous, plan).Success? && gap > 0 && ticks != []
    requires TicksWithin(ticks, gap, NextIteration(previous, plan).value)
    requires ticks[|ticks| - 1] >= NextIteration(previous, plan).value + Wait(k, gap)
    ensures |Attempts(previous, plan, ticks)| > k
    decreases |ticks|
  {
    var last := |ticks| - 1;
    var front := ticks[..last];
    var before := Attempts(previous, plan, front);
    if k > 0 && front != [] {
      assert front[last - 1] == ticks[last - 1] && ticks[(last - 1) + 1] <= ticks[last - 1] + gap;
      RetriesHappen(previous, plan, front, gap, k - 1);
    }
    if |before| == k {
      WaitIsShort(k, gap);
      DueIsUnbounded(previous, ticks[last], plan, k);
    }
  }

  /**
   And the delay starves nobody: over any run of ticks at most `gap` apart, the k-th retry
   comes at most k + 1 gaps after its delay is over, and at most one gap after it when the
   ticks are no more than two minutes apart.
   */
  lemma AttemptsKeepUp(previous: Instant, plan: Plan, ticks: seq<Instant>, gap: nat, k: nat)
    requires NextIteration(previous, plan).Success? && gap > 0 && ticks != []
    requires TicksWithin(ticks, gap, NextIteration(previous, plan).value)
    requires ticks[|ticks| - 1] >=
             NextIteration(previous, plan).value + Delay(k) + if gap <= Minutes(2) then gap else (k + 1) * gap
    ensures |Attempts(previous, plan, ticks)| >= k + 1
  {
    WaitIsShort(k, gap);
    RetriesHappen(previous, plan, ticks, gap, k);
  }

  // ----- runs in which every attempt succeeds -----

  /**
   The instants at which the query runs after `failures` failures, when each run becomes the
   previous one of the next.
   */
  function Runs(previous: Instant, plan: Plan, failures: nat, ticks: seq<Instant>): (runs: seq<Instant>)
    ensures |runs| <= |ticks|
  {
    if ticks == [] then []
    else
      var before := Runs(previous, plan, failures, ticks[..|ticks| - 1]);
      var now := ticks[|ticks| - 1];
      if Due(LatestRun(previous, before), now, plan, failures) then before + [now] else before
  }

  function LatestRun(previous: Instant, runs: seq<Instant>): Instant {
    if runs == [] then previous else runs[|runs| - 1]
  }

  /** The runs serve the slots one after the other, `step` days apart. */
  ghost predicate InOrder(previous: Instant, clock: Clock, step: int, runs: seq<Instant>)
    requires ValidClock(clock)
  {
    forall k :: 0 <= k < |runs| ==> SlotBefore(runs[k], clock) == SlotBefore(previous, clock) + Days((k + 1) * step)
  }

  /** The days a delay passes over. */
  function SkippedDays(failures: nat): nat {
    Delay(failures) / 86_400_000_000
  }

  /** A delay in minutes never comes within 32 minutes of a whole number of days from below. */
  lemma DelayInDay(failures: nat)
    ensures Days(SkippedDays(failures)) <= Delay(failures) <= Days(SkippedDays(failures)) + Minutes(1408)
  {
    if failures >= 5 {
      Pow2By32(failures);
      var q := Pow2(failures - 5);
      var a, b := q / 45, q % 45;
      assert Minutes(Pow2(failures)) == Days(a) + Minutes(32 * b);
    } else {
      Pow2Grows(failures, 4);
      assert Pow2(4) == 16;
    }
  }

  lemma Pow2By32(n: nat)
    requires n >= 5
    ensures Pow2(n) == 32 * Pow2(n - 5)
  {
    assert Pow2(n) == 2 * Pow2(n - 1) && Pow2(n - 1) == 2 * Pow2(n - 2);
    assert Pow2(n - 2) == 2 * Pow2(n - 3) && Pow2(n - 3) == 2 * Pow2(n - 4);
  }

  /** Up to ten failures a delay is shorter than a day. */
  lemma TenFailures(failures: nat)
    ensures SkippedDays(failures) == 0 <==> failures <= 10
  {
    Pow2By32(10);
    Pow2By32(11);
    assert Pow2(5) == 32 && Pow2(6) == 64;
    if failures <= 10 {
      Pow2Grows(failures, 10);
    } else {
      Pow2Grows(11, failures);
    }
  }

  /** A tick within a minute after the delayed next iteration runs in the slot that many days later. */
  lemma NextSlotIsServed(previous: Instant, now: Instant, plan: Plan, days: int, failures: nat)
    requires EveryNDays(plan, days) && days > 0 && plan.day.AnyDay? && NextIteration(previous, plan).Success?
    requires var due := NextIteration(previous, plan).value + Delay(failures); due < now <= due + Minutes(1)
    ensures SlotBefore(now, plan.clock) == SlotBefore(previous, plan.clock) + Days(days + SkippedDays(failures))
  {
    NextIsSlot(previous, plan, days);
    Decomposed(previous);
    DelayInDay(failures);
    var day, skipped := SlotDay(previous, plan.clock) + days, SkippedDays(failures);
    var slot := SlotBefore(previous, plan.clock) + Days(days);
    assert slot == Days(day) + Minutes(ClockMinute(plan.clock));
    DaysAdd(day, skipped);
    DaysAdd(days, skipped);
    SlotBetween(now, day + skipped, plan.clock);
  }

  /** So the slot N days on is served exactly when no more than ten failures have been counted. */
  lemma NextSlotIffTenFailures(previous: Instant, now: Instant, plan: Plan, days: int, failures: nat)
    requires EveryNDays(plan, days) && days > 0 && plan.day.AnyDay? && NextIteration(previous, plan).Success?
    requires var due := NextIteration(previous, plan).value + Delay(failures); due < now <= due + Minutes(1)
    ensures SlotBefore(now, plan.clock) == SlotBefore(previous, plan.clock) + Days(days) <==> failures <= 10
  {
    NextSlotIsServed(previous, now, plan, days, failures);
    TenFailures(failures);
    DaysAdd(days, SkippedDays(failures));
  }

  lemma SlotBetween(now: int, day: int, clock: Clock)
    requires ValidClock(clock)
    requires var slot := Days(day) + Minutes(ClockMinute(clock)); slot <= now < slot + Days(1)
    ensures SlotBefore(now, clock) == Days(day) + Minutes(ClockMinute(clock))
  {
    SlotBeforeIsLatest(now, clock);
    var d := SlotDay(now, clock);
    assert Days(d) < Days(day + 1) && Days(day) < Days(d + 1);
    assert d == day;
  }

  lemma {:induction false} SlotsInvariant(previous: Instant, plan: Plan, days: int, failures: nat, ticks: seq<Instant>)
    requires EveryNDays(plan, days) && days > 0 && plan.day.AnyDay? && NextIteration(previous, plan).Success?
    requires TicksWithin(ticks, Minutes(1), NextIteration(previous, plan).value + Delay(failures))
    ensures var runs := Runs(previous, plan, failures, ticks);
            var next := NextIteration(LatestRun(previous, runs), plan);
            InOrder(previous, plan.clock, days + SkippedDays(failures), runs)
            && (ticks != [] && next.Success? ==> ticks[|ticks| - 1] <= next.value + Delay(failures))
  {
    if ticks != [] {
      var last := |ticks| - 1;
      var front := ticks[..last];
      assert last > 0 ==> ticks[(last - 1) + 1] <= ticks[last - 1] + Minutes(1);
      SlotsInvariant(previous, plan, days, failures, front);
      SlotsStep(previous, plan, days, failures, Runs(previous, plan, failures, front), ticks[last]);
    }
  }

  lemma SlotsStep(previous: Instant, plan: Plan, days: int, failures: nat, before: seq<Instant>, now: Instant)
    requires EveryNDays(plan, days) && days > 0 && plan.day.AnyDay?
    requires InOrder(previous, plan.clock, days + SkippedDays(failures), before)
    requires var next := NextIteration(LatestRun(previous, before), plan);
             next.Success? ==> now <= next.value + Delay(failures) + Minutes(1)
    ensures var runs := if Due(LatestRun(previous, before), now, plan, failures) then before + [now] else before;
            var next := NextIteration(LatestRun(previous, runs), plan);
            InOrder(previous, plan.clock, days + SkippedDays(failures), runs)
            && (next.Success? ==> now <= next.value + Delay(failures))
  {
    var latest := LatestRun(previous, before);
    DueIsUnbounded(latest, now, plan, failures);
    if Due(latest, now, plan, failures) {
      NextSlotIsServed(latest, now, plan, days, failures);
      NextIsNotEarlier(now, plan, days);
      OrderExtends(previous, plan.clock, days + SkippedDays(failures), before, now);
    }
  }

  lemma OrderExtends(previous: Instant, clock: Clock, step: int, runs: seq<Instant>, now: Instant)
    requires ValidClock(clock) && InOrder(previous, clock, step, runs)
    requires SlotBefore(now, clock) == SlotBefore(LatestRun(previous, runs), clock) + Days(step)
    ensures InOrder(previous, clock, step, runs + [now])
  {
    LatestInOrder(previous, clock, step, runs);
  }

  lemma LatestInOrder(previous: Instant, clock: Clock, step: int, runs: seq<Instant>)
    requires ValidClock(clock) && InOrder(previous, clock, step, runs)
    ensures SlotBefore(LatestRun(previous, runs), clock) == SlotBefore(previous, clock) + Days(|runs| * step)
    ensures SlotBefore(LatestRun(previous, runs), clock) + Days(step) ==
            SlotBefore(previous, clock) + Days((|runs| + 1) * step)
  {
    OneMore(|runs|, step);
    if runs == [] {
      NoTimes(step);
    }
  }

  lemma OneMore(k: nat, step: int)
    ensures Days((k + 1) * step) == Days(k * step) + Days(step)
  {
    assert (k + 1) * step == k * step + step;
  }

  lemma NoTimes(step: int)
    ensures 0 * step == 0
  {
  }

  /**
   Under ticks a minute apart or less, when every run succeeds after `failures` earlier
   failures (no success resets their count), the k-th run serves exactly the k-th of the
   slots N days plus the whole days of the delay apart, and no run is more than a minute
   late. Only up to ten failures no slot is left out.
   */
  lemma EverySlotIsServed(previous: Instant, plan: Plan, days: int, failures: nat, ticks: seq<Instant>)
    requires EveryNDays(plan, days) && days > 0 && plan.day.AnyDay? && NextIteration(previous, plan).Success?
    requires TicksWithin(ticks, Minutes(1), NextIteration(previous, plan).value + Delay(failures))
    ensures var runs, step := Runs(previous, plan, failures, ticks), days + SkippedDays(failures);
            (forall k :: 0 <= k < |runs| ==>
                           SlotBefore(runs[k], plan.clock) == SlotBefore(previous, plan.clock) + Days((k + 1) * step))
            && (ticks != [] && NextIteration(LatestRun(previous, runs), plan).Success? ==>
                  ticks[|ticks| - 1] <
                  SlotBefore(previous, plan.clock) + Days(|runs| * step) + Days(days) + Delay(failures) + Minutes(1))
            && (step == days <==> failures <= 10)
  {
    var runs, step := Runs(previous, plan, failures, ticks), days + SkippedDays(failures);
    SlotsInvariant(previous, plan, days, failures, ticks);
    assert InOrder(previous, plan.clock, step, runs);
    LatestIsNext(previous, plan, days, step, runs);
    TenFailures(failures);
  }

  lemma LatestIsNext(previous: Instant, plan: Plan, days: int, step: int, runs: seq<Instant>)
    requires EveryNDays(plan, days) && plan.day.AnyDay? && InOrder(previous, plan.clock, step, runs)
    ensures var next := NextIteration(LatestRun(previous, runs), plan);
            next.Success? ==>
              next.value < SlotBefore(previous, plan.clock) + Days(|runs| * step) + Days(days) + Minutes(1)
  {
    LatestInOrder(previous, plan.clock, step, runs);
    NextInMinute(LatestRun(previous, runs), plan, days);
  }

  lemma NextInMinute(previous: Instant, plan: Plan, days: int)
    requires EveryNDays(plan, days) && plan.day.AnyDay?
    ensures NextIteration(previous, plan).Success? ==>
              NextIteration(previous, plan).value < SlotBefore(previous, plan.clock) + Days(days) + Minutes(1)
  {
    NextIsSlot(previous, plan, days);
    Decomposed(previous);
  }
}
