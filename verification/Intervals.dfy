/**
 Schedules read off their stored values: intervals without a time of day, any interval
 with one, and the schedules that cannot be evaluated.
 */
module Intervals {
  import opened Text
  import opened Schedule

  // ----- without a time of day -----

  /** The delay after failures, in microseconds. */
  function DelayAfter(failures: nat): nat {
    if failures == 0 then 0 else 60_000_000 * Power(failures)
  }

  function Power(n: nat): nat {
    if n == 0 then 1 else Power(n - 1) + Power(n - 1)
  }

  lemma {:induction false} PowerIs(n: nat)
    ensures Power(n) == Pow2(n)
  {
    if n > 0 {
      PowerIs(n - 1);
    }
  }

  /**
   Without a time of day a query is due exactly when the interval and the delay of its
   failures have passed since the previous run; the interval may leave the calendar.
   */
  lemma AnyTimeDue(previous: Instant, now: Instant, seconds: int, day: Day, failures: nat)
    ensures var next := previous + seconds * 1_000_000;
            ShouldScheduleNext(previous, now, Plan(Every(seconds), AnyTime, day), failures) ==
            if 0 <= next < 3_652_059 * 86_400_000_000 then Success(now > next + DelayAfter(failures))
            else Failure("OverflowError")
  {
    PowerIs(failures);
    DueIsUnbounded(previous, now, Plan(Every(seconds), AnyTime, day), failures);
  }

  lemma OneStepMore(k: nat, step: int)
    ensures (k + 1) * step == k * step + step
  {
  }

  /** The time from the first of two runs to the k-th after it. */
  ghost predicate Spaced(previous: Instant, runs: seq<Instant>, shortest: int, longest: int) {
    forall k :: 0 <= k < |runs| ==> previous + (k + 1) * shortest < runs[k] <= previous + (k + 1) * longest
  }

  lemma SpacedSnoc(previous: Instant, runs: seq<Instant>, now: Instant, shortest: int, longest: int)
    requires Spaced(previous, runs, shortest, longest)
    requires LatestRun(previous, runs) + shortest < now <= LatestRun(previous, runs) + longest
    ensures Spaced(previous, runs + [now], shortest, longest)
  {
    OneStepMore(|runs|, shortest);
    OneStepMore(|runs|, longest);
    if runs == [] {
      assert 0 * shortest == 0 && 0 * longest == 0;
    } else {
      var k := |runs| - 1;
      assert previous + (k + 1) * shortest < runs[k] <= previous + (k + 1) * longest;
    }
  }

  /**
   Over any run of ticks at most `gap` apart in which every run succeeds, the k-th run
   comes more than k times the interval with its delay after the previous one, and at
   most k gaps later than that; the next one is not overdue at the last tick.
   */
  lemma {:induction false} IntervalRuns(
    previous: Instant, seconds: nat, day: Day, failures: nat, gap: nat, ticks: seq<Instant>)
    requires TicksWithin(ticks, gap, previous + seconds * 1_000_000 + DelayAfter(failures))
    ensures var runs := Runs(previous, Plan(Every(seconds), AnyTime, day), failures, ticks);
            var step, latest := seconds * 1_000_000 + DelayAfter(failures), LatestRun(previous, runs);
            Spaced(previous, runs, step, step + gap)
            && (ticks != [] && latest + seconds * 1_000_000 < 3_652_059 * 86_400_000_000 ==>
                  ticks[|ticks| - 1] <= latest + step)
  {
    if ticks != [] {
      var last := |ticks| - 1;
      var front := ticks[..last];
      var plan := Plan(Every(seconds), AnyTime, day);
      assert last > 0 ==> ticks[(last - 1) + 1] <= ticks[last - 1] + gap;
      IntervalRuns(previous, seconds, day, failures, gap, front);
      IntervalStep(previous, Runs(previous, plan, failures, front), seconds, day, failures, gap, ticks[last]);
    }
  }

  lemma IntervalStep(
    previous: Instant, before: seq<Instant>, seconds: nat, day: Day, failures: nat, gap: nat, now: Instant)
    requires var step := seconds * 1_000_000 + DelayAfter(failures);
             var latest := LatestRun(previous, before);
             Spaced(previous, before, step, step + gap)
             && (latest + seconds * 1_000_000 < 3_652_059 * 86_400_000_000 ==> now <= latest + step + gap)
    ensures var step := seconds * 1_000_000 + DelayAfter(failures);
            var due := Due(LatestRun(previous, before), now, Plan(Every(seconds), AnyTime, day), failures);
            var runs := if due then before + [now] else before;
            var latest := LatestRun(previous, runs);
            Spaced(previous, runs, step, step + gap)
            && (latest + seconds * 1_000_000 < 3_652_059 * 86_400_000_000 ==> now <= latest + step)
  {
    var latest := LatestRun(previous, before);
    AnyTimeDue(latest, now, seconds, day, failures);
    var step := seconds * 1_000_000 + DelayAfter(failures);
    if Due(latest, now, Plan(Every(seconds), AnyTime, day), failures) {
      SpacedSnoc(previous, before, now, step, step + gap);
      assert LatestRun(previous, before + [now]) == now;
    } else if latest + seconds * 1_000_000 < 3_652_059 * 86_400_000_000 {
      assert 0 <= latest;
      var due := now > latest + seconds * 1_000_000 + DelayAfter(failures);
      assert ShouldScheduleNext(latest, now, Plan(Every(seconds), AnyTime, day), failures) == Success(due);
      assert !due;
    }
  }

  // ----- with a time of day -----

  /** Where the interval is counted from: the previous run, or the scheduled time on the day before it. */
  function CountedFrom(previous: Instant, hour: int, minute: int): int {
    if MinuteOfDay(previous) >= 60 * hour + minute then previous
    else Days(DayOf(previous) - 1) + Minutes(60 * hour + minute) + InMinute(previous)
  }

  /** The days from today's weekday to the scheduled one, which may be negative. */
  function DaysToWeekday(previous: Instant, day: Day): int {
    if day.On? then day.index - DayOf(previous) % 7 else 0
  }

  /**
   With a time of day, for any interval: the next iteration shows the scheduled time on
   the day the interval leads to, moved to the weekday, with the seconds it leads to.
   */
  lemma NextWithClock(previous: Instant, seconds: int, hour: int, minute: int, day: Day)
    requires 0 <= hour < 24 && 0 <= minute < 60 && (day.AnyDay? || (day.On? && 0 <= day.index < 7))
    ensures var next := NextIteration(previous, Plan(Every(seconds), At(hour, minute), day));
            var start := CountedFrom(previous, hour, minute);
            var delayed := start + seconds * 1_000_000;
            (next.Success? <==>
             IsInstant(start) && IsInstant(delayed) && IsInstant(delayed + Days(DaysToWeekday(previous, day))))
            && (next.Failure? ==> next.error == "OverflowError")
            && (next.Success? ==>
                  next.value == Days(DayOf(delayed) + DaysToWeekday(previous, day))
                                + Minutes(60 * hour + minute) + InMinute(delayed))
  {
    var clock := At(hour, minute);
    Decomposed(previous);
    var normalized := Replace(previous, hour, minute);
    Decomposed(normalized);
    var start := StartDay(previous, clock);
    assert start == CountedFrom(previous, hour, minute);
    var delayed := start + seconds * 1_000_000;
    MovedByDays(delayed, DaysToWeekday(previous, day));
    assert DaysToAdd(previous, clock, day) == DaysToWeekday(previous, day);
    var next := delayed + Days(DaysToWeekday(previous, day));
    if IsInstant(next) {
      Decomposed(Replace(next, hour, minute));
    }
  }

  // ----- schedules that cannot be evaluated -----

  /** Apart from dates beyond the calendar exactly these plans raise an error. */
  lemma UnreadablePlans(previous: Instant, plan: Plan)
    ensures NextIteration(previous, plan) == Failure("ValueError")
            <==> plan.interval.NotANumber?
                 || (!plan.clock.AnyTime?
                     && (plan.clock.NotATime? || plan.day.UnknownDay?
                         || !(0 <= plan.clock.hour < 24 && 0 <= plan.clock.minute < 60)
                         || (plan.day.On? && !(0 <= plan.day.index < 7))))
  {
  }

  // ----- the calendar -----

  /** The days from 0001-01-01 to the first day of a year, by the Gregorian rule for leap years. */
  function DaysBeforeYear(year: int): int {
    365 * (year - 1) + (year - 1) / 4 - (year - 1) / 100 + (year - 1) / 400
  }

  /** The calendar holds the years 1 to 9999, and 1 January 2024 is a Monday. */
  lemma CalendarIsGregorian()
    ensures forall t: int :: IsInstant(t) <==> 0 <= t < 24 * 3_600_000_000 * DaysBeforeYear(10_000)
    ensures Weekday(24 * 3_600_000_000 * DaysBeforeYear(2024)) == 0
  {
  }
}
