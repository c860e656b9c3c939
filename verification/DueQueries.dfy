/**
 Which query a tick selects or disables, told from its stored fields: the schedule, the
 time its latest result was retrieved, and the cached execution times.
 */
module DueQueries {
  import opened Text
  import opened Schedule
  import opened QuerySelection

  /** The run a query's next iteration is counted from; a query that has never run counts from now. */
  function CountsFrom(q: Query, now: Instant, executions: map<nat, Instant>): Instant {
    if q.id in executions then executions[q.id]
    else match q.retrievedAt
      case Some(t) => t
      case None => now
  }

  /** Everything a schedule needs is stored. */
  predicate IsComplete(s: Stored) {
    s.until.Present? && s.until.value != NotADate && s.interval.Present? && s.clock.Present? && s.day.Present?
  }

  predicate IsOpen(s: Stored, now: Instant) {
    !s.disabled && s.until.Present? && (s.until.value == NoEnd || (s.until.value.EndsAt? && s.until.value.day > now))
  }

  function PlanIn(s: Stored): Plan
    requires IsComplete(s)
  {
    Plan(s.interval.value, s.clock.value, s.day.value)
  }

  /**
   A query on its own is selected exactly when its open, complete schedule has a delayed next
   iteration before now.
   */
  lemma SelectedIff(q: Query, now: Instant, executions: map<nat, Instant>)
    ensures Selected([q], now, executions) == [q] || Selected([q], now, executions) == []
    ensures q in Selected([q], now, executions)
            <==> q.schedule.Some? && IsOpen(q.schedule.value, now) && IsComplete(q.schedule.value)
                 && var next := NextIteration(CountsFrom(q, now, executions), PlanIn(q.schedule.value));
                 next.Success? && now > next.value + Delay(q.failures)
  {
    AloneSelected(q, now, executions);
    if q.schedule.Some? && IsComplete(q.schedule.value) {
      DueIsUnbounded(CountsFrom(q, now, executions), now, PlanIn(q.schedule.value), q.failures);
    }
  }

  lemma AloneSelected(q: Query, now: Instant, executions: map<nat, Instant>)
    ensures Selected([q], now, executions) == if Judge(q, now, executions) == DueNow then [q] else []
  {
    SelectedSnoc([], q, Tick(now, executions));
    assert [] + [q] == [q];
  }

  /** Among others a query is selected only if it would be alone. */
  lemma SelectedAlone(queries: seq<Query>, q: Query, now: Instant, executions: map<nat, Instant>)
    requires q in Selected(queries, now, executions)
    ensures q in Selected([q], now, executions)
  {
    SelectedAreDue(queries, Tick(now, executions));
    AloneSelected(q, now, executions);
  }

  /**
   A tick disables exactly the enabled schedules it cannot evaluate: without a readable end,
   or, before their end, with a field missing or no next iteration.
   */
  lemma DisabledIff(q: Query, tick: Tick)
    requires q.schedule.Some?
    ensures var s, settled := q.schedule.value, SettleAll([q], tick)[0];
            settled == q.(schedule := settled.schedule)
            && settled.schedule == Some(s.(disabled := s.disabled || settled.schedule.value.disabled))
            && (settled.schedule.value.disabled
                <==> s.disabled || s.until.Missing? || s.until.value == NotADate
                     || (IsOpen(s, tick.now)
                         && (!IsComplete(s)
                             || NextIteration(CountsFrom(q, tick.now, tick.executions), PlanIn(s)).Failure?)))
  {
  }

  /** A query that has never run is not selected when its plan looks ahead, whatever else is stored. */
  lemma NewQueryIsNotSelected(
    queries: seq<Query>, q: Query, now: Instant, executions: map<nat, Instant>, days: int)
    requires q.retrievedAt.None? && q.id !in executions
    requires q.schedule.Some? && IsComplete(q.schedule.value) ==> LooksAhead(PlanIn(q.schedule.value), days)
    ensures q !in Selected(queries, now, executions)
  {
    if q in Selected(queries, now, executions) {
      SelectedAlone(queries, q, now, executions);
      SelectedIff(q, now, executions);
      NextIsNotEarlier(now, PlanIn(q.schedule.value), days);
    }
  }

  /** With an open schedule and no failures a query that has never run is selected exactly when its plan looks back. */
  lemma NewQuerySelectedIff(q: Query, now: Instant, executions: map<nat, Instant>, days: int)
    requires q.retrievedAt.None? && q.id !in executions && q.failures == 0
    requires q.schedule.Some? && IsOpen(q.schedule.value, now) && IsComplete(q.schedule.value)
    requires var plan := PlanIn(q.schedule.value); plan.clock.AnyTime? || EveryNDays(plan, days)
    requires NextIteration(now, PlanIn(q.schedule.value)).Success?
    ensures q in Selected([q], now, executions) <==> PlansBack(now, PlanIn(q.schedule.value))
  {
    SelectedIff(q, now, executions);
    NeverRunDueIff(now, PlanIn(q.schedule.value), days);
    DueIsUnbounded(now, now, PlanIn(q.schedule.value), 0);
  }

  /** A cached execution time acts as a latest result of that time would, and takes precedence over the real one. */
  lemma ExecutionActsAsResult(q: Query, now: Instant, executions: map<nat, Instant>)
    requires q.id in executions
    ensures var p := q.(retrievedAt := Some(executions[q.id]));
            q in Selected([q], now, executions) <==> p in Selected([p], now, executions - {q.id})
  {
    var p := q.(retrievedAt := Some(executions[q.id]));
    SelectedIff(q, now, executions);
    SelectedIff(p, now, executions - {q.id});
  }

  // ----- the order of the selection -----

  /** The keys of the due queries, in the order in which each first occurs. */
  function DueKeys(queries: seq<Query>, now: Instant, executions: map<nat, Instant>): seq<string> {
    if queries == [] then []
    else
      var before, q := DueKeys(queries[..|queries| - 1], now, executions), queries[|queries| - 1];
      if q in Selected([q], now, executions) && Key(q) !in before then before + [Key(q)] else before
  }

  function KeysIn(list: seq<Query>): (keys: seq<string>)
    ensures |keys| == |list| && forall i :: 0 <= i < |list| ==> keys[i] == Key(list[i])
  {
    if list == [] then [] else [Key(list[0])] + KeysIn(list[1..])
  }

  lemma {:induction false} AssignKeepsOrder(list: seq<Query>, q: Query)
    ensures KeysIn(Assign(list, q)) == if Key(q) in KeysIn(list) then KeysIn(list) else KeysIn(list) + [Key(q)]
  {
    if list != [] && Key(list[0]) != Key(q) {
      AssignKeepsOrder(list[1..], q);
      assert KeysIn(list) == [Key(list[0])] + KeysIn(list[1..]);
      assert Key(q) in KeysIn(list) <==> Key(q) in KeysIn(list[1..]);
    }
  }

  /** The selected queries come in the order in which their hash and data source first occur among the due ones. */
  lemma {:induction false} SelectedInOrder(queries: seq<Query>, now: Instant, executions: map<nat, Instant>)
    ensures KeysIn(Selected(queries, now, executions)) == DueKeys(queries, now, executions)
  {
    if queries != [] {
      var front, q := queries[..|queries| - 1], queries[|queries| - 1];
      SelectedInOrder(front, now, executions);
      AloneSelected(q, now, executions);
      AssignKeepsOrder(Selected(front, now, executions), q);
    }
  }
}
