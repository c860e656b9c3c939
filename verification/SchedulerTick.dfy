/**
 One tick of the scheduler (`refresh_queries_task`): the due queries are selected and
 run with their default parameters, and the results reach the queries whose hash is that
 of the text that was run.
 */
module SchedulerTick {
  import opened Text
  import opened Schedule
  import opened QuerySelection
  import CacheKey
  import Parameters
  import Store = ResultStore

  predicate InCalendar(db: Store.Db) {
    forall id :: id in db.results ==> IsInstant(db.results[id].retrievedAt)
  }

  /** A stored query as the selection sees it, with the time its latest result was retrieved. */
  function Scheduled(db: Store.Db, schedules: map<nat, Stored>, id: nat): Query
    requires InCalendar(db) && id in db.queries
  {
    var q := db.queries[id];
    Query(id, q.hash, q.dataSource, if id in schedules then Some(schedules[id]) else None, q.failures,
          if q.latest.Some? && q.latest.value in db.results then Some(db.results[q.latest.value].retrievedAt) else None)
  }

  ghost predicate IsTable(db: Store.Db, schedules: map<nat, Stored>, queries: seq<Query>)
    requires InCalendar(db)
  {
    forall q :: q in queries ==> q.id in db.queries && q == Scheduled(db, schedules, q.id)
  }

  /** The default values of a query's parameters, and what the parameter definitions say about them. */
  datatype Defaults = Defaults(
    values: Parameters.Values, separators: map<string, Parameters.Separator>, valid: (string, Parameters.Value) -> bool)

  /** What surrounds the store: the parser and printer of templates, and the parameters of each query. */
  datatype Context = Context(
    env: Store.Env, parse: string -> seq<Parameters.Node>, show: Parameters.Value -> string,
    defaults: map<nat, Defaults>)

  predicate HasParameters(c: Context, id: nat) {
    id in c.defaults && exists name :: name in c.defaults[id].values && name != ""
  }

  /** `_apply_default_parameters`; invalid defaults give no text. */
  function DefaultText(c: Context, id: nat, text: string): Option<string> {
    if !HasParameters(c, id) then Some(text)
    else
      var d := c.defaults[id];
      if exists name :: name in d.values && !d.valid(name, d.values[name]) then None
      else
        var stack := [Parameters.Scope(Parameters.JoinLists(d.values, d.separators))];
        Some(Parameters.Render(c.show, c.parse(text), stack))
  }

  /** The text that is run for a query of the store: its template with the defaults, then limited. */
  function TextToRun(c: Context, id: nat, q: Store.Query): Option<string> {
    var text := DefaultText(c, id, q.text);
    if text.None? then None else Some(Store.RunText(c.env, q.(text := text.value)))
  }

  /**
   What one run depends on besides the store. `Skipped` stands for a disabled organization,
   a paused data source and any exception but that of invalid defaults.
   */
  datatype Answer = Skipped | Ran(metadata: CacheKey.Metadata, failed: bool, wait: nat)

  function RunOf(text: string, q: Query, answer: Answer): (e: Store.Event)
    requires q.dataSource.Some? && answer.Ran?
    ensures e.Run?
  {
    Store.Run(text, q.dataSource.value, answer.metadata, Some(q.id), answer.failed, answer.wait)
  }

  /** Invalid defaults count as a failure. */
  function CountFailure(env: Store.Env, db: Store.Db, id: nat): Store.Db
    requires id in db.queries
  {
    var q := db.queries[id];
    db.(queries := db.queries[id := Store.Rehash(env, q.(failures := q.failures + 1))])
  }

  /** The body of the loop over the selected queries. */
  function RunOne(c: Context, db: Store.Db, q: Query, answer: Answer): (after: Store.Db)
    requires q.id in db.queries
    ensures after.queries.Keys == db.queries.Keys
  {
    if q.dataSource.None? || answer.Skipped? then db
    else
      var text := TextToRun(c, q.id, db.queries[q.id]);
      if text.None? then CountFailure(c.env, db, q.id) else Store.Step(c.env, db, RunOf(text.value, q, answer))
  }

  /** The store after the selected queries have been run. */
  function TickRuns(c: Context, db: Store.Db, selected: seq<Query>, answers: seq<Answer>): (after: Store.Db)
    requires |answers| == |selected| && forall q :: q in selected ==> q.id in db.queries
    ensures after.queries.Keys == db.queries.Keys
  {
    if selected == [] then db
    else
      var last := |selected| - 1;
      RunOne(c, TickRuns(c, db, selected[..last], answers[..last]), selected[last], answers[last])
  }

  predicate IsEnqueued(c: Context, db: Store.Db, q: Query, answer: Answer)
    requires q.id in db.queries
  {
    q.dataSource.Some? && answer.Ran? && TextToRun(c, q.id, db.queries[q.id]).Some?
  }

  /** The ids the tick reports as enqueued, in order. */
  function Enqueued(c: Context, db: Store.Db, selected: seq<Query>, answers: seq<Answer>): seq<nat>
    requires |answers| == |selected| && forall q :: q in selected ==> q.id in db.queries
  {
    if selected == [] then []
    else
      var last := |selected| - 1;
      var front, replies := selected[..last], answers[..last];
      var enqueue := IsEnqueued(c, TickRuns(c, db, front, replies), selected[last], answers[last]);
      Enqueued(c, db, front, replies) + if enqueue then [selected[last].id] else []
  }

  // ----- what a run leaves alone, and what it brings -----

  ghost predicate HashesCurrent(env: Store.Env, db: Store.Db) {
    forall k :: k in db.queries && db.queries[k].dataSource.Some? ==> db.queries[k] == Store.Rehash(env, db.queries[k])
  }

  predicate SameQuery(p: Store.Query, q: Store.Query) {
    p.(latest := None, failures := 0) == q.(latest := None, failures := 0)
  }

  /** The stores differ in new results, failure counters and latest results only. */
  ghost predicate Follows(a: Store.Db, b: Store.Db) {
    a.queries.Keys == b.queries.Keys && a.clock <= b.clock && a.nextRow <= b.nextRow
    && (forall k :: k in a.queries ==> SameQuery(a.queries[k], b.queries[k]))
    && forall id :: id in a.results && id < a.nextRow ==> id in b.results && b.results[id] == a.results[id]
  }

  /** The query's latest result was retrieved after the given time. */
  ghost predicate Fresh(db: Store.Db, id: nat, since: int) {
    id in db.queries && db.queries[id].latest.Some? && db.queries[id].latest.value in db.results
    && db.results[db.queries[id].latest.value].retrievedAt > since
  }

  ghost predicate Agrees(db: Store.Db, q: Query) {
    q.id in db.queries && db.queries[q.id].hash == q.hash && db.queries[q.id].dataSource == q.dataSource
  }

  /** The run succeeds, and its text has this hash on this data source. */
  predicate Serves(c: Context, db: Store.Db, q: Query, answer: Answer, hash: string, source: Option<nat>) {
    q.id in db.queries && q.dataSource.Some? && q.dataSource == source && answer.Ran? && !answer.failed
    && var text := TextToRun(c, q.id, db.queries[q.id]);
    text.Some? && CacheKey.GenQueryHash(c.env.digest, text.value) == hash
  }

  /** A query of the store is served by a run if and only if the run serves its hash and data source. */
  predicate ServesQuery(c: Context, db: Store.Db, q: Query, answer: Answer, k: nat) {
    k in db.queries && Serves(c, db, q, answer, db.queries[k].hash, db.queries[k].dataSource)
  }

  lemma {:induction false} RunFollows(c: Context, db: Store.Db, q: Query, answer: Answer)
    requires HashesCurrent(c.env, db) && Agrees(db, q)
    ensures Follows(db, RunOne(c, db, q, answer)) && HashesCurrent(c.env, RunOne(c, db, q, answer))
  {
    if q.dataSource.Some? && answer.Ran? {
      var text := TextToRun(c, q.id, db.queries[q.id]);
      if text.None? {
        CountFollows(c.env, db, q.id);
      } else {
        EventFollows(c.env, db, RunOf(text.value, q, answer));
      }
    }
  }

  lemma {:induction false} CountFollows(env: Store.Env, db: Store.Db, id: nat)
    requires HashesCurrent(env, db) && id in db.queries && db.queries[id].dataSource.Some?
    ensures Follows(db, CountFailure(env, db, id)) && HashesCurrent(env, CountFailure(env, db, id))
  {
  }

  lemma {:induction false} EventFollows(env: Store.Env, db: Store.Db, e: Store.Event)
    requires HashesCurrent(env, db) && e.Run?
    requires e.scheduled.Some? ==> e.scheduled.value in db.queries && db.queries[e.scheduled.value].dataSource.Some?
    ensures Follows(db, Store.Step(env, db, e)) && HashesCurrent(env, Store.Step(env, db, e))
  {
    if e.failed {
      if e.scheduled.Some? {
        CountFollows(env, db, e.scheduled.value);
      }
    } else {
      var row := Store.ResultRow(env, e.text, e.source, e.metadata, db.clock + 1 + e.wait);
      UpdateFollows(env, db.queries, db.nextRow, row);
    }
  }

  lemma {:induction false} UpdateFollows(env: Store.Env, queries: map<nat, Store.Query>, id: nat, row: Store.Row)
    requires forall k :: k in queries && queries[k].dataSource.Some? ==> queries[k] == Store.Rehash(env, queries[k])
    ensures var after := Store.UpdateLatest(env, queries, id, row);
            after.Keys == queries.Keys
            && forall k :: k in queries ==>
                             SameQuery(queries[k], after[k])
                             && (after[k].dataSource.Some? ==> after[k] == Store.Rehash(env, after[k]))
  {
  }

  lemma {:induction false} RunServes(c: Context, db: Store.Db, q: Query, answer: Answer, since: int, k: nat)
    requires HashesCurrent(c.env, db) && Agrees(db, q) && since <= db.clock && ServesQuery(c, db, q, answer, k)
    ensures Fresh(RunOne(c, db, q, answer), k, since)
  {
  }

  lemma {:induction false} RunLeaves(c: Context, db: Store.Db, q: Query, answer: Answer, k: nat)
    requires HashesCurrent(c.env, db) && Agrees(db, q) && k in db.queries && !ServesQuery(c, db, q, answer, k)
    ensures RunOne(c, db, q, answer).queries[k].latest == db.queries[k].latest
  {
  }

  ghost predicate AgreeOn(db: Store.Db, selected: seq<Query>) {
    forall i :: 0 <= i < |selected| ==> Agrees(db, selected[i])
  }

  lemma {:induction false} StillAgrees(db: Store.Db, after: Store.Db, q: Query)
    requires Follows(db, after) && Agrees(db, q)
    ensures Agrees(after, q)
  {
    assert SameQuery(db.queries[q.id], after.queries[q.id]);
  }

  lemma {:induction false} StillServes(c: Context, db: Store.Db, after: Store.Db, q: Query, answer: Answer, k: nat)
    requires Follows(db, after) && q.id in db.queries && k in db.queries
    ensures ServesQuery(c, after, q, answer, k) <==> ServesQuery(c, db, q, answer, k)
  {
    assert SameQuery(db.queries[q.id], after.queries[q.id]) && SameQuery(db.queries[k], after.queries[k]);
    assert TextToRun(c, q.id, after.queries[q.id]) == TextToRun(c, q.id, db.queries[q.id]);
  }

  lemma {:induction false} FollowsOn(a: Store.Db, b: Store.Db, c: Store.Db)
    requires Follows(a, b) && Follows(b, c)
    ensures Follows(a, c)
  {
    forall k | k in a.queries
      ensures SameQuery(a.queries[k], c.queries[k])
    {
      assert SameQuery(a.queries[k], b.queries[k]) && SameQuery(b.queries[k], c.queries[k]);
    }
  }

  lemma {:induction false} TickUnfolds(c: Context, db: Store.Db, selected: seq<Query>, answers: seq<Answer>)
    returns (before: Store.Db)
    requires selected != [] && |answers| == |selected| && AgreeOn(db, selected)
    ensures var last := |selected| - 1;
            AgreeOn(db, selected[..last]) && before == TickRuns(c, db, selected[..last], answers[..last])
            && selected[last].id in before.queries
            && TickRuns(c, db, selected, answers) == RunOne(c, before, selected[last], answers[last])
  {
    before := TickRuns(c, db, selected[..|selected| - 1], answers[..|selected| - 1]);
  }

  lemma {:induction false} TickFollows(c: Context, db: Store.Db, selected: seq<Query>, answers: seq<Answer>)
    requires |answers| == |selected| && AgreeOn(db, selected) && HashesCurrent(c.env, db)
    ensures var after := TickRuns(c, db, selected, answers);
            Follows(db, after) && HashesCurrent(c.env, after)
  {
    if selected != [] {
      var last := |selected| - 1;
      TickFollows(c, db, selected[..last], answers[..last]);
      var before := TickUnfolds(c, db, selected, answers);
      StillAgrees(db, before, selected[last]);
      RunFollows(c, before, selected[last], answers[last]);
      FollowsOn(db, before, RunOne(c, before, selected[last], answers[last]));
    }
  }

  /** Once a query has a fresh result, the runs that follow leave it one. */
  lemma {:induction false} StaysFresh(c: Context, db: Store.Db, q: Query, answer: Answer, since: int, k: nat)
    requires HashesCurrent(c.env, db) && Agrees(db, q) && since <= db.clock
    requires Store.RowsInvariant(db) && Fresh(db, k, since)
    ensures Fresh(RunOne(c, db, q, answer), k, since)
  {
    if ServesQuery(c, db, q, answer, k) {
      RunServes(c, db, q, answer, since, k);
    } else {
      RunLeaves(c, db, q, answer, k);
      RunFollows(c, db, q, answer);
    }
  }

  lemma {:induction false} RunRows(c: Context, db: Store.Db, q: Query, answer: Answer)
    requires Store.RowsInvariant(db) && q.id in db.queries
    ensures Store.RowsInvariant(RunOne(c, db, q, answer))
  {
  }

  lemma {:induction false} TickRows(c: Context, db: Store.Db, selected: seq<Query>, answers: seq<Answer>)
    requires |answers| == |selected| && AgreeOn(db, selected) && Store.RowsInvariant(db)
    ensures Store.RowsInvariant(TickRuns(c, db, selected, answers))
  {
    if selected != [] {
      var last := |selected| - 1;
      TickRows(c, db, selected[..last], answers[..last]);
      var before := TickUnfolds(c, db, selected, answers);
      RunRows(c, before, selected[last], answers[last]);
    }
  }

  /** Some run of the tick serves the query. */
  predicate Served(c: Context, db: Store.Db, selected: seq<Query>, answers: seq<Answer>, k: nat)
    requires |answers| == |selected|
  {
    exists j :: 0 <= j < |selected| && ServesQuery(c, db, selected[j], answers[j], k)
  }

  lemma {:induction false} ServedSnoc(c: Context, db: Store.Db, selected: seq<Query>, answers: seq<Answer>, k: nat)
    requires |answers| == |selected| && selected != []
    ensures var last := |selected| - 1;
            Served(c, db, selected, answers, k) <==>
            Served(c, db, selected[..last], answers[..last], k) || ServesQuery(c, db, selected[last], answers[last], k)
  {
    var last := |selected| - 1;
    if Served(c, db, selected[..last], answers[..last], k) {
      var j :| 0 <= j < last && ServesQuery(c, db, selected[..last][j], answers[..last][j], k);
      assert ServesQuery(c, db, selected[j], answers[j], k);
    }
    if Served(c, db, selected, answers, k) {
      var j :| 0 <= j < |selected| && ServesQuery(c, db, selected[j], answers[j], k);
      if j < last {
        ServedInFront(c, db, selected, answers, k, j);
      }
    }
  }

  lemma {:induction false} ServedInFront(
    c: Context, db: Store.Db, selected: seq<Query>, answers: seq<Answer>, k: nat, j: nat)
    requires |answers| == |selected| && j < |selected| - 1 && ServesQuery(c, db, selected[j], answers[j], k)
    ensures Served(c, db, selected[..|selected| - 1], answers[..|selected| - 1], k)
  {
    var last := |selected| - 1;
    assert ServesQuery(c, db, selected[..last][j], answers[..last][j], k);
  }

  /** The runs of a tick bring a query a new result if one of them serves it, and else leave it the old one. */
  lemma {:induction false} TickServes(
    c: Context, db: Store.Db, selected: seq<Query>, answers: seq<Answer>, since: int, k: nat)
    requires |answers| == |selected| && AgreeOn(db, selected) && HashesCurrent(c.env, db) && since <= db.clock
    requires Store.RowsInvariant(db) && k in db.queries
    ensures var after := TickRuns(c, db, selected, answers);
            if Served(c, db, selected, answers, k) then Fresh(after, k, since)
            else after.queries[k].latest == db.queries[k].latest
  {
    if selected != [] {
      var last := |selected| - 1;
      var q, answer := selected[last], answers[last];
      TickServes(c, db, selected[..last], answers[..last], since, k);
      TickFollows(c, db, selected[..last], answers[..last]);
      TickRows(c, db, selected[..last], answers[..last]);
      ServedSnoc(c, db, selected, answers, k);
      var before := TickUnfolds(c, db, selected, answers);
      StillAgrees(db, before, q);
      StillServes(c, db, before, q, answer, k);
      if ServesQuery(c, db, q, answer, k) {
        RunServes(c, before, q, answer, since, k);
      } else if Served(c, db, selected[..last], answers[..last], k) {
        StaysFresh(c, before, q, answer, since, k);
      } else {
        RunLeaves(c, before, q, answer, k);
      }
    }
  }

  // ----- who is served -----

  /** The clock of a reachable store has moved on to the tick. */
  function AtTick(env: Store.Env, events: seq<Store.Event>, now: Instant): Store.Db {
    Store.After(env, events).db.(clock := now)
  }

  ghost predicate IsTick(
    env: Store.Env, events: seq<Store.Event>, now: Instant, schedules: map<nat, Stored>, queries: seq<Query>)
  {
    Store.After(env, events).db.clock <= now && InCalendar(AtTick(env, events, now))
    && IsTable(AtTick(env, events, now), schedules, queries)
  }

  lemma {:induction false} TickFacts(
    env: Store.Env, events: seq<Store.Event>, now: Instant, schedules: map<nat, Stored>, queries: seq<Query>)
    requires IsTick(env, events, now, schedules, queries)
    ensures var db := AtTick(env, events, now);
            AgreeOn(db, Selected(queries, now, map[])) && HashesCurrent(env, db) && Store.RowsInvariant(db)
    ensures forall q :: q in Selected(queries, now, map[]) ==> q.id in AtTick(env, events, now).queries
    ensures forall k :: !Fresh(AtTick(env, events, now), k, now)
  {
    Store.AlwaysInvariant(env, events);
    SelectedAreDue(queries, Tick(now, map[]));
  }

  /**
   In every run, for every query of the store: the tick brings it a new result exactly when
   some selected query on its data source runs successfully with a text of its hash.
   Otherwise its latest result is the old one.
   */
  lemma {:induction false} ServedExactly(
    c: Context, events: seq<Store.Event>, now: Instant, schedules: map<nat, Stored>, queries: seq<Query>,
    answers: seq<Answer>, k: nat)
    requires IsTick(c.env, events, now, schedules, queries) && |answers| == |Selected(queries, now, map[])|
    requires k in Store.After(c.env, events).db.queries
    ensures var db, selected := AtTick(c.env, events, now), Selected(queries, now, map[]);
            (forall q :: q in selected ==> q.id in db.queries)
            && var after := TickRuns(c, db, selected, answers);
            (Fresh(after, k, now) <==> Served(c, db, selected, answers, k))
            && (!Fresh(after, k, now) ==>
                  after.queries[k].latest == db.queries[k].latest
                  && (db.queries[k].latest.Some? ==>
                        var r := db.queries[k].latest.value;
                        r in db.results && r in after.results && after.results[r] == db.results[r]))
  {
    var db, selected := AtTick(c.env, events, now), Selected(queries, now, map[]);
    TickFacts(c.env, events, now, schedules, queries);
    Store.AlwaysInvariant(c.env, events);
    TickServes(c, db, selected, answers, now, k);
    TickFollows(c, db, selected, answers);
    assert !Fresh(db, k, now);
  }

  /** The runs that stand for a due query succeed, and its parameters do not change the hash. */
  ghost predicate RepresentedRunsSucceed(
    c: Context, db: Store.Db, selected: seq<Query>, answers: seq<Answer>, d: Query)
    requires |answers| == |selected|
  {
    forall j :: 0 <= j < |selected| && selected[j].hash == d.hash && selected[j].dataSource == d.dataSource ==>
                  answers[j].Ran? && !answers[j].failed
                  && (HasParameters(c, selected[j].id) ==> Serves(c, db, selected[j], answers[j], d.hash, d.dataSource))
  }

  /**
   So deduplication loses nobody as long as the defaults keep the hash, in particular among
   queries without parameters: when the run for a hash and data source succeeds, every due
   query that shares them, selected or not, ends up with a result from after the tick.
   */
  lemma {:induction false} DueQueriesAreServed(
    c: Context, events: seq<Store.Event>, now: Instant, schedules: map<nat, Stored>, queries: seq<Query>,
    answers: seq<Answer>, d: Query)
    requires IsTick(c.env, events, now, schedules, queries) && |answers| == |Selected(queries, now, map[])|
    requires d in queries && Judge(d, now, map[]) == DueNow && d.dataSource.Some?
    requires RepresentedRunsSucceed(c, AtTick(c.env, events, now), Selected(queries, now, map[]), answers, d)
    ensures var db, selected := AtTick(c.env, events, now), Selected(queries, now, map[]);
            (forall q :: q in selected ==> q.id in db.queries)
            && Fresh(TickRuns(c, db, selected, answers), d.id, now)
  {
    var db, selected := AtTick(c.env, events, now), Selected(queries, now, map[]);
    TickFacts(c.env, events, now, schedules, queries);
    var p := DueIsRepresented(queries, Tick(now, map[]), d);
    var j :| 0 <= j < |selected| && selected[j] == p;
    PlainRunServes(c, db, p, answers[j]);
    assert ServesQuery(c, db, selected[j], answers[j], d.id);
    ServedExactly(c, events, now, schedules, queries, answers, d.id);
  }

  lemma {:induction false} PlainRunServes(c: Context, db: Store.Db, q: Query, answer: Answer)
    requires HashesCurrent(c.env, db) && Agrees(db, q)
    ensures q.dataSource.Some? && answer.Ran? && !answer.failed && !HasParameters(c, q.id) ==>
              Serves(c, db, q, answer, q.hash, q.dataSource)
  {
    var stored := db.queries[q.id];
    assert stored.(text := stored.text) == stored;
  }

  // ----- when a query is due again -----

  function PlanOf(q: Query): Plan
    requires q.schedule.Some? && q.schedule.value.interval.Present? && q.schedule.value.clock.Present?
    requires q.schedule.value.day.Present?
  {
    Plan(q.schedule.value.interval.value, q.schedule.value.clock.value, q.schedule.value.day.value)
  }

  predicate HasEnded(q: Query, now: Instant) {
    q.schedule.Some? && q.schedule.value.until.Present? && q.schedule.value.until.value.EndsAt?
    && q.schedule.value.until.value.day <= now
  }

  /** A query that was due once is due from its delayed next iteration on, until its schedule ends. */
  lemma {:induction false} DueAgain(d: Query, now: Instant, q: Query, previous: Instant, later: Instant)
    requires Judge(d, now, map[]) == DueNow && q.schedule == d.schedule && q.retrievedAt == Some(previous)
    ensures var next := NextIteration(previous, PlanOf(d));
            Judge(q, later, map[]) == DueNow
            <==> next.Success? && later > next.value + Delay(q.failures) && !HasEnded(q, later)
  {
    DueIsUnbounded(previous, later, PlanOf(d), q.failures);
  }

  /**
   A due query that the tick serves is due again exactly when the next iteration after its
   new result, with the delay of its failures, is past and its schedule has not ended.
   */
  lemma {:induction false} ServedIsDueAgain(
    c: Context, events: seq<Store.Event>, now: Instant, schedules: map<nat, Stored>, queries: seq<Query>,
    answers: seq<Answer>, d: Query, later: Instant)
    requires IsTick(c.env, events, now, schedules, queries) && |answers| == |Selected(queries, now, map[])|
    requires d in queries && Judge(d, now, map[]) == DueNow
    requires Served(c, AtTick(c.env, events, now), Selected(queries, now, map[]), answers, d.id)
    ensures var db, selected := AtTick(c.env, events, now), Selected(queries, now, map[]);
            (forall q :: q in selected ==> q.id in db.queries)
            && var after := TickRuns(c, db, selected, answers);
            (InCalendar(after) ==>
               var served := Scheduled(after, schedules, d.id);
               served.retrievedAt.Some? && served.retrievedAt.value > now
               && var next := NextIteration(served.retrievedAt.value, PlanOf(d));
               Judge(served, later, map[]) == DueNow
               <==> next.Success? && later > next.value + Delay(served.failures) && !HasEnded(d, later))
  {
    ServedExactly(c, events, now, schedules, queries, answers, d.id);
    var after := TickRuns(c, AtTick(c.env, events, now), Selected(queries, now, map[]), answers);
    if InCalendar(after) {
      var served := Scheduled(after, schedules, d.id);
      DueAgain(d, now, served, served.retrievedAt.value, later);
    }
  }

  /**
   A due query that is not served keeps its previous run, so only more failures or the end of
   its schedule stop it.
   */
  lemma {:induction false} UnservedStaysDue(
    c: Context, events: seq<Store.Event>, now: Instant, schedules: map<nat, Stored>, queries: seq<Query>,
    answers: seq<Answer>, d: Query, later: Instant)
    requires IsTick(c.env, events, now, schedules, queries) && |answers| == |Selected(queries, now, map[])|
    requires d in queries && Judge(d, now, map[]) == DueNow && d.retrievedAt.Some?
    requires !Served(c, AtTick(c.env, events, now), Selected(queries, now, map[]), answers, d.id)
    ensures var db, selected := AtTick(c.env, events, now), Selected(queries, now, map[]);
            (forall q :: q in selected ==> q.id in db.queries)
            && var after := TickRuns(c, db, selected, answers);
            (InCalendar(after) ==>
               var kept := Scheduled(after, schedules, d.id);
               kept.retrievedAt == d.retrievedAt
               && (kept.failures == d.failures && later >= now && !HasEnded(d, later) ==>
                     Judge(kept, later, map[]) == DueNow))
  {
    ServedExactly(c, events, now, schedules, queries, answers, d.id);
    var after := TickRuns(c, AtTick(c.env, events, now), Selected(queries, now, map[]), answers);
    if InCalendar(after) {
      var kept := Scheduled(after, schedules, d.id);
      DueAgain(d, now, d, d.retrievedAt.value, now);
      DueAgain(d, now, kept, d.retrievedAt.value, later);
    }
  }

  /** When the only run of a tick succeeds with a text of another hash, a due query stays due. */
  lemma {:induction false} ForeignRunStarves(
    c: Context, events: seq<Store.Event>, now: Instant, schedules: map<nat, Stored>, queries: seq<Query>, q: Query,
    answer: Answer, d: Query, later: Instant)
    requires IsTick(c.env, events, now, schedules, queries) && Selected(queries, now, map[]) == [q]
    requires d in queries && Judge(d, now, map[]) == DueNow && d.retrievedAt.Some? && later >= now
             && !HasEnded(d, later)
    requires var db := AtTick(c.env, events, now);
             q.id in db.queries && d.id in db.queries && !ServesQuery(c, db, q, answer, d.id)
             && answer.Ran? && !answer.failed && TextToRun(c, q.id, db.queries[q.id]).Some?
    ensures var after := TickRuns(c, AtTick(c.env, events, now), [q], [answer]);
            !Fresh(after, d.id, now)
            && (InCalendar(after) ==> Judge(Scheduled(after, schedules, d.id), later, map[]) == DueNow)
  {
    ServedExactly(c, events, now, schedules, queries, [answer], d.id);
    UnservedStaysDue(c, events, now, schedules, queries, [answer], d, later);
    OneRun(c, AtTick(c.env, events, now), q, answer, d.id);
  }

  lemma {:induction false} OneRun(c: Context, db: Store.Db, q: Query, answer: Answer, k: nat)
    requires q.id in db.queries && k in db.queries && answer.Ran? && !answer.failed
    requires TextToRun(c, q.id, db.queries[q.id]).Some?
    ensures TickRuns(c, db, [q], [answer]).queries[k].failures == db.queries[k].failures
  {
    assert [q][..0] == [] && [answer][..0] == [];
    RunKeepsFailures(c, db, q, answer, k);
  }

  lemma {:induction false} RunKeepsFailures(c: Context, db: Store.Db, q: Query, answer: Answer, k: nat)
    requires q.id in db.queries && k in db.queries && answer.Ran? && !answer.failed
    requires TextToRun(c, q.id, db.queries[q.id]).Some?
    ensures RunOne(c, db, q, answer).queries[k].failures == db.queries[k].failures
  {
  }

  // ----- the program -----

  /** The loop over the selected queries; each run is over before the next one starts. */
  method RefreshQueries(c: Context, store: Store.Database, selected: seq<Query>, answers: seq<Answer>)
    returns (enqueued: seq<nat>)
    requires |answers| == |selected| && (forall q :: q in selected ==> q.id in store.queries) && store.env == c.env
    modifies store
    ensures store.State() == TickRuns(c, old(store.State()), selected, answers)
    ensures enqueued == Enqueued(c, old(store.State()), selected, answers)
  {
    enqueued := [];
    for n := 0 to |selected|
      invariant store.State() == TickRuns(c, old(store.State()), selected[..n], answers[..n])
      invariant enqueued == Enqueued(c, old(store.State()), selected[..n], answers[..n])
    {
      TickSnoc(c, old(store.State()), selected, answers, n);
      assert store.State().queries.Keys == old(store.State()).queries.Keys;
      var enqueue := RefreshOne(c, store, selected[n], answers[n]);
      if enqueue {
        enqueued := enqueued + [selected[n].id];
      }
    }
    assert selected[..|selected|] == selected && answers[..|selected|] == answers;
  }

  lemma {:induction false} TickSnoc(
    c: Context, db: Store.Db, selected: seq<Query>, answers: seq<Answer>, n: nat)
    requires n < |selected| == |answers| && forall q :: q in selected ==> q.id in db.queries
    ensures TickRuns(c, db, selected[..n + 1], answers[..n + 1]) ==
            RunOne(c, TickRuns(c, db, selected[..n], answers[..n]), selected[n], answers[n])
    ensures Enqueued(c, db, selected[..n + 1], answers[..n + 1]) ==
            Enqueued(c, db, selected[..n], answers[..n])
            + if IsEnqueued(c, TickRuns(c, db, selected[..n], answers[..n]), selected[n], answers[n])
              then [selected[n].id] else []
  {
    assert selected[..n + 1][..n] == selected[..n] && answers[..n + 1][..n] == answers[..n];
  }

  /** The body of the loop. */
  method RefreshOne(c: Context, store: Store.Database, query: Query, answer: Answer) returns (enqueue: bool)
    requires query.id in store.queries && store.env == c.env
    modifies store
    ensures store.State() == RunOne(c, old(store.State()), query, answer)
    ensures enqueue <==> IsEnqueued(c, old(store.State()), query, answer)
  {
    enqueue := false;
    if query.dataSource.None? || answer.Skipped? {
      return;
    }
    var text := TextToRun(c, query.id, store.queries[query.id]);
    if text.None? {
      store.TrackQueryError(query.id, store.clock);
      return;
    }
    var _ := store.RunQueryTask(
      text.value, query.dataSource.value, answer.metadata, Some(query.id), answer.failed, answer.wait);
    enqueue := true;
  }
}
