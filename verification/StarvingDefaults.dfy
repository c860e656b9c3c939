/**
 Two queries with the same template and different defaults, which no tick ever serves.
 */
module StarvingDefaults {
  import opened Text
  import opened Schedule
  import opened QuerySelection
  import opened SchedulerTick
  import CacheKey
  import Parameters
  import Store = ResultStore

  const TEMPLATE := "SELECT {{x}}"

  /** Two queries with the same template, and a result of the template itself. */
  function TwoQueries(): seq<Store.Event> {
    var create := Store.Create(TEMPLATE, false, Some(1));
    [create, create, Store.Run(TEMPLATE, 1, [], None, false, 0)]
  }

  function DefaultOf(text: string): Defaults {
    Defaults(map["x" := Parameters.Scalar(text, true)], map[], (_, _) => true)
  }

  /** The first defaults to 1 and the second to 2. */
  ghost predicate DefaultsDiffer(c: Context) {
    c.parse(TEMPLATE) == [Parameters.Literal("SELECT "), Parameters.Tag("x")]
    && c.defaults == map[0 := DefaultOf("1"), 1 := DefaultOf("2")]
    && c.show(Parameters.Scalar("2", true)) == "2"
    && c.env.digest("SELECT{{x}}") != c.env.digest("SELECT2")
  }

  const EVERY_MINUTE := Stored(false, Present(NoEnd), Present(Every(60)), Present(AnyTime), Present(AnyDay))
  const TEN_MINUTES: Instant := 600_000_000

  lemma {:induction false} AfterSnoc(env: Store.Env, front: seq<Store.Event>, e: Store.Event)
    ensures Store.After(env, front + [e]).db == Store.Step(env, Store.After(env, front).db, e)
  {
    assert (front + [e])[..|front|] == front;
  }

  lemma {:induction false} TwoQueriesStored(env: Store.Env)
    ensures var hash := CacheKey.GenQueryHash(env.digest, TEMPLATE);
            var q := Store.Query(TEMPLATE, false, Some(1), hash, Some(0), 0);
            var db := Store.After(env, TwoQueries()).db;
            db.queries == map[0 := q, 1 := q] && db.clock == 1
            && db.results == map[0 := Store.ResultRow(env, TEMPLATE, 1, [], 1)]
  {
    var create, run := Store.Create(TEMPLATE, false, Some(1)), Store.Run(TEMPLATE, 1, [], None, false, 0);
    AfterThree(env, create, create, run);
    CreatedAndRun(env, TEMPLATE);
  }

  lemma {:induction false} AfterThree(env: Store.Env, a: Store.Event, b: Store.Event, c: Store.Event)
    ensures Store.After(env, [a, b, c]).db == Store.Step(env, Store.Step(env, Store.Step(env, Store.EMPTY, a), b), c)
  {
    AfterSnoc(env, [], a);
    AfterSnoc(env, [a], b);
    AfterSnoc(env, [a, b], c);
    assert [] + [a] == [a] && [a] + [b] == [a, b] && [a, b] + [c] == [a, b, c];
  }

  lemma {:induction false} CreatedAndRun(env: Store.Env, text: string)
    ensures var create, run := Store.Create(text, false, Some(1)), Store.Run(text, 1, [], None, false, 0);
            var q := Store.Query(text, false, Some(1), CacheKey.GenQueryHash(env.digest, text), Some(0), 0);
            var db := Store.Step(env, Store.Step(env, Store.Step(env, Store.EMPTY, create), create), run);
            db.queries == map[0 := q, 1 := q] && db.clock == 1
            && db.results == map[0 := Store.ResultRow(env, text, 1, [], 1)]
  {
    var q := Store.Rehash(env, Store.Query(text, false, Some(1), "", None, 0));
    CreatedTwice(env, text, Store.EMPTY, q);
    RunOnTwo(env, text, Store.Db(map[], map[0 := q, 1 := q], 0, 0, 2), q);
  }

  lemma {:induction false} CreatedTwice(env: Store.Env, text: string, empty: Store.Db, q: Store.Query)
    requires empty == Store.EMPTY && q == Store.Rehash(env, Store.Query(text, false, Some(1), "", None, 0))
    ensures var create := Store.Create(text, false, Some(1));
            Store.Step(env, Store.Step(env, empty, create), create) == Store.Db(map[], map[0 := q, 1 := q], 0, 0, 2)
  {
  }

  lemma {:induction false} RunOnTwo(env: Store.Env, text: string, db: Store.Db, q: Store.Query)
    requires q == Store.Query(text, false, Some(1), CacheKey.GenQueryHash(env.digest, text), None, 0)
    requires db == Store.Db(map[], map[0 := q, 1 := q], 0, 0, 2)
    ensures var after := Store.Step(env, db, Store.Run(text, 1, [], None, false, 0));
            after.queries == map[0 := q.(latest := Some(0)), 1 := q.(latest := Some(0))] && after.clock == 1
            && after.results == map[0 := Store.ResultRow(env, text, 1, [], 1)]
  {
  }

  lemma {:induction false} TwoQueriesDue(q: Query, now: Instant)
    requires q.schedule == Some(EVERY_MINUTE) && q.retrievedAt == Some(1) && q.failures == 0 && now >= TEN_MINUTES
    ensures Judge(q, now, map[]) == DueNow
  {
    assert NextIteration(1, Plan(Every(60), AnyTime, AnyDay)) == Success(60_000_001);
  }

  lemma {:induction false} RenderedHash(c: Context, q: Store.Query)
    requires DefaultsDiffer(c) && q.text == TEMPLATE && !q.limit
    ensures TextToRun(c, 1, q) == Some("SELECT 2")
    ensures CacheKey.GenQueryHash(c.env.digest, "SELECT 2") != CacheKey.GenQueryHash(c.env.digest, TEMPLATE)
  {
    assert "x" in c.defaults[1].values;
    var stack := [Parameters.Scope(Parameters.JoinLists(c.defaults[1].values, map[]))];
    Parameters.SplitPlain("x");
    Parameters.LookupReachesBase(stack, stack[0].values, "x");
    assert Parameters.Lookup(stack, "x") == Some(Parameters.Scalar("2", true));
    RenderedTemplate(c, stack);
    TemplateKeys();
  }

  lemma {:induction false} RenderedTemplate(c: Context, stack: seq<Parameters.Frame>)
    requires DefaultsDiffer(c) && Parameters.Lookup(stack, "x") == Some(Parameters.Scalar("2", true))
    ensures Parameters.Render(c.show, c.parse(TEMPLATE), stack) == "SELECT 2"
  {
    var nodes := c.parse(TEMPLATE);
    assert nodes[1..] == [Parameters.Tag("x")] && nodes[1..][1..] == [];
    assert Parameters.Render(c.show, nodes[1..], stack) == "2" + Parameters.Render(c.show, [], stack);
  }

  lemma {:induction false} TemplateKeys()
    ensures CacheKey.NormalForm(TEMPLATE) == "SELECT{{x}}" && CacheKey.NormalForm("SELECT 2") == "SELECT2"
  {
    TemplateKey("SELECT", "{{x}}");
    RenderedKey("SELECT", "2");
  }

  lemma {:induction false} TemplateKey(a: string, b: string)
    requires a == "SELECT" && b == "{{x}}"
    ensures CacheKey.NormalForm(TEMPLATE) == "SELECT{{x}}"
  {
    CacheKey.SpacedKey(a, b);
    assert a + " " + b == TEMPLATE;
    assert a + b == "SELECT{{x}}";
  }

  lemma {:induction false} RenderedKey(a: string, b: string)
    requires a == "SELECT" && b == "2"
    ensures CacheKey.NormalForm("SELECT 2") == "SELECT2"
  {
    CacheKey.SpacedKey(a, b);
    assert a + " " + b == "SELECT 2";
    assert a + b == "SELECT2";
  }

  /** The store of two queries with one result of their template. */
  ghost predicate HoldsTwo(c: Context, db: Store.Db) {
    var q := Store.Query(TEMPLATE, false, Some(1), CacheKey.GenQueryHash(c.env.digest, TEMPLATE), Some(0), 0);
    db.queries.Keys == {0, 1} && db.queries[0] == q && db.queries[1] == q
    && db.results.Keys == {0} && db.results[0].retrievedAt == 1
  }

  predicate RunsEveryMinute(schedules: map<nat, Stored>) {
    schedules.Keys == {0, 1} && schedules[0] == EVERY_MINUTE && schedules[1] == EVERY_MINUTE
  }

  /** Both queries are due at the tick, one run of the second succeeds, and both stay as due as they were. */
  ghost predicate BothStarve(
    c: Context, db: Store.Db, schedules: map<nat, Stored>, answer: Answer, now: Instant, later: Instant)
  {
    InCalendar(db) && db.queries.Keys == {0, 1}
    && var first, second := Scheduled(db, schedules, 0), Scheduled(db, schedules, 1);
    Judge(first, now, map[]) == DueNow && Judge(second, now, map[]) == DueNow
    && Selected([first, second], now, map[]) == [second]
    && var after := TickRuns(c, db, [second], [answer]);
    StaysDue(after, schedules, 0, now, later) && StaysDue(after, schedules, 1, now, later)
  }

  /** The query has no result from after the tick, and is due later. */
  ghost predicate StaysDue(after: Store.Db, schedules: map<nat, Stored>, k: nat, now: Instant, later: Instant) {
    k in after.queries && !Fresh(after, k, now)
    && (InCalendar(after) ==> Judge(Scheduled(after, schedules, k), later, map[]) == DueNow)
  }

  /**
   Two due queries `SELECT {{x}}` on one data source with the defaults 1 and 2: only the
   second is selected, its run succeeds, neither gets the result, and both are due at
   every later instant.
   */
  lemma {:induction false} DefaultsStarve(
    c: Context, schedules: map<nat, Stored>, answer: Answer, now: Instant, later: Instant)
    requires DefaultsDiffer(c) && RunsEveryMinute(schedules) && answer.Ran? && !answer.failed
    requires TEN_MINUTES <= now <= later
    ensures BothStarve(c, AtTick(c.env, TwoQueries(), now), schedules, answer, now, later)
  {
    TwoQueriesStored(c.env);
    StarveFrom(c, TwoQueries(), schedules, answer, now, later);
  }

  lemma {:induction false} StarveFrom(
    c: Context, events: seq<Store.Event>, schedules: map<nat, Stored>, answer: Answer, now: Instant, later: Instant)
    requires DefaultsDiffer(c) && RunsEveryMinute(schedules) && answer.Ran? && !answer.failed
    requires TEN_MINUTES <= now <= later && HoldsTwo(c, AtTick(c.env, events, now))
    requires Store.After(c.env, events).db.clock <= now
    ensures BothStarve(c, AtTick(c.env, events, now), schedules, answer, now, later)
  {
    var db := AtTick(c.env, events, now);
    TwoSelected(c, db, schedules, now, later);
    RenderedServesNobody(c, db, Scheduled(db, schedules, 1), answer);
    var first, second := Scheduled(db, schedules, 0), Scheduled(db, schedules, 1);
    TwoStarve(c, events, schedules, first, second, answer, now, later, 0);
    TwoStarve(c, events, schedules, first, second, answer, now, later, 1);
  }

  lemma {:induction false} TwoSelected(
    c: Context, db: Store.Db, schedules: map<nat, Stored>, now: Instant, later: Instant)
    requires RunsEveryMinute(schedules) && TEN_MINUTES <= now && HoldsTwo(c, db)
    ensures InCalendar(db)
    ensures var first, second := Scheduled(db, schedules, 0), Scheduled(db, schedules, 1);
            Judge(first, now, map[]) == DueNow && first.retrievedAt.Some? && !HasEnded(first, later)
            && Judge(second, now, map[]) == DueNow && second.retrievedAt.Some? && !HasEnded(second, later)
            && Selected([first, second], now, map[]) == [second]
  {
    var first, second := Scheduled(db, schedules, 0), Scheduled(db, schedules, 1);
    TwoQueriesDue(first, now);
    TwoQueriesDue(second, now);
    SelectedTwo(first, second, now);
  }

  lemma {:induction false} TwoStarve(
    c: Context, events: seq<Store.Event>, schedules: map<nat, Stored>, first: Query, second: Query, answer: Answer,
    now: Instant, later: Instant, k: nat)
    requires var db := AtTick(c.env, events, now);
             InCalendar(db) && db.queries.Keys == {0, 1} && TextToRun(c, 1, db.queries[1]).Some?
             && first == Scheduled(db, schedules, 0) && second == Scheduled(db, schedules, 1)
             && Store.After(c.env, events).db.clock <= now && !ServesQuery(c, db, second, answer, k)
    requires Judge(first, now, map[]) == DueNow && first.retrievedAt.Some? && !HasEnded(first, later)
    requires Judge(second, now, map[]) == DueNow && second.retrievedAt.Some? && !HasEnded(second, later)
    requires Selected([first, second], now, map[]) == [second] && answer.Ran? && !answer.failed && now <= later && k < 2
    ensures StaysDue(TickRuns(c, AtTick(c.env, events, now), [second], [answer]), schedules, k, now, later)
  {
    var table := [first, second];
    assert IsTable(AtTick(c.env, events, now), schedules, table);
    assert table[k] in table && table[k].id == k;
    ForeignRunStarves(c, events, now, schedules, table, second, answer, table[k], later);
  }

  lemma {:induction false} RenderedServesNobody(c: Context, db: Store.Db, q: Query, answer: Answer)
    requires DefaultsDiffer(c) && q.id == 1 && HoldsTwo(c, db)
    ensures TextToRun(c, 1, db.queries[1]).Some?
    ensures !ServesQuery(c, db, q, answer, 0) && !ServesQuery(c, db, q, answer, 1)
  {
    RenderedHash(c, db.queries[1]);
  }

  lemma {:induction false} SelectedTwo(first: Query, second: Query, now: Instant)
    requires first.hash == second.hash && first.dataSource == second.dataSource
    requires Judge(first, now, map[]) == DueNow && Judge(second, now, map[]) == DueNow
    ensures Selected([first, second], now, map[]) == [second]
  {
    SelectedSnoc([], first, Tick(now, map[]));
    SelectedSnoc([first], second, Tick(now, map[]));
    assert [] + [first] == [first] && [first] + [second] == [first, second];
  }
}
