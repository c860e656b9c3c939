/**
 The stored results and the index from queries to their latest result: running,
 editing and forking queries, cleaning up results, and deleting data sources.
 */
module ResultStore {
  import opened Text
  import CacheKey

  datatype Row = Row(dataSource: nat, hash: string, text: string, retrievedAt: int)

  datatype Query = Query(
    text: string, limit: bool, dataSource: Option<nat>, hash: string, latest: Option<nat>, failures: nat)

  datatype Db = Db(results: map<nat, Row>, queries: map<nat, Query>, clock: int, nextRow: nat, nextQuery: nat)

  /**
   What the store does not decide: the digest behind the hash, and for each data source
   its automatic limit and whether its runner annotates queries.
   */
  datatype Env = Env(digest: string -> string, limit: (nat, string) -> string, annotates: nat -> bool)

  /** The text that is run for a query without parameters. */
  function RunText(env: Env, q: Query): string {
    if q.limit && q.dataSource.Some? then env.limit(q.dataSource.value, q.text) else q.text
  }

  /** `update_query_hash`, called before every insert and update of a query row. */
  function Rehash(env: Env, q: Query): Query {
    q.(hash := CacheKey.GenQueryHash(env.digest, RunText(env, q)))
  }

  // ----- the steps -----

  datatype Event =
    | Create(text: string, limit: bool, dataSource: Option<nat>)
    | Edit(id: nat, text: string, limit: bool, dataSource: Option<nat>)
    | Fork(id: nat)
    | Run(text: string, source: nat, metadata: CacheKey.Metadata, scheduled: Option<nat>, failed: bool, wait: nat)
    | Cleanup(threshold: int, victims: set<nat>)
    | DeleteSource(source: nat)

  function Insert(env: Env, db: Db, q: Query): Db {
    db.(queries := db.queries[db.nextQuery := Rehash(env, q)], nextQuery := db.nextQuery + 1)
  }

  predicate Matches(q: Query, hash: string, source: nat) {
    q.hash == hash && q.dataSource == Some(source)
  }

  /** `update_latest_result`. */
  function UpdateLatest(env: Env, queries: map<nat, Query>, id: nat, row: Row): map<nat, Query> {
    map k | k in queries ::
      if Matches(queries[k], row.hash, row.dataSource) then Rehash(env, queries[k].(latest := Some(id))) else queries[k]
  }

  /** The row `run_query_task` stores: the hash of the bare text, the annotated text. */
  function ResultRow(env: Env, text: string, source: nat, metadata: CacheKey.Metadata, now: int): Row {
    var annotated := CacheKey.AnnotateQuery(env.annotates(source), text, metadata);
    Row(source, CacheKey.GenQueryHash(env.digest, text), annotated, now)
  }

  function RunStep(env: Env, db: Db, e: Event): Db
    requires e.Run?
  {
    var now := db.clock + 1 + e.wait;
    if e.failed then
      if e.scheduled.Some? && e.scheduled.value in db.queries then
        var q := db.queries[e.scheduled.value];
        db.(queries := db.queries[e.scheduled.value := Rehash(env, q.(failures := q.failures + 1))], clock := now)
      else db.(clock := now)
    else
      var row := ResultRow(env, e.text, e.source, e.metadata, now);
      db.(results := db.results[db.nextRow := row],
      queries := UpdateLatest(env, db.queries, db.nextRow, row),
      clock := now,
      nextRow := db.nextRow + 1)
  }

  predicate Referenced(db: Db, id: nat) {
    exists k :: k in db.queries && db.queries[k].latest == Some(id)
  }

  /** `QueryResult.unused`: no query points at the row and it is older than the threshold. */
  function Unused(db: Db, threshold: int): set<nat> {
    set id | id in db.results && db.results[id].retrievedAt < threshold && !Referenced(db, id)
  }

  /** What one cleanup may delete: any `count` unused rows, or all when there are fewer. */
  predicate CleanupChoice(db: Db, threshold: int, count: nat, victims: set<nat>) {
    victims <= Unused(db, threshold)
    && |victims| == if |Unused(db, threshold)| < count then |Unused(db, threshold)| else count
  }

  function Remove(db: Db, victims: set<nat>): Db {
    db.(results := db.results - victims)
  }

  /** The query points at a result of this data source without belonging to it. */
  predicate Blocks(db: Db, k: nat, source: nat) {
    k in db.queries && db.queries[k].dataSource != Some(source) && db.queries[k].latest.Some?
    && db.queries[k].latest.value in db.results && db.results[db.queries[k].latest.value].dataSource == source
  }

  /** A query of another data source points at a result of this one. */
  predicate Blocked(db: Db, source: nat) {
    exists k :: k in db.queries && Blocks(db, k, source)
  }

  /** The bulk update of `DataSource.delete` bypasses the hash listener. */
  function Detach(q: Query, source: nat): Query {
    if q.dataSource == Some(source) then q.(dataSource := None, latest := None) else q
  }

  function DetachAll(queries: map<nat, Query>, source: nat): map<nat, Query> {
    map k | k in queries :: Detach(queries[k], source)
  }

  function RowsOf(results: map<nat, Row>, source: nat): set<nat> {
    set id | id in results && results[id].dataSource == source
  }

  /** The foreign key refuses the deletion when it would leave a reference behind. */
  function DeleteStep(db: Db, source: nat): Db {
    if Blocked(db, source) then db
    else db.(queries := DetachAll(db.queries, source), results := db.results - RowsOf(db.results, source))
  }

  function Step(env: Env, db: Db, e: Event): Db {
    match e
    case Create(text, limit, source) => Insert(env, db, Query(text, limit, source, "", None, 0))
    case Edit(id, text, limit, source) =>
      if id !in db.queries then db
      else
        var edited := Rehash(env, db.queries[id].(text := text, limit := limit, dataSource := source));
        db.(queries := db.queries[id := edited])
    case Fork(id) => if id !in db.queries then db else Insert(env, db, db.queries[id].(failures := 0))
    case Run(_, _, _, _, _, _) => RunStep(env, db, e)
    case Cleanup(threshold, victims) => if victims <= Unused(db, threshold) then Remove(db, victims) else db
    case DeleteSource(source) => DeleteStep(db, source)
  }

  const EMPTY := Db(map[], map[], 0, 0, 0)

  // ----- the scan -----

  predicate Candidate(db: Db, id: nat, hash: string, source: nat, maxAge: int, now: int) {
    id in db.results && db.results[id].hash == hash && db.results[id].dataSource == source
    && (maxAge == -1 || db.results[id].retrievedAt + maxAge >= now)
  }

  /** `get_latest`: the matching row that was retrieved last, if any row matches. */
  ghost predicate IsLatest(env: Env, db: Db, source: nat, text: string, maxAge: int, now: int, answer: Option<nat>) {
    var hash := CacheKey.GenQueryHash(env.digest, text);
    match answer
    case None => forall id :: id in db.results ==> !Candidate(db, id, hash, source, maxAge, now)
    case Some(r) =>
      Candidate(db, r, hash, source, maxAge, now)
      && forall id :: id in db.results && Candidate(db, id, hash, source, maxAge, now) ==>
                       db.results[id].retrievedAt <= db.results[r].retrievedAt
  }

  // ----- queries whose index entry can be trusted -----

  /**
   The queries that have not been given another hash or data source since their latest
   result was stored, whether by an edit of their own or of the query they were forked from.
   */
  function Track(env: Env, db: Db, synced: set<nat>, e: Event): set<nat> {
    match e
    case Create(_, _, _) => synced + {db.nextQuery}
    case Edit(id, text, limit, source) =>
      if id !in db.queries then synced else
      var q := db.queries[id];
      var edited := Rehash(env, q.(text := text, limit := limit, dataSource := source));
      if q.latest.None? || (edited.hash == q.hash && edited.dataSource == q.dataSource) then synced else synced - {id}
    case Fork(id) => if id in db.queries && id in synced then synced + {db.nextQuery} else synced
    case Run(text, source, metadata, _, failed, wait) =>
      if failed then synced
      else synced + set k | k in db.queries && Matches(db.queries[k], CacheKey.GenQueryHash(env.digest, text), source)
    case Cleanup(_, _) => synced
    case DeleteSource(_) => synced
  }

  datatype Tracked = Tracked(db: Db, synced: set<nat>)

  function After(env: Env, events: seq<Event>): Tracked {
    if events == [] then Tracked(EMPTY, {})
    else
      var before := After(env, events[..|events| - 1]);
      var e := events[|events| - 1];
      Tracked(Step(env, before.db, e), Track(env, before.db, before.synced, e))
  }

  // ----- the invariant -----

  ghost predicate RowsInvariant(db: Db) {
    (forall id :: id in db.results ==> id < db.nextRow && db.results[id].retrievedAt <= db.clock)
    && forall a, b :: a in db.results && b in db.results && a < b ==>
                      db.results[a].retrievedAt < db.results[b].retrievedAt
  }

  ghost predicate QueriesInvariant(env: Env, db: Db) {
    forall k :: k in db.queries ==>
                  k < db.nextQuery
                  && (db.queries[k].dataSource.Some? ==> db.queries[k] == Rehash(env, db.queries[k]))
                  && (db.queries[k].latest.Some? ==> db.queries[k].latest.value in db.results)
  }

  /** The row is the newest one with its hash and data source, and these are the query's. */
  ghost predicate PointsAtNewest(db: Db, q: Query) {
    q.latest.Some? ==>
      q.latest.value in db.results
      && Matches(q, db.results[q.latest.value].hash, db.results[q.latest.value].dataSource)
      && forall id :: id in db.results && Matches(q, db.results[id].hash, db.results[id].dataSource) ==>
                       id <= q.latest.value
  }

  ghost predicate Invariant(env: Env, t: Tracked) {
    RowsInvariant(t.db) && QueriesInvariant(env, t.db) && t.synced <= t.db.queries.Keys
    && forall k :: k in t.synced ==> PointsAtNewest(t.db, t.db.queries[k])
  }

  lemma InsertKeeps(env: Env, t: Tracked, q: Query, trusted: bool)
    requires Invariant(env, t) && (q.latest.Some? ==> q.latest.value in t.db.results)
    requires trusted ==> PointsAtNewest(t.db, Rehash(env, q))
    ensures Invariant(env, Tracked(Insert(env, t.db, q), if trusted then t.synced + {t.db.nextQuery} else t.synced))
  {
    assert t.db.nextQuery !in t.db.queries;
  }

  lemma EditKeeps(env: Env, t: Tracked, e: Event)
    requires Invariant(env, t) && e.Edit?
    ensures Invariant(env, Tracked(Step(env, t.db, e), Track(env, t.db, t.synced, e)))
  {
  }

  lemma FailureKeeps(env: Env, t: Tracked, e: Event)
    requires Invariant(env, t) && e.Run? && e.failed
    ensures Invariant(env, Tracked(Step(env, t.db, e), Track(env, t.db, t.synced, e)))
  {
    var after := Step(env, t.db, e);
    FailureKeepsRows(env, t.db, e);
    forall k | k in t.synced
      ensures PointsAtNewest(after, after.queries[k])
    {
      assert PointsAtNewest(t.db, t.db.queries[k]);
    }
  }

  lemma FailureKeepsRows(env: Env, db: Db, e: Event)
    requires RowsInvariant(db) && QueriesInvariant(env, db) && e.Run? && e.failed
    ensures RowsInvariant(Step(env, db, e)) && QueriesInvariant(env, Step(env, db, e))
  {
  }

  lemma SuccessKeeps(env: Env, t: Tracked, e: Event)
    requires Invariant(env, t) && e.Run? && !e.failed
    ensures Invariant(env, Tracked(Step(env, t.db, e), Track(env, t.db, t.synced, e)))
  {
    var after := RunStep(env, t.db, e);
    var row := after.results[t.db.nextRow];
    forall k | k in Track(env, t.db, t.synced, e)
      ensures PointsAtNewest(after, after.queries[k])
    {
      if !Matches(t.db.queries[k], row.hash, row.dataSource) {
        assert PointsAtNewest(t.db, t.db.queries[k]);
      }
    }
  }

  lemma CleanupKeeps(env: Env, t: Tracked, e: Event)
    requires Invariant(env, t) && e.Cleanup?
    ensures Invariant(env, Tracked(Step(env, t.db, e), t.synced))
  {
    forall k | k in t.db.queries && t.db.queries[k].latest.Some?
      ensures t.db.queries[k].latest.value !in Unused(t.db, e.threshold)
    {
      assert Referenced(t.db, t.db.queries[k].latest.value);
    }
  }

  lemma DeleteKeeps(env: Env, t: Tracked, e: Event)
    requires Invariant(env, t) && e.DeleteSource?
    ensures Invariant(env, Tracked(Step(env, t.db, e), t.synced))
  {
  }

  lemma StepKeeps(env: Env, t: Tracked, e: Event)
    requires Invariant(env, t)
    ensures Invariant(env, Tracked(Step(env, t.db, e), Track(env, t.db, t.synced, e)))
  {
    match e
    case Create(text, limit, source) => InsertKeeps(env, t, Query(text, limit, source, "", None, 0), true);
    case Edit(_, _, _, _) => EditKeeps(env, t, e);
    case Fork(id) =>
      if id in t.db.queries {
        InsertKeeps(env, t, t.db.queries[id].(failures := 0), id in t.synced);
      }
    case Run(_, _, _, _, failed, _) =>
      if failed {
        FailureKeeps(env, t, e);
      } else {
        SuccessKeeps(env, t, e);
      }
    case Cleanup(_, _) => CleanupKeeps(env, t, e);
    case DeleteSource(_) => DeleteKeeps(env, t, e);
  }

  lemma {:induction false} AlwaysInvariant(env: Env, events: seq<Event>)
    ensures Invariant(env, After(env, events))
  {
    if events != [] {
      var front := events[..|events| - 1];
      AlwaysInvariant(env, front);
      StepKeeps(env, After(env, front), events[|events| - 1]);
    }
  }

  // ----- the index agrees with the scan -----

  predicate Trusted(t: Tracked, k: nat) {
    k in t.synced && k in t.db.queries && t.db.queries[k].latest.Some?
  }

  /**
   In every run, a trusted query that has a latest result points at exactly the row the
   scan without an age limit returns for the text that is run for it, and at no other.
   */
  lemma IndexAgreesWithScan(env: Env, events: seq<Event>, k: nat, now: int, answer: Option<nat>)
    requires Trusted(After(env, events), k)
    ensures var db := After(env, events).db;
            var q := db.queries[k];
            q.dataSource.Some?
            && (IsLatest(env, db, q.dataSource.value, RunText(env, q), -1, now, answer) <==> answer == q.latest)
  {
    AlwaysInvariant(env, events);
    var db := After(env, events).db;
    var q := db.queries[k];
    assert PointsAtNewest(db, q);
    var hash, source := q.hash, q.dataSource.value;
    assert hash == CacheKey.GenQueryHash(env.digest, RunText(env, q));
    assert Candidate(db, q.latest.value, hash, source, -1, now);
    forall id | id in db.results && Candidate(db, id, hash, source, -1, now) && id != q.latest.value
      ensures db.results[id].retrievedAt < db.results[q.latest.value].retrievedAt
    {
    }
  }

  /** With an age limit the scan returns the indexed row while it is fresh, and nothing afterwards. */
  lemma IndexAnswersAgedScan(env: Env, events: seq<Event>, k: nat, maxAge: nat, now: int, answer: Option<nat>)
    requires Trusted(After(env, events), k)
    ensures var db := After(env, events).db;
            var q := db.queries[k];
            q.dataSource.Some? && q.latest.value in db.results
            && (IsLatest(env, db, q.dataSource.value, RunText(env, q), maxAge, now, answer) <==>
                answer == if db.results[q.latest.value].retrievedAt + maxAge >= now then q.latest else None)
  {
    AlwaysInvariant(env, events);
    var db := After(env, events).db;
    var q := db.queries[k];
    assert PointsAtNewest(db, q);
    var hash, source, r := q.hash, q.dataSource.value, q.latest.value;
    assert hash == CacheKey.GenQueryHash(env.digest, RunText(env, q));
    assert Candidate(db, r, hash, source, maxAge, now) <==> db.results[r].retrievedAt + maxAge >= now;
    forall id | id in db.results && Candidate(db, id, hash, source, maxAge, now) && id != r
      ensures db.results[id].retrievedAt < db.results[r].retrievedAt
    {
    }
  }

  /**
   Why edits have to be tracked through forks. Edit a trusted query in any way (text,
   limit option, data source) and fork it: the fork was never edited, but it points at
   the row the scan returns for it exactly when the edit left hash and data source alone.
   */
  lemma ForkOfEditedIsStale(
    env: Env, events: seq<Event>, k: nat, text: string, limit: bool, source: nat, now: int)
    requires Trusted(After(env, events), k)
    ensures var t := After(env, events);
            var q := t.db.queries[k];
            var db := Step(env, Step(env, t.db, Edit(k, text, limit, Some(source))), Fork(k));
            t.db.nextQuery in db.queries
            && var fork := db.queries[t.db.nextQuery];
            fork.text == text && fork.limit == limit && fork.dataSource == Some(source) && fork.latest == q.latest
            && (IsLatest(env, db, source, RunText(env, fork), -1, now, fork.latest) <==>
                Rehash(env, q.(text := text, limit := limit, dataSource := Some(source))).hash == q.hash
                && q.dataSource == Some(source))
  {
    AlwaysInvariant(env, events);
    var t := After(env, events);
    var q := t.db.queries[k];
    assert PointsAtNewest(t.db, q);
    var edited := Rehash(env, q.(text := text, limit := limit, dataSource := Some(source)));
    if edited.hash == q.hash && q.dataSource == Some(source) {
      forall id | id in t.db.results && Candidate(t.db, id, q.hash, source, -1, now) && id != q.latest.value
        ensures t.db.results[id].retrievedAt < t.db.results[q.latest.value].retrievedAt
      {
      }
    }
  }

  // ----- references -----

  /** No run leaves a query pointing at a deleted result. */
  lemma NothingDangles(env: Env, events: seq<Event>, k: nat)
    requires k in After(env, events).db.queries
    ensures var db := After(env, events).db;
            db.queries[k].latest.Some? ==> db.queries[k].latest.value in db.results
  {
    AlwaysInvariant(env, events);
  }

  /** Every query that blocks the deletion of a data source was edited since its latest result. */
  lemma OnlyStaleQueriesBlock(env: Env, events: seq<Event>, source: nat, k: nat)
    requires Blocks(After(env, events).db, k, source)
    ensures k !in After(env, events).synced && Blocked(After(env, events).db, source)
  {
    AlwaysInvariant(env, events);
    var t := After(env, events);
    assert k in t.synced ==> PointsAtNewest(t.db, t.db.queries[k]);
  }

  /**
   Deleting a data source would leave a reference to a missing row exactly when a query
   of another data source points at one of its results; that is when it is refused.
   */
  lemma DeletionDanglesIffBlocked(env: Env, events: seq<Event>, source: nat)
    ensures var db := After(env, events).db;
            var queries, results := DetachAll(db.queries, source), db.results - RowsOf(db.results, source);
            Blocked(db, source) <==>
            exists k :: k in queries && queries[k].latest.Some? && queries[k].latest.value !in results
  {
    AlwaysInvariant(env, events);
    var db := After(env, events).db;
    var queries, results := DetachAll(db.queries, source), db.results - RowsOf(db.results, source);
    if Blocked(db, source) {
      var k :| k in db.queries && Blocks(db, k, source);
      assert k in queries && queries[k] == db.queries[k];
    }
  }

  // ----- cleanup -----

  lemma UnusedAfterRemove(db: Db, threshold: int, victims: set<nat>)
    ensures Unused(Remove(db, victims), threshold) == Unused(db, threshold) - victims
  {
    assert forall id :: Referenced(Remove(db, victims), id) <==> Referenced(db, id);
  }

  /** The store after a series of cleanups. */
  function CleanupRuns(db: Db, choices: seq<set<nat>>): Db {
    if choices == [] then db else Remove(CleanupRuns(db, choices[..|choices| - 1]), choices[|choices| - 1])
  }

  ghost predicate CleanupSeries(db: Db, thresholds: seq<int>, count: nat, choices: seq<set<nat>>) {
    |thresholds| == |choices|
    && forall i :: 0 <= i < |choices| ==> CleanupChoice(CleanupRuns(db, choices[..i]), thresholds[i], count, choices[i])
  }

  /**
   When no further row becomes unused or crosses the age limit, every cleanup takes
   `count` rows until none is left: after k runs max(0, n - k * count) of n remain.
   */
  lemma {:induction false} CleanupDrains(
    db: Db, thresholds: seq<int>, count: nat, choices: seq<set<nat>>, threshold: int)
    requires CleanupSeries(db, thresholds, count, choices)
    requires forall i :: 0 <= i < |thresholds| ==> Unused(db, thresholds[i]) == Unused(db, threshold)
    ensures var n, left := |Unused(db, threshold)|, Unused(CleanupRuns(db, choices), threshold);
            |left| == (if n <= |choices| * count then 0 else n - |choices| * count)
            && left <= Unused(db, threshold)
            && forall t :: Unused(db, t) == Unused(db, threshold) ==> Unused(CleanupRuns(db, choices), t) == left
  {
    if choices != [] {
      var k := |choices| - 1;
      var front := choices[..k];
      forall i | 0 <= i < k
        ensures CleanupChoice(CleanupRuns(db, front[..i]), thresholds[..k][i], count, front[i])
      {
        assert front[..i] == choices[..i];
      }
      CleanupDrains(db, thresholds[..k], count, front, threshold);
      var before := CleanupRuns(db, front);
      assert CleanupChoice(before, thresholds[k], count, choices[k]);
      assert Unused(before, thresholds[k]) == Unused(before, threshold);
      forall t: int
        ensures Unused(CleanupRuns(db, choices), t) == Unused(before, t) - choices[k]
      {
        UnusedAfterRemove(before, t, choices[k]);
      }
      CardinalityOfRest(Unused(before, threshold), choices[k]);
      assert |choices| * count == k * count + count;
    }
  }

  // ----- cleanup while rows cross the age limit -----

  predicate NonDecreasing(thresholds: seq<int>) {
    forall i, j :: 0 <= i < j < |thresholds| ==> thresholds[i] <= thresholds[j]
  }

  function Gone(choices: seq<set<nat>>): set<nat> {
    if choices == [] then {} else Gone(choices[..|choices| - 1]) + choices[|choices| - 1]
  }

  /** How many rows have been deleted when each run takes what it may of the rows unused by then. */
  function Removed(db: Db, thresholds: seq<int>, count: nat): nat {
    if thresholds == [] then 0
    else
      var k := |thresholds| - 1;
      var before, unused := Removed(db, thresholds[..k], count), |Unused(db, thresholds[k])|;
      if before + count < unused then before + count else unused
  }

  lemma {:induction false} CleanupRemoves(db: Db, thresholds: seq<int>, count: nat, choices: seq<set<nat>>)
    requires CleanupSeries(db, thresholds, count, choices) && NonDecreasing(thresholds)
    ensures forall t :: Unused(CleanupRuns(db, choices), t) == Unused(db, t) - Gone(choices)
    ensures |Gone(choices)| == Removed(db, thresholds, count)
    ensures Gone(choices) <= if choices == [] then {} else Unused(db, thresholds[|choices| - 1])
  {
    if choices != [] {
      var k := |choices| - 1;
      var front := choices[..k];
      SeriesFront(db, thresholds, count, choices);
      CleanupRemoves(db, thresholds[..k], count, front);
      assert k > 0 ==> thresholds[..k][k - 1] <= thresholds[k];
      RemoveMore(db, CleanupRuns(db, front), Gone(front), choices[k]);
      TakenFrom(Unused(db, thresholds[k]), Gone(front), choices[k], count);
    }
  }

  lemma RemoveMore(db: Db, before: Db, gone: set<nat>, taken: set<nat>)
    requires forall t :: Unused(before, t) == Unused(db, t) - gone
    ensures forall t :: Unused(Remove(before, taken), t) == Unused(db, t) - (gone + taken)
  {
    forall t: int
      ensures Unused(Remove(before, taken), t) == Unused(db, t) - (gone + taken)
    {
      UnusedAfterRemove(before, t, taken);
    }
  }

  lemma SeriesFront(db: Db, thresholds: seq<int>, count: nat, choices: seq<set<nat>>)
    requires CleanupSeries(db, thresholds, count, choices) && choices != []
    ensures var k := |choices| - 1;
            CleanupSeries(db, thresholds[..k], count, choices[..k])
            && CleanupChoice(CleanupRuns(db, choices[..k]), thresholds[k], count, choices[k])
  {
    var k := |choices| - 1;
    forall i | 0 <= i < k
      ensures CleanupChoice(CleanupRuns(db, choices[..k][..i]), thresholds[..k][i], count, choices[..k][i])
    {
      assert choices[..k][..i] == choices[..i];
    }
  }

  lemma TakenFrom(all: set<nat>, gone: set<nat>, taken: set<nat>, count: nat)
    requires gone <= all && taken <= all - gone
    requires |taken| == if |all - gone| < count then |all - gone| else count
    ensures |gone + taken| == (if |gone| + count < |all| then |gone| + count else |all|) && gone + taken <= all
  {
    CardinalityOfRest(all, gone);
    CardinalityOfRest(gone + taken, gone);
    assert gone + taken - gone == taken;
  }

  /** The runs keep up: of the rows that became unused since run i, the runs after it can take all. */
  ghost predicate KeepsUp(db: Db, thresholds: seq<int>, count: nat, goal: int) {
    goal <= |thresholds| * count
    && forall i :: 0 <= i < |thresholds| ==> goal <= |Unused(db, thresholds[i])| + (|thresholds| - 1 - i) * count
  }

  lemma {:induction false} RemovedAtLeast(db: Db, thresholds: seq<int>, count: nat, goal: int)
    ensures Removed(db, thresholds, count) >= goal <==> KeepsUp(db, thresholds, count, goal)
  {
    if thresholds != [] {
      var k := |thresholds| - 1;
      var front := thresholds[..k];
      RemovedAtLeast(db, front, count, goal - count);
      assert (k + 1) * count == k * count + count;
      forall i | 0 <= i < k
        ensures (k - i) * count == (k - 1 - i) * count + count && front[i] == thresholds[i]
      {
      }
    } else {
      assert |thresholds| * count == 0;
    }
  }

  /**
   While rows cross the age limit and nothing else changes, a series of cleanups leaves no
   unused row behind exactly when it keeps up with the rows that become old.
   */
  lemma AgingCleanupDrains(db: Db, thresholds: seq<int>, count: nat, choices: seq<set<nat>>)
    requires CleanupSeries(db, thresholds, count, choices) && NonDecreasing(thresholds) && choices != []
    ensures var t := thresholds[|thresholds| - 1];
            Unused(CleanupRuns(db, choices), t) == {} <==> KeepsUp(db, thresholds, count, |Unused(db, t)|)
  {
    var all := Unused(db, thresholds[|thresholds| - 1]);
    CleanupRemoves(db, thresholds, count, choices);
    RemovedAtLeast(db, thresholds, count, |all|);
    CardinalityOfRest(all, Gone(choices));
  }

  lemma CardinalityOfRest(all: set<nat>, part: set<nat>)
    requires part <= all
    ensures |all - part| == |all| - |part|
  {
    assert all == part + (all - part);
  }

  // ----- stored texts -----

  ghost predicate HarmlessRuns(events: seq<Event>) {
    forall i, j :: 0 <= i < |events| && events[i].Run? && 0 <= j < |events[i].metadata| ==>
                     CacheKey.Harmless(events[i].metadata[j].0) && CacheKey.Harmless(events[i].metadata[j].1)
  }

  /** Every stored row's text, annotation included, hashes to the row's hash. */
  lemma {:induction false} StoredTextHashes(env: Env, events: seq<Event>, id: nat)
    requires HarmlessRuns(events) && id in After(env, events).db.results
    ensures var row := After(env, events).db.results[id];
            CacheKey.GenQueryHash(env.digest, row.text) == row.hash
  {
    var front, e := events[..|events| - 1], events[|events| - 1];
    var db := After(env, front).db;
    RowComesFrom(env, db, e, id);
    if id in db.results && Step(env, db, e).results[id] == db.results[id] {
      StoredTextHashes(env, front, id);
    } else {
      CacheKey.AnnotationKeepsKey(env.digest, env.annotates(e.source), e.text, e.metadata);
    }
  }

  lemma RowComesFrom(env: Env, db: Db, e: Event, id: nat)
    requires id in Step(env, db, e).results
    ensures var row := Step(env, db, e).results[id];
            (id in db.results && row == db.results[id])
            || (e.Run? && row == ResultRow(env, e.text, e.source, e.metadata, db.clock + 1 + e.wait))
  {
  }

  // ----- the program -----

  class Database {
    const env: Env
    var results: map<nat, Row>
    var queries: map<nat, Query>
    var clock: int
    var nextRow: nat
    var nextQuery: nat

    function State(): Db
      reads this
    {
      Db(results, queries, clock, nextRow, nextQuery)
    }

    constructor (env: Env)
      ensures State() == EMPTY && this.env == env
    {
      this.env := env;
      results, queries, clock, nextRow, nextQuery := map[], map[], 0, 0, 0;
    }

    method AddQuery(q: Query) returns (id: nat)
      modifies this
      ensures State() == Insert(env, old(State()), q) && id == old(nextQuery)
    {
      id := nextQuery;
      queries := queries[id := Rehash(env, q)];
      nextQuery := id + 1;
    }

    method ForkQuery(id: nat) returns (copy: nat)
      requires id in queries
      modifies this
      ensures State() == Step(env, old(State()), Fork(id)) && copy == old(nextQuery)
    {
      copy := AddQuery(queries[id].(failures := 0));
    }

    method StoreResult(row: Row) returns (id: nat)
      modifies this`results, this`nextRow
      ensures id == old(nextRow) && nextRow == id + 1 && results == old(results)[id := row]
    {
      id := nextRow;
      results := results[id := row];
      nextRow := id + 1;
    }

    method UpdateLatestResult(id: nat, row: Row) returns (updated: set<nat>)
      modifies this`queries
      ensures queries == UpdateLatest(env, old(queries), id, row)
      ensures updated == set k | k in old(queries) && Matches(old(queries)[k], row.hash, row.dataSource)
    {
      var matching := set k | k in queries && Matches(queries[k], row.hash, row.dataSource);
      var todo := matching;
      while todo != {}
        invariant todo <= matching && queries.Keys == old(queries).Keys
        invariant forall k :: k in queries ==>
                                queries[k] ==
                                if k in matching - todo then Rehash(env, old(queries)[k].(latest := Some(id)))
                                else old(queries)[k]
      {
        var k :| k in todo;
        queries := queries[k := Rehash(env, queries[k].(latest := Some(id)))];
        todo := todo - {k};
      }
      updated := matching;
    }

    method TrackQueryError(id: nat, now: int)
      requires id in queries
      modifies this`queries
      ensures queries == old(queries)[id := Rehash(env, old(queries)[id].(failures := old(queries)[id].failures + 1))]
    {
      queries := queries[id := Rehash(env, queries[id].(failures := queries[id].failures + 1))];
    }

    /** The answer of the database (failed or not) and the time it took come from outside. */
    method RunQueryTask(
      text: string, source: nat, metadata: CacheKey.Metadata, scheduled: Option<nat>, failed: bool, wait: nat)
      returns (result: Option<nat>)
      modifies this
      ensures State() == RunStep(env, old(State()), Run(text, source, metadata, scheduled, failed, wait))
      ensures result == if failed then None else Some(old(nextRow))
    {
      var hash := CacheKey.GenQueryHash(env.digest, text);
      var annotated := CacheKey.AnnotateQuery(env.annotates(source), text, metadata);
      clock := clock + 1 + wait;
      if failed {
        if scheduled.Some? && scheduled.value in queries {
          TrackQueryError(scheduled.value, clock);
        }
        return None;
      }
      var row := Row(source, hash, annotated, clock);
      var id := StoreResult(row);
      var _ := UpdateLatestResult(id, row);
      return Some(id);
    }

    method GetLatest(source: nat, text: string, maxAge: int, now: int) returns (answer: Option<nat>)
      ensures IsLatest(env, State(), source, text, maxAge, now, answer)
    {
      var hash := CacheKey.GenQueryHash(env.digest, text);
      answer := None;
      var todo := results.Keys;
      while todo != {}
        invariant todo <= results.Keys
        invariant answer.Some? ==> Candidate(State(), answer.value, hash, source, maxAge, now)
        invariant forall id :: id in results.Keys - todo && Candidate(State(), id, hash, source, maxAge, now) ==>
                                 answer.Some? && results[id].retrievedAt <= results[answer.value].retrievedAt
      {
        var id :| id in todo;
        if Candidate(State(), id, hash, source, maxAge, now)
           && (answer.None? || results[answer.value].retrievedAt < results[id].retrievedAt) {
          answer := Some(id);
        }
        todo := todo - {id};
      }
    }

    method CleanupUnusedResults(threshold: int, count: nat) returns (victims: set<nat>)
      modifies this`results
      ensures CleanupChoice(old(State()), threshold, count, victims)
      ensures State() == Remove(old(State()), victims)
      ensures |victims| <= count && results == old(results) - victims
      ensures forall id :: id in victims ==>
                id in old(results) && old(results)[id].retrievedAt < threshold
                && forall k :: k in queries ==> queries[k].latest != Some(id)
      ensures |victims| < count ==>
                forall id :: id in results ==>
                  results[id].retrievedAt >= threshold || exists k :: k in queries && queries[k].latest == Some(id)
    {
      var unused := Unused(State(), threshold);
      victims := {};
      while |victims| < count && victims != unused
        invariant results == old(results)
        invariant victims <= unused && |victims| <= count && |victims| <= |unused|
        decreases count - |victims|
      {
        CardinalityOfRest(unused, victims);
        var id :| id in unused - victims;
        CardinalityOfRest(unused, victims + {id});
        victims := victims + {id};
      }
      CardinalityOfRest(unused, victims);
      results := results - victims;
    }

    method DeleteDataSource(source: nat) returns (done: bool)
      modifies this
      ensures done <==> !Blocked(old(State()), source)
      ensures State() == DeleteStep(old(State()), source)
      ensures done ==> forall k :: k in queries ==> queries[k].dataSource != Some(source)
      ensures done ==> forall id :: id in results <==> id in old(results) && old(results)[id].dataSource != source
      ensures done ==>
                queries.Keys == old(queries).Keys
                && forall k :: k in queries ==>
                     queries[k] == if old(queries)[k].dataSource == Some(source)
                                   then old(queries)[k].(dataSource := None, latest := None) else old(queries)[k]
      ensures !done ==> queries == old(queries) && results == old(results)
    {
      var detached := DetachAll(queries, source);
      done := forall k :: k in detached && detached[k].latest.Some? && detached[k].latest.value in results ==>
                            results[detached[k].latest.value].dataSource != source;
      assert forall k :: k in queries && queries[k].dataSource != Some(source) ==> detached[k] == queries[k];
      if done {
        queries := detached;
        results := results - RowsOf(results, source);
      } else {
        ghost var k :| k in detached && detached[k].latest.Some? && detached[k].latest.value in results
                       && results[detached[k].latest.value].dataSource == source;
        assert detached[k] == queries[k];
      }
    }
  }
}
