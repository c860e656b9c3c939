/**
 What single steps and whole runs of the result store do to rows, hashes and counters,
 read off the events themselves.
 */
module StoreRuns {
  import opened Text
  import opened ResultStore
  import CacheKey

  // ----- hashes -----

  /** In every run a query with a data source carries the hash of the text that is run for it. */
  lemma HashesAreCurrent(env: Env, events: seq<Event>, k: nat, source: nat)
    requires k in After(env, events).db.queries && After(env, events).db.queries[k].dataSource == Some(source)
    ensures var q := After(env, events).db.queries[k];
            q.hash == env.digest(CacheKey.NormalForm(if q.limit then env.limit(source, q.text) else q.text))
  {
    AlwaysInvariant(env, events);
    assert QueriesInvariant(env, After(env, events).db);
  }

  // ----- one run -----

  /** The annotation of a data source whose runner annotates. */
  function AnnotationOf(env: Env, source: nat, metadata: CacheKey.Metadata): string {
    if env.annotates(source) then CacheKey.Comment(JoinWith(", ", CacheKey.Entries(metadata))) else ""
  }

  /**
   A successful run adds one row: the annotated text under the hash of the bare one, with
   the time at which it ended. The queries of the data source with this hash point at it,
   nothing else about them changes, and the other queries stay as they were.
   */
  lemma SuccessExactly(env: Env, db: Db, e: Event)
    requires e.Run? && !e.failed && QueriesInvariant(env, db)
    ensures var hash, after := env.digest(CacheKey.NormalForm(e.text)), Step(env, db, e);
            var now := db.clock + 1 + e.wait;
            after.results ==
            db.results[db.nextRow := Row(e.source, hash, AnnotationOf(env, e.source, e.metadata) + e.text, now)]
            && after.clock == now && after.nextRow == db.nextRow + 1 && after.queries.Keys == db.queries.Keys
            && forall k :: k in db.queries ==>
                 after.queries[k] ==
                 if db.queries[k].hash == hash && db.queries[k].dataSource == Some(e.source)
                 then db.queries[k].(latest := Some(db.nextRow)) else db.queries[k]
  {
    var row := ResultRow(env, e.text, e.source, e.metadata, db.clock + 1 + e.wait);
    RowExactly(env, e.text, e.source, e.metadata, db.clock + 1 + e.wait);
    UpdateExactly(env, db.queries, db.nextRow, row);
  }

  lemma RowExactly(env: Env, text: string, source: nat, metadata: CacheKey.Metadata, now: int)
    ensures ResultRow(env, text, source, metadata, now) ==
            Row(source, env.digest(CacheKey.NormalForm(text)), AnnotationOf(env, source, metadata) + text, now)
  {
    assert "" + text == text;
  }

  lemma UpdateExactly(env: Env, queries: map<nat, Query>, id: nat, row: Row)
    requires forall k :: k in queries && queries[k].dataSource.Some? ==> queries[k] == Rehash(env, queries[k])
    ensures var after := UpdateLatest(env, queries, id, row);
            after.Keys == queries.Keys
            && forall k :: k in queries ==>
                 after[k] == if queries[k].hash == row.hash && queries[k].dataSource == Some(row.dataSource)
                             then queries[k].(latest := Some(id)) else queries[k]
  {
    forall k | k in queries && queries[k].dataSource.Some?
      ensures Rehash(env, queries[k].(latest := Some(id))) == queries[k].(latest := Some(id))
    {
      assert queries[k] == Rehash(env, queries[k]);
    }
  }

  /** A failed run takes its time and adds one failure to the query it was scheduled for, and does nothing else. */
  lemma FailureExactly(env: Env, db: Db, e: Event)
    requires e.Run? && e.failed && QueriesInvariant(env, db)
    ensures var after := Step(env, db, e);
            after == db.(queries := after.queries, clock := db.clock + 1 + e.wait)
            && after.queries.Keys == db.queries.Keys
            && forall k :: k in db.queries ==>
                 if e.scheduled == Some(k)
                 then after.queries[k].failures == db.queries[k].failures + 1
                      && (db.queries[k].dataSource.Some? ==>
                            after.queries[k] == db.queries[k].(failures := db.queries[k].failures + 1))
                 else after.queries[k] == db.queries[k]
  {
  }

  // ----- the other steps -----

  function HashOf(env: Env, text: string, limit: bool, source: Option<nat>): string {
    env.digest(CacheKey.NormalForm(if limit && source.Some? then env.limit(source.value, text) else text))
  }

  /** A new query gets the next number and the hash of its text, and has neither a result nor failures. */
  lemma CreateExactly(env: Env, db: Db, text: string, limit: bool, source: Option<nat>)
    ensures var q := Query(text, limit, source, HashOf(env, text, limit, source), None, 0);
            Step(env, db, Create(text, limit, source)) ==
            db.(queries := db.queries[db.nextQuery := q], nextQuery := db.nextQuery + 1)
  {
  }

  /** An edit keeps the result and the failures of the query and renews its hash. */
  lemma EditExactly(env: Env, db: Db, id: nat, text: string, limit: bool, source: Option<nat>)
    requires id in db.queries
    ensures var q := db.queries[id];
            Step(env, db, Edit(id, text, limit, source)) ==
            db.(queries :=
                  db.queries[id := Query(text, limit, source, HashOf(env, text, limit, source), q.latest, q.failures)])
  {
  }

  /** A fork has the text, options, data source and result of the original, but no failures. */
  lemma ForkExactly(env: Env, db: Db, id: nat)
    requires id in db.queries
    ensures var q := db.queries[id];
            var copy := Query(q.text, q.limit, q.dataSource, HashOf(env, q.text, q.limit, q.dataSource), q.latest, 0);
            Step(env, db, Fork(id)) ==
            db.(queries := db.queries[db.nextQuery := copy], nextQuery := db.nextQuery + 1)
  {
  }

  /** A cleanup deletes its victims when all of them are old and unreferenced, and nothing else. */
  lemma CleanupExactly(env: Env, db: Db, threshold: int, victims: set<nat>)
    requires forall id :: id in victims ==>
               id in db.results && db.results[id].retrievedAt < threshold
               && forall k :: k in db.queries ==> db.queries[k].latest != Some(id)
    ensures Step(env, db, Cleanup(threshold, victims)) == db.(results := db.results - victims)
  {
    assert victims <= Unused(db, threshold);
  }

  /** A new query and a fork are the only steps that add a query. */
  predicate Adds(db: Db, e: Event) {
    e.Create? || (e.Fork? && e.id in db.queries)
  }

  ghost predicate Numbered(db: Db) {
    forall k: nat :: k in db.queries <==> k < db.nextQuery
  }

  lemma QueriesAreNumbered(env: Env, db: Db, e: Event)
    requires Numbered(db)
    ensures var after := Step(env, db, e);
            Numbered(after) && after.nextQuery == db.nextQuery + if Adds(db, e) then 1 else 0
  {
    if e.Edit? && e.id in db.queries {
      assert Step(env, db, e).queries.Keys == db.queries.Keys;
    }
  }

  lemma {:induction false} NumberedAlways(env: Env, events: seq<Event>)
    ensures Numbered(After(env, events).db)
  {
    if events != [] {
      NumberedAlways(env, events[..|events| - 1]);
      QueriesAreNumbered(env, After(env, events[..|events| - 1]).db, events[|events| - 1]);
    }
  }

  // ----- failures -----

  /** The failed scheduled runs of a query since it exists. */
  function FailedRuns(env: Env, events: seq<Event>, k: nat): nat {
    if events == [] then 0
    else
      var front, e := events[..|events| - 1], events[|events| - 1];
      FailedRuns(env, front, k)
      + if e.Run? && e.failed && e.scheduled == Some(k) && k in After(env, front).db.queries then 1 else 0
  }

  /** No other step counts a failure, and none takes one back. */
  lemma FailuresStep(env: Env, db: Db, e: Event, k: nat)
    requires Numbered(db) && k in Step(env, db, e).queries
    ensures Step(env, db, e).queries[k].failures ==
            if k !in db.queries then 0
            else db.queries[k].failures + if e.Run? && e.failed && e.scheduled == Some(k) then 1 else 0
  {
    QueriesAreNumbered(env, db, e);
  }

  /** In every run the counter of a query is the number of its failed scheduled runs. */
  lemma {:induction false} FailuresAreCounted(env: Env, events: seq<Event>, k: nat)
    ensures var db := After(env, events).db;
            if k in db.queries then db.queries[k].failures == FailedRuns(env, events, k)
            else FailedRuns(env, events, k) == 0
  {
    if events != [] {
      var front, e := events[..|events| - 1], events[|events| - 1];
      FailuresAreCounted(env, front, k);
      NumberedAlways(env, front);
      QueriesAreNumbered(env, After(env, front).db, e);
      if k in Step(env, After(env, front).db, e).queries {
        FailuresStep(env, After(env, front).db, e, k);
      }
    }
  }

  // ----- rows -----

  /** The step may delete the row: a cleanup of unreferenced rows of its age, or the deletion of its data source. */
  predicate MayDelete(db: Db, e: Event, id: nat)
    requires id in db.results
  {
    (e.Cleanup? && db.results[id].retrievedAt < e.threshold
     && forall k :: k in db.queries ==> db.queries[k].latest != Some(id))
    || (e.DeleteSource? && db.results[id].dataSource == e.source)
  }

  lemma RowStep(env: Env, db: Db, e: Event, id: nat)
    requires RowsInvariant(db) && id in db.results
    ensures var after := Step(env, db, e);
            if id in after.results then after.results[id] == db.results[id] else MayDelete(db, e, id)
  {
  }

  /**
   In every run a row stays as it was stored until it is deleted by a step that may: a
   cleanup of rows of its age while no query points at it, or the deletion of its source.
   */
  lemma {:induction false} RowsAreKept(env: Env, events: seq<Event>, i: nat, id: nat) returns (j: nat)
    requires i <= |events| && id in After(env, events[..i]).db.results
    ensures id < After(env, events).db.nextRow
    ensures var row := After(env, events[..i]).db.results[id];
            if id in After(env, events).db.results then After(env, events).db.results[id] == row
            else i <= j < |events| && id in After(env, events[..j]).db.results
                 && After(env, events[..j]).db.results[id] == row
                 && MayDelete(After(env, events[..j]).db, events[j], id)
    decreases |events|
  {
    j := i;
    if i == |events| {
      assert events[..i] == events;
      AlwaysInvariant(env, events);
    } else {
      var n := |events| - 1;
      var front := events[..n];
      assert front[..i] == events[..i];
      j := RowsAreKept(env, front, i, id);
      assert front + [events[n]] == events;
      if id in After(env, front).db.results {
        RowNext(env, front, events[n], id);
        j := n;
      } else {
        assert front[..j] == events[..j];
        GoneForGood(env, front, events[n], id);
      }
    }
  }

  lemma RowNext(env: Env, front: seq<Event>, e: Event, id: nat)
    requires id in After(env, front).db.results
    ensures var db, after := After(env, front).db, After(env, front + [e]).db;
            id < after.nextRow
            && if id in after.results then after.results[id] == db.results[id] else MayDelete(db, e, id)
  {
    assert (front + [e])[..|front|] == front;
    AlwaysInvariant(env, front);
    RowStep(env, After(env, front).db, e, id);
  }

  /** Row numbers are never used again. */
  lemma GoneForGood(env: Env, events: seq<Event>, e: Event, id: nat)
    requires id < After(env, events).db.nextRow && id !in After(env, events).db.results
    ensures id < After(env, events + [e]).db.nextRow
    ensures id !in After(env, events + [e]).db.results
  {
    assert (events + [e])[..|events|] == events;
  }

  // ----- which queries can be trusted -----

  /** The edit keeps hash and data source, or comes before any result. */
  predicate IsHarmless(env: Env, db: Db, e: Event) {
    e.Edit? && e.id in db.queries ==>
      var q := db.queries[e.id];
      q.latest.None? || (HashOf(env, e.text, e.limit, e.dataSource) == q.hash && e.dataSource == q.dataSource)
  }

  /** In a run without other edits all queries, forks included, can be trusted. */
  lemma {:induction false} AllTrusted(env: Env, events: seq<Event>)
    requires forall i :: 0 <= i < |events| ==> IsHarmless(env, After(env, events[..i]).db, events[i])
    ensures After(env, events).synced == After(env, events).db.queries.Keys
  {
    if events != [] {
      var n := |events| - 1;
      var front, e := events[..n], events[n];
      forall i | 0 <= i < n
        ensures IsHarmless(env, After(env, front[..i]).db, front[i])
      {
        assert front[..i] == events[..i];
      }
      AllTrusted(env, front);
      TrustStep(env, After(env, front).db, e);
    }
  }

  lemma TrustStep(env: Env, db: Db, e: Event)
    requires IsHarmless(env, db, e)
    ensures Track(env, db, db.queries.Keys, e) == Step(env, db, e).queries.Keys
  {
    if e.Edit? && e.id in db.queries {
      EditExactly(env, db, e.id, e.text, e.limit, e.dataSource);
    }
  }

  /** A successful run restores the trust in every query it repoints, and no step but an edit takes any away. */
  lemma TrustRestored(env: Env, events: seq<Event>, e: Event, k: nat)
    requires k in After(env, events).db.queries
    ensures var t, after := After(env, events), After(env, events + [e]);
            (e.Run? && !e.failed && Matches(t.db.queries[k], env.digest(CacheKey.NormalForm(e.text)), e.source) ==>
               k in after.synced)
            && (k in t.synced && !(e.Edit? && e.id == k) ==> k in after.synced)
  {
    assert (events + [e])[..|events|] == events;
  }
}
