/**
 Which queries a scheduler tick runs (`Query.outdated_queries`).
 */
module QuerySelection {
  import opened Text
  import opened Schedule

  datatype Field<+T> = Missing | Present(value: T)

  datatype Until = NoEnd | EndsAt(day: Instant) | NotADate

  /** The stored schedule: looking up a missing field raises, like every malformed value. */
  datatype Stored = Stored(
    disabled: bool, until: Field<Until>, interval: Field<Interval>, clock: Field<Clock>, day: Field<Day>)

  datatype Query = Query(
    id: nat, hash: string, dataSource: Option<nat>, schedule: Option<Stored>, failures: nat,
    retrievedAt: Option<Instant>)

  datatype Verdict = Ignored | NotDue | DueNow | Malformed

  /** `executions` is the cache of execution times, which takes precedence over the latest result. */
  function LastRun(q: Query, now: Instant, executions: map<nat, Instant>): Instant {
    if q.id in executions then executions[q.id] else if q.retrievedAt.Some? then q.retrievedAt.value else now
  }

  function Judge(q: Query, now: Instant, executions: map<nat, Instant>): Verdict {
    if q.schedule.None? || q.schedule.value.disabled then Ignored
    else
      var s := q.schedule.value;
      if s.until.Missing? then Malformed
      else if s.until.value.NotADate? then Malformed
      else if s.until.value.EndsAt? && s.until.value.day <= now then Ignored
      else if s.interval.Missing? || s.clock.Missing? || s.day.Missing? then Malformed
      else
        var plan := Plan(s.interval.value, s.clock.value, s.day.value);
        match ShouldScheduleNext(LastRun(q, now, executions), now, plan, q.failures)
        case Failure(_) => Malformed
        case Success(due) => if due then DueNow else NotDue
  }

  function SourceText(dataSource: Option<nat>): string {
    if dataSource.Some? then Decimal(dataSource.value) else "None"
  }

  /** `"{}:{}".format(query.query_hash, query.data_source_id)`. */
  function Key(q: Query): string {
    q.hash + ":" + SourceText(q.dataSource)
  }

  /** The key names the hash and the data source without ambiguity. */
  lemma KeyIsPair(p: Query, q: Query)
    ensures Key(p) == Key(q) <==> p.hash == q.hash && p.dataSource == q.dataSource
  {
    if Key(p) == Key(q) {
      var k, s, t := Key(p), SourceText(p.dataSource), SourceText(q.dataSource);
      SourceTextPlain(p.dataSource);
      SourceTextPlain(q.dataSource);
      assert k[|p.hash|] == ':' && k[|q.hash|] == ':';
      assert forall i :: |p.hash| < i < |k| ==> k[i] == s[i - |p.hash| - 1];
      assert forall i :: |q.hash| < i < |k| ==> k[i] == t[i - |q.hash| - 1];
      assert |p.hash| == |q.hash|;
      assert p.hash == k[..|p.hash|] && q.hash == k[..|p.hash|];
      assert s == k[|p.hash| + 1..] && t == k[|p.hash| + 1..];
      if p.dataSource.Some? && q.dataSource.Some? {
        DecimalReadsBack(p.dataSource.value);
        DecimalReadsBack(q.dataSource.value);
      }
    }
  }

  lemma SourceTextPlain(dataSource: Option<nat>)
    ensures forall i :: 0 <= i < |SourceText(dataSource)| ==> SourceText(dataSource)[i] != ':'
    ensures if dataSource.Some? then IsDigit(SourceText(dataSource)[0]) else SourceText(dataSource)[0] == 'N'
  {
  }

  // ----- what is selected -----

  /** Assigning to a dictionary: an existing key keeps its place, a new one goes last. */
  function Assign(list: seq<Query>, q: Query): (r: seq<Query>)
    ensures |list| <= |r| <= |list| + 1
  {
    if list == [] then [q]
    else if Key(list[0]) == Key(q) then [q] + list[1..]
    else [list[0]] + Assign(list[1..], q)
  }

  function Selected(queries: seq<Query>, now: Instant, executions: map<nat, Instant>): seq<Query> {
    if queries == [] then []
    else
      var before := Selected(queries[..|queries| - 1], now, executions);
      var q := queries[|queries| - 1];
      if Judge(q, now, executions) == DueNow then Assign(before, q) else before
  }

  function Disable(q: Query): Query {
    if q.schedule.Some? then q.(schedule := Some(q.schedule.value.(disabled := true))) else q
  }

  function Settled(q: Query, now: Instant, executions: map<nat, Instant>): Query {
    if Judge(q, now, executions) == Malformed then Disable(q) else q
  }

  predicate OrderedById(queries: seq<Query>) {
    forall i, j :: 0 <= i < j < |queries| ==> queries[i].id < queries[j].id
  }

  /** No due query with the same hash and data source has a greater id. */
  predicate LatestOfItsKind(q: Query, queries: seq<Query>, now: Instant, executions: map<nat, Instant>) {
    q in queries && Judge(q, now, executions) == DueNow
    && forall p :: p in queries && Judge(p, now, executions) == DueNow && p.hash == q.hash
                   && p.dataSource == q.dataSource
                   ==> p.id <= q.id
  }

  predicate DistinctKeys(list: seq<Query>) {
    forall i, j :: 0 <= i < j < |list| ==> Key(list[i]) != Key(list[j])
  }

  lemma {:induction false} AssignMembers(list: seq<Query>, q: Query, p: Query)
    requires DistinctKeys(list)
    ensures DistinctKeys(Assign(list, q))
    ensures p in Assign(list, q) <==> p == q || (p in list && Key(p) != Key(q))
  {
    if list != [] {
      assert p in list <==> p == list[0] || p in list[1..];
      if Key(list[0]) == Key(q) {
        assert [q] + list[1..] == list[0 := q];
        assert p in list[0 := q] <==> p == q || p in list[1..];
        if p in list[1..] {
          var i :| 1 <= i < |list| && list[i] == p;
          assert Key(list[0]) != Key(list[i]);
        }
      } else {
        AssignMembers(list[1..], q, p);
        AssignDistinct(list, q);
      }
    }
  }

  lemma {:induction false} AssignKeys(list: seq<Query>, q: Query, key: string)
    requires key != Key(q) && forall i :: 0 <= i < |list| ==> Key(list[i]) != key
    ensures forall i :: 0 <= i < |Assign(list, q)| ==> Key(Assign(list, q)[i]) != key
  {
    if list != [] && Key(list[0]) != Key(q) {
      AssignKeys(list[1..], q, key);
    }
  }

  lemma AssignDistinct(list: seq<Query>, q: Query)
    requires list != [] && DistinctKeys(list) && Key(list[0]) != Key(q) && DistinctKeys(Assign(list[1..], q))
    ensures DistinctKeys(Assign(list, q))
  {
    AssignKeys(list[1..], q, Key(list[0]));
    var r := Assign(list, q);
    assert forall i :: 1 <= i < |r| ==> r[i] == Assign(list[1..], q)[i - 1];
  }

  lemma {:induction false} SelectedDistinct(queries: seq<Query>, now: Instant, executions: map<nat, Instant>)
    ensures DistinctKeys(Selected(queries, now, executions))
  {
    if queries != [] {
      var front, q := queries[..|queries| - 1], queries[|queries| - 1];
      SelectedDistinct(front, now, executions);
      AssignMembers(Selected(front, now, executions), q, q);
    }
  }

  /** Of each (hash, data source) pair exactly the due query of greatest id is selected. */
  lemma {:induction false} SelectedAreLatest(queries: seq<Query>, now: Instant, executions: map<nat, Instant>, q: Query)
    requires OrderedById(queries)
    ensures q in Selected(queries, now, executions) <==> LatestOfItsKind(q, queries, now, executions)
  {
    if queries != [] {
      var n := |queries| - 1;
      var front, last := queries[..n], queries[n];
      assert queries == front + [last];
      SelectedAreLatest(front, now, executions, q);
      SelectedDistinct(front, now, executions);
      AssignMembers(Selected(front, now, executions), last, q);
      KeyIsPair(q, last);
      LatestStep(front, last, now, executions, q);
    }
  }

  lemma LatestStep(front: seq<Query>, last: Query, now: Instant, executions: map<nat, Instant>, q: Query)
    requires OrderedById(front + [last])
    ensures LatestOfItsKind(q, front + [last], now, executions) <==>
            if Judge(last, now, executions) != DueNow then LatestOfItsKind(q, front, now, executions)
            else q == last
                 || (LatestOfItsKind(q, front, now, executions)
                    && !(q.hash == last.hash && q.dataSource == last.dataSource))
  {
    var all := front + [last];
    assert forall p :: p in all <==> p in front || p == last;
    forall p | p in front
      ensures p.id < last.id
    {
      var i :| 0 <= i < |front| && front[i] == p;
      assert all[i] == p && all[|front|] == last;
    }
  }

  /** Queries that are not due, malformed ones included, have no influence on the selection. */
  lemma {:induction false} NotDueIsIrrelevant(
    a: seq<Query>, q: Query, b: seq<Query>, now: Instant, executions: map<nat, Instant>)
    requires Judge(q, now, executions) != DueNow
    ensures Selected(a + [q] + b, now, executions) == Selected(a + b, now, executions)
  {
    var all := a + [q] + b;
    if b == [] {
      assert all[..|all| - 1] == a && a + b == a;
    } else {
      var front, last := b[..|b| - 1], b[|b| - 1];
      NotDueIsIrrelevant(a, q, front, now, executions);
      assert all[..|all| - 1] == a + [q] + front && (a + b)[..|a + b| - 1] == a + front;
      assert all[|all| - 1] == last && (a + b)[|a + b| - 1] == last;
    }
  }

  /** A disabled query is ignored from then on, so a tick settles its malformed queries for good. */
  lemma SettledIsNeverMalformed(
    q: Query, now: Instant, later: Instant, executions: map<nat, Instant>, laterExecutions: map<nat, Instant>)
    requires Judge(q, now, executions) == Malformed
    ensures Judge(Settled(q, now, executions), later, laterExecutions) == Ignored
    ensures Key(Settled(q, now, executions)) == Key(q) && Settled(q, now, executions).id == q.id
  {
  }

  // ----- runs of ticks -----

  datatype Tick = Tick(now: Instant, executions: map<nat, Instant>)

  function SettleAll(queries: seq<Query>, tick: Tick): (r: seq<Query>)
    ensures |r| == |queries|
    ensures forall i :: 0 <= i < |r| ==> r[i] == Settled(queries[i], tick.now, tick.executions)
  {
    if queries == [] then []
    else SettleAll(queries[..|queries| - 1], tick) + [Settled(queries[|queries| - 1], tick.now, tick.executions)]
  }

  /** The table after a series of ticks in which nothing else changes it. */
  function TableAfter(queries: seq<Query>, ticks: seq<Tick>): (r: seq<Query>)
    ensures |r| == |queries|
  {
    if ticks == [] then queries else SettleAll(TableAfter(queries, ticks[..|ticks| - 1]), ticks[|ticks| - 1])
  }

  /** The queries a tick does not find malformed. */
  function WellFormed(queries: seq<Query>, tick: Tick): seq<Query> {
    if queries == [] then []
    else
      var q := queries[|queries| - 1];
      WellFormed(queries[..|queries| - 1], tick) + if Judge(q, tick.now, tick.executions) == Malformed then [] else [q]
  }

  /** Later ticks select as if the queries an earlier tick found malformed did not exist. */
  lemma {:induction false} MalformedDropsOut(queries: seq<Query>, tick: Tick, later: Tick)
    ensures Selected(SettleAll(queries, tick), later.now, later.executions) ==
            Selected(WellFormed(queries, tick), later.now, later.executions)
  {
    if queries != [] {
      var front, q := queries[..|queries| - 1], queries[|queries| - 1];
      MalformedDropsOut(front, tick, later);
      SelectedSnoc(SettleAll(front, tick), Settled(q, tick.now, tick.executions), later);
      if Judge(q, tick.now, tick.executions) == Malformed {
        SettledIsNeverMalformed(q, tick.now, later.now, tick.executions, later.executions);
        assert WellFormed(queries, tick) == WellFormed(front, tick);
      } else {
        SelectedSnoc(WellFormed(front, tick), q, later);
      }
    }
  }

  lemma SelectedSnoc(front: seq<Query>, q: Query, tick: Tick)
    ensures Selected(front + [q], tick.now, tick.executions) ==
            var before := Selected(front, tick.now, tick.executions);
            if Judge(q, tick.now, tick.executions) == DueNow then Assign(before, q) else before
  {
    assert (front + [q])[..|front|] == front;
  }

  /**
   A schedule without an `until` entry, such as the column's own default, never runs: the
   first tick that finds it enabled disables it, and no tick selects it.
   */
  lemma {:induction false} NoUntilNeverRuns(queries: seq<Query>, ticks: seq<Tick>, i: nat, later: Tick)
    requires i < |queries| && queries[i].schedule.Some? && queries[i].schedule.value.until.Missing?
    ensures TableAfter(queries, ticks)[i] == if ticks == [] then queries[i] else Disable(queries[i])
    ensures TableAfter(queries, ticks)[i] !in Selected(TableAfter(queries, ticks), later.now, later.executions)
  {
    if ticks != [] {
      NoUntilNeverRuns(queries, ticks[..|ticks| - 1], i, later);
    }
    SelectedAreDue(TableAfter(queries, ticks), later);
  }

  lemma {:induction false} SelectedAreDue(queries: seq<Query>, tick: Tick)
    ensures forall q :: q in Selected(queries, tick.now, tick.executions) ==>
                          q in queries && Judge(q, tick.now, tick.executions) == DueNow
  {
    if queries != [] {
      var front, last := queries[..|queries| - 1], queries[|queries| - 1];
      SelectedAreDue(front, tick);
      SelectedDistinct(front, tick.now, tick.executions);
      forall q | q in Selected(queries, tick.now, tick.executions)
        ensures q in queries && Judge(q, tick.now, tick.executions) == DueNow
      {
        AssignMembers(Selected(front, tick.now, tick.executions), last, q);
      }
    }
  }

  /** Every due query is represented by a selected one with its hash and data source. */
  lemma {:induction false} DueIsRepresented(queries: seq<Query>, tick: Tick, q: Query) returns (p: Query)
    requires q in queries && Judge(q, tick.now, tick.executions) == DueNow
    ensures p in Selected(queries, tick.now, tick.executions) && p.hash == q.hash && p.dataSource == q.dataSource
  {
    var front, last := queries[..|queries| - 1], queries[|queries| - 1];
    var before := Selected(front, tick.now, tick.executions);
    assert queries == front + [last];
    SelectedDistinct(front, tick.now, tick.executions);
    if q == last {
      p := last;
    } else {
      p := DueIsRepresented(front, tick, q);
      if Judge(last, tick.now, tick.executions) == DueNow && Key(last) == Key(p) {
        p := last;
      }
    }
    KeyIsPair(p, last);
    KeyIsPair(q, last);
    AssignMembers(before, last, p);
  }

  // ----- the program -----

  class QueryTable {
    /** The rows in the order of their ids. */
    var queries: seq<Query>

    constructor (rows: seq<Query>)
      ensures queries == rows
    {
      queries := rows;
    }

    method OutdatedQueries(now: Instant, executions: map<nat, Instant>) returns (outdated: seq<Query>)
      modifies this
      ensures outdated == Selected(old(queries), now, executions)
      ensures |queries| == |old(queries)|
      ensures forall i :: 0 <= i < |queries| ==> queries[i] == Settled(old(queries[i]), now, executions)
    {
      outdated := [];
      for i := 0 to |queries|
        invariant |queries| == |old(queries)|
        invariant outdated == Selected(old(queries)[..i], now, executions)
        invariant forall j :: 0 <= j < i ==> queries[j] == Settled(old(queries)[j], now, executions)
        invariant forall j :: i <= j < |queries| ==> queries[j] == old(queries)[j]
      {
        var query := queries[i];
        assert old(queries)[..i + 1][..i] == old(queries)[..i];
        match Judge(query, now, executions)
        case DueNow =>
          outdated := Put(outdated, query);
        case Malformed =>
          queries := queries[i := Disable(query)];
        case Ignored =>
        case NotDue =>
      }
      assert old(queries)[..|queries|] == old(queries);
    }
  }

  lemma {:induction false} AssignAt(list: seq<Query>, q: Query, i: nat)
    requires i <= |list| && forall j :: 0 <= j < i ==> Key(list[j]) != Key(q)
    ensures i == |list| ==> Assign(list, q) == list + [q]
    ensures i < |list| && Key(list[i]) == Key(q) ==> Assign(list, q) == list[i := q]
  {
    if i > 0 {
      assert forall j :: 0 <= j < i - 1 ==> list[1..][j] == list[j + 1];
      AssignAt(list[1..], q, i - 1);
    }
  }

  method Put(list: seq<Query>, q: Query) returns (r: seq<Query>)
    ensures r == Assign(list, q)
  {
    for i := 0 to |list|
      invariant forall j :: 0 <= j < i ==> Key(list[j]) != Key(q)
    {
      if Key(list[i]) == Key(q) {
        AssignAt(list, q, i);
        return list[i := q];
      }
    }
    AssignAt(list, q, |list|);
    r := list + [q];
  }
}
