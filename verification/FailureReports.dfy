/**
 Failed runs of scheduled queries: counting and queueing them (`track_query_error`) and
 the aggregated report sent from the queue (`_send_failure_report`).
 */
module FailureReports {
  import opened Text

  datatype Failed = Failed(id: nat, name: string, message: string, failures: nat, failedAt: string)

  type Key = (nat, string)

  function KeyOf(e: Failed): Key { (e.id, e.message) }

  // ----- the report -----

  function Reversed<T>(s: seq<T>): (r: seq<T>)
    ensures |r| == |s| && forall i :: 0 <= i < |s| ==> r[i] == s[|s| - 1 - i]
  {
    if s == [] then [] else Reversed(s[1..]) + [s[0]]
  }

  /** `Counter` applied to the keys. */
  function Occurrences(errors: seq<Failed>, key: Key): nat {
    if errors == [] then 0
    else Occurrences(errors[..|errors| - 1], key) + if KeyOf(errors[|errors| - 1]) == key then 1 else 0
  }

  /** Assigning to a dictionary: an existing key keeps its place and gets the new value. */
  function Assign(unique: seq<Failed>, e: Failed): seq<Failed> {
    if unique == [] then [e]
    else if KeyOf(unique[0]) == KeyOf(e) then [e] + unique[1..]
    else [unique[0]] + Assign(unique[1..], e)
  }

  /** The dict comprehension over the errors, oldest first. */
  function Unique(errors: seq<Failed>): seq<Failed> {
    if errors == [] then [] else Assign(Unique(errors[..|errors| - 1]), errors[|errors| - 1])
  }

  datatype Entry = Entry(error: Failed, count: nat)

  function WithCounts(unique: seq<Failed>, errors: seq<Failed>): (r: seq<Entry>)
    ensures |r| == |unique|
    ensures forall i :: 0 <= i < |r| ==> r[i] == Entry(unique[i], Occurrences(errors, KeyOf(unique[i])))
  {
    if unique == [] then []
    else [Entry(unique[0], Occurrences(errors, KeyOf(unique[0])))] + WithCounts(unique[1..], errors)
  }

  /** The queue is filled at the front, so it is read backwards. */
  function Report(queue: seq<Failed>): seq<Entry> {
    WithCounts(Unique(Reversed(queue)), Reversed(queue))
  }

  function Total(entries: seq<Entry>): nat {
    if entries == [] then 0 else entries[0].count + Total(entries[1..])
  }

  predicate DistinctKeys(unique: seq<Failed>) {
    forall i, j :: 0 <= i < j < |unique| ==> KeyOf(unique[i]) != KeyOf(unique[j])
  }

  /** The first and the last position of a key; the length when it does not occur. */
  function FirstIndex(errors: seq<Failed>, key: Key): (n: nat)
    ensures n <= |errors|
  {
    if errors == [] || KeyOf(errors[0]) == key then 0 else 1 + FirstIndex(errors[1..], key)
  }

  predicate IsNewest(errors: seq<Failed>, e: Failed) {
    exists i :: 0 <= i < |errors| && errors[i] == e && forall j :: i < j < |errors| ==> KeyOf(errors[j]) != KeyOf(e)
  }

  ghost predicate Covers(unique: seq<Failed>, errors: seq<Failed>) {
    forall e :: e in errors ==> exists u :: u in unique && KeyOf(u) == KeyOf(e)
  }

  /** In order of first failure, with the newest occurrence of each key. */
  ghost predicate Summarizes(unique: seq<Failed>, errors: seq<Failed>) {
    DistinctKeys(unique)
    && (forall i, j :: 0 <= i < j < |unique| ==>
                         FirstIndex(errors, KeyOf(unique[i])) < FirstIndex(errors, KeyOf(unique[j])))
    && (forall u :: u in unique ==> IsNewest(errors, u))
    && Covers(unique, errors)
  }

  /** `r` is `unique` after assigning `e` at position `at`. */
  predicate Assigned(unique: seq<Failed>, e: Failed, at: nat, r: seq<Failed>) {
    at <= |unique| && (forall i :: 0 <= i < |unique| && i != at ==> KeyOf(unique[i]) != KeyOf(e))
    && if at == |unique| then r == unique + [e] else KeyOf(unique[at]) == KeyOf(e) && r == unique[at := e]
  }

  lemma {:induction false} AssignShape(unique: seq<Failed>, e: Failed) returns (at: nat)
    requires DistinctKeys(unique)
    ensures Assigned(unique, e, at, Assign(unique, e))
  {
    if unique == [] || KeyOf(unique[0]) == KeyOf(e) {
      at := 0;
    } else {
      at := AssignShape(unique[1..], e);
      at := at + 1;
    }
  }

  lemma {:induction false} FirstIndexSnoc(errors: seq<Failed>, e: Failed, key: Key)
    ensures FirstIndex(errors + [e], key) ==
            if FirstIndex(errors, key) < |errors| || KeyOf(e) == key then FirstIndex(errors, key) else |errors| + 1
  {
    if errors != [] {
      FirstIndexSnoc(errors[1..], e, key);
      assert (errors + [e])[1..] == errors[1..] + [e];
    }
  }

  lemma {:induction false} FirstIndexOf(errors: seq<Failed>, key: Key)
    ensures FirstIndex(errors, key) < |errors| <==> exists i :: 0 <= i < |errors| && KeyOf(errors[i]) == key
  {
    if errors != [] && KeyOf(errors[0]) != key {
      FirstIndexOf(errors[1..], key);
      if i :| 0 <= i < |errors| && KeyOf(errors[i]) == key {
        assert KeyOf(errors[1..][i - 1]) == key;
      }
    }
  }

  lemma NewestSnoc(errors: seq<Failed>, e: Failed, u: Failed)
    ensures IsNewest(errors + [e], u) <==> u == e || (KeyOf(u) != KeyOf(e) && IsNewest(errors, u))
  {
    var all := errors + [e];
    if IsNewest(errors, u) && KeyOf(u) != KeyOf(e) {
      var i :| 0 <= i < |errors| && errors[i] == u && forall j :: i < j < |errors| ==> KeyOf(errors[j]) != KeyOf(u);
      assert all[i] == u;
    }
    if IsNewest(all, u) && u != e {
      var i :| 0 <= i < |all| && all[i] == u && forall j :: i < j < |all| ==> KeyOf(all[j]) != KeyOf(u);
      assert KeyOf(all[|errors|]) == KeyOf(e);
      assert errors[i] == u && forall j :: i < j < |errors| ==> errors[j] == all[j];
    }
    assert all[|errors|] == e;
  }

  lemma {:induction false} UniqueSummarizes(errors: seq<Failed>)
    ensures Summarizes(Unique(errors), errors)
  {
    if errors != [] {
      var front, e := errors[..|errors| - 1], errors[|errors| - 1];
      assert errors == front + [e];
      UniqueSummarizes(front);
      SummaryStep(Unique(front), front, e);
    }
  }

  lemma SummaryStep(unique: seq<Failed>, front: seq<Failed>, e: Failed)
    requires Summarizes(unique, front)
    ensures Summarizes(Assign(unique, e), front + [e])
  {
    var at := AssignShape(unique, e);
    var r := Assign(unique, e);
    KeysKeepOrder(unique, front, e, at);
    ValuesStayNewest(unique, front, e, at);
    AllStayCovered(unique, front, e, at);
    assert DistinctKeys(r) by {
      assert forall i :: 0 <= i < |unique| ==> KeyOf(r[i]) == KeyOf(unique[i]);
    }
  }

  lemma KeysKeepOrder(unique: seq<Failed>, front: seq<Failed>, e: Failed, at: nat)
    requires Summarizes(unique, front) && Assigned(unique, e, at, Assign(unique, e))
    ensures var r := Assign(unique, e);
            forall i, j :: 0 <= i < j < |r| ==>
              FirstIndex(front + [e], KeyOf(r[i])) < FirstIndex(front + [e], KeyOf(r[j]))
  {
    var r := Assign(unique, e);
    forall i | 0 <= i < |unique|
      ensures KeyOf(r[i]) == KeyOf(unique[i]) && FirstIndex(front, KeyOf(unique[i])) < |front|
      ensures FirstIndex(front + [e], KeyOf(r[i])) == FirstIndex(front, KeyOf(unique[i]))
    {
      KeyStaysFirst(unique, front, e, i);
    }
    if at == |unique| {
      NewKeyIsLast(unique, front, e);
    }
  }

  lemma KeyStaysFirst(unique: seq<Failed>, front: seq<Failed>, e: Failed, i: nat)
    requires Summarizes(unique, front) && i < |unique|
    ensures FirstIndex(front, KeyOf(unique[i])) < |front|
    ensures FirstIndex(front + [e], KeyOf(unique[i])) == FirstIndex(front, KeyOf(unique[i]))
  {
    assert unique[i] in unique && IsNewest(front, unique[i]);
    FirstIndexOf(front, KeyOf(unique[i]));
    FirstIndexSnoc(front, e, KeyOf(unique[i]));
  }

  lemma NewKeyIsLast(unique: seq<Failed>, front: seq<Failed>, e: Failed)
    requires Summarizes(unique, front) && forall u :: u in unique ==> KeyOf(u) != KeyOf(e)
    ensures FirstIndex(front + [e], KeyOf(e)) == |front|
  {
    FirstIndexOf(front, KeyOf(e));
    assert forall i :: 0 <= i < |front| ==> front[i] in front;
    FirstIndexSnoc(front, e, KeyOf(e));
  }

  lemma ValuesStayNewest(unique: seq<Failed>, front: seq<Failed>, e: Failed, at: nat)
    requires Summarizes(unique, front) && Assigned(unique, e, at, Assign(unique, e))
    ensures forall u :: u in Assign(unique, e) ==> IsNewest(front + [e], u)
  {
    var r := Assign(unique, e);
    forall u | u in r
      ensures IsNewest(front + [e], u)
    {
      NewestSnoc(front, e, u);
      var i :| 0 <= i < |r| && r[i] == u;
      assert i != at ==> u == unique[i] && u in unique;
    }
  }

  lemma AllStayCovered(unique: seq<Failed>, front: seq<Failed>, e: Failed, at: nat)
    requires Summarizes(unique, front) && Assigned(unique, e, at, Assign(unique, e))
    ensures forall x :: x in front + [e] ==> exists u :: u in Assign(unique, e) && KeyOf(u) == KeyOf(x)
  {
    var r := Assign(unique, e);
    forall x | x in front + [e]
      ensures exists u :: u in r && KeyOf(u) == KeyOf(x)
    {
      assert r[at] == e && e in r;
      if KeyOf(x) != KeyOf(e) {
        assert x in front;
        var u :| u in unique && KeyOf(u) == KeyOf(x);
        var i :| 0 <= i < |unique| && unique[i] == u;
        assert r[i] == u;
      }
    }
  }

  lemma {:induction false} TotalSnoc(unique: seq<Failed>, front: seq<Failed>, e: Failed)
    requires DistinctKeys(unique)
    ensures Total(WithCounts(unique, front + [e])) ==
            Total(WithCounts(unique, front)) + if exists u :: u in unique && KeyOf(u) == KeyOf(e) then 1 else 0
  {
    if unique != [] {
      TotalSnoc(unique[1..], front, e);
      assert (front + [e])[..|front|] == front;
      assert WithCounts(unique, front + [e])[1..] == WithCounts(unique[1..], front + [e]);
      assert WithCounts(unique, front)[1..] == WithCounts(unique[1..], front);
      assert unique[0] in unique && forall u :: u in unique <==> u == unique[0] || u in unique[1..];
    }
  }

  lemma {:induction false} TotalAppend(a: seq<Entry>, x: Entry)
    ensures Total(a + [x]) == Total(a) + x.count
  {
    if a != [] {
      TotalAppend(a[1..], x);
      assert (a + [x])[1..] == a[1..] + [x];
    }
  }

  lemma {:induction false} TotalSameCounts(a: seq<Entry>, b: seq<Entry>)
    requires |a| == |b| && forall i :: 0 <= i < |a| ==> a[i].count == b[i].count
    ensures Total(a) == Total(b)
  {
    if a != [] {
      TotalSameCounts(a[1..], b[1..]);
    }
  }

  lemma {:induction false} CountsAddUp(errors: seq<Failed>)
    ensures Total(WithCounts(Unique(errors), errors)) == |errors|
  {
    if errors != [] {
      var front, e := errors[..|errors| - 1], errors[|errors| - 1];
      assert errors == front + [e];
      CountsAddUp(front);
      UniqueSummarizes(front);
      CountsStep(Unique(front), front, e);
    }
  }

  lemma CountsStep(unique: seq<Failed>, front: seq<Failed>, e: Failed)
    requires DistinctKeys(unique) && Covers(unique, front) && Total(WithCounts(unique, front)) == |front|
    ensures Total(WithCounts(Assign(unique, e), front + [e])) == |front| + 1
  {
    TotalSnoc(unique, front, e);
    var at := AssignShape(unique, e);
    if at == |unique| {
      NewKey(unique, front, e);
      CountsOfNew(unique, front, e);
    } else {
      assert unique[at] in unique;
      CountsOfKnown(unique, front + [e], e, at);
    }
  }

  lemma NewKey(unique: seq<Failed>, front: seq<Failed>, e: Failed)
    requires Covers(unique, front) && forall i :: 0 <= i < |unique| ==> KeyOf(unique[i]) != KeyOf(e)
    ensures forall u :: u in unique ==> KeyOf(u) != KeyOf(e)
    ensures forall x :: x in front ==> KeyOf(x) != KeyOf(e)
  {
  }

  lemma CountsOfKnown(unique: seq<Failed>, errors: seq<Failed>, e: Failed, at: nat)
    requires at < |unique| && KeyOf(unique[at]) == KeyOf(e)
    ensures Total(WithCounts(unique[at := e], errors)) == Total(WithCounts(unique, errors))
  {
    TotalSameCounts(WithCounts(unique[at := e], errors), WithCounts(unique, errors));
  }

  lemma CountsOfNew(unique: seq<Failed>, front: seq<Failed>, e: Failed)
    requires forall x :: x in front ==> KeyOf(x) != KeyOf(e)
    ensures Total(WithCounts(unique + [e], front + [e])) == Total(WithCounts(unique, front + [e])) + 1
  {
    var errors, entry := front + [e], Entry(e, Occurrences(front + [e], KeyOf(e)));
    assert WithCounts(unique + [e], errors) == WithCounts(unique, errors) + [entry];
    TotalAppend(WithCounts(unique, errors), entry);
    NoOccurrence(front, KeyOf(e));
    assert errors[..|front|] == front;
  }

  lemma {:induction false} NoOccurrence(errors: seq<Failed>, key: Key)
    ensures Occurrences(errors, key) == 0 <==> forall e :: e in errors ==> KeyOf(e) != key
  {
    if errors != [] {
      var front, last := errors[..|errors| - 1], errors[|errors| - 1];
      NoOccurrence(front, key);
      assert forall e :: e in errors <==> e in front || e == last;
    }
  }

  /**
   A report conserves the queue: its counts add up to the number of queued messages, and
   it has one entry per query and message, in order of first failure, showing the newest.
   */
  lemma ReportConserves(queue: seq<Failed>)
    ensures Total(Report(queue)) == |queue|
    ensures Summarizes(Unique(Reversed(queue)), Reversed(queue))
    ensures |Report(queue)| == |Unique(Reversed(queue))|
    ensures forall i :: 0 <= i < |Report(queue)| ==>
                          Report(queue)[i].error == Unique(Reversed(queue))[i] && Report(queue)[i].count > 0
  {
    var errors := Reversed(queue);
    CountsAddUp(errors);
    UniqueSummarizes(errors);
    forall i | 0 <= i < |Report(queue)|
      ensures Report(queue)[i].count > 0
    {
      var u := Unique(errors)[i];
      assert u in Unique(errors) && IsNewest(errors, u);
      NoOccurrence(errors, KeyOf(u));
    }
  }

  /** The queued messages that say the same about the same query. */
  function Alike(queue: seq<Failed>, e: Failed): seq<Failed> {
    Filter((f: Failed) => f.id == e.id && f.message == e.message, queue)
  }

  lemma {:induction false} OccurrencesAre(errors: seq<Failed>, e: Failed)
    ensures Occurrences(errors, KeyOf(e)) == |Alike(errors, e)|
  {
    if errors != [] {
      var front, last := errors[..|errors| - 1], errors[|errors| - 1];
      assert errors == front + [last];
      OccurrencesAre(front, e);
      FilterConcat((f: Failed) => f.id == e.id && f.message == e.message, front, [last]);
      FilterOne((f: Failed) => f.id == e.id && f.message == e.message, last);
    }
  }

  lemma {:induction false} AlikeReversed(queue: seq<Failed>, e: Failed)
    ensures |Alike(Reversed(queue), e)| == |Alike(queue, e)|
  {
    if queue != [] {
      AlikeReversed(queue[1..], e);
      FilterConcat((f: Failed) => f.id == e.id && f.message == e.message, Reversed(queue[1..]), [queue[0]]);
      FilterOne((f: Failed) => f.id == e.id && f.message == e.message, queue[0]);
    }
  }

  /**
   Each entry shows the newest of the messages that say the same about the same query, the
   frontmost of the queue, and counts all of them; no two entries say the same, and every
   message is represented.
   */
  lemma ReportExactly(queue: seq<Failed>, i: nat)
    requires i < |Report(queue)|
    ensures var x := Report(queue)[i];
            x.count == |Alike(queue, x.error)| && Alike(queue, x.error) != [] && Alike(queue, x.error)[0] == x.error
            && (forall j :: 0 <= j < |Report(queue)| && j != i ==>
                              Report(queue)[j].error.id != x.error.id
                              || Report(queue)[j].error.message != x.error.message)
    ensures forall f :: f in queue ==>
                          exists x :: x in Report(queue) && x.error.id == f.id && x.error.message == f.message
  {
    var errors := Reversed(queue);
    var unique := Unique(errors);
    UniqueSummarizes(errors);
    OccurrencesAre(errors, unique[i]);
    AlikeReversed(queue, unique[i]);
    assert unique[i] in unique && IsNewest(errors, unique[i]);
    NewestIsFront(queue, unique[i]);
    DistinctMessages(unique, i);
    forall f | f in queue
      ensures exists x :: x in Report(queue) && x.error.id == f.id && x.error.message == f.message
    {
      Represented(queue, f);
    }
  }

  lemma DistinctMessages(unique: seq<Failed>, i: nat)
    requires DistinctKeys(unique) && i < |unique|
    ensures forall j :: 0 <= j < |unique| && j != i ==>
                          unique[j].id != unique[i].id || unique[j].message != unique[i].message
  {
    forall j | 0 <= j < |unique| && j != i
      ensures unique[j].id != unique[i].id || unique[j].message != unique[i].message
    {
      assert KeyOf(unique[j]) != KeyOf(unique[i]);
    }
  }

  lemma Represented(queue: seq<Failed>, f: Failed)
    requires f in queue
    ensures exists x :: x in Report(queue) && x.error.id == f.id && x.error.message == f.message
  {
    var errors := Reversed(queue);
    UniqueSummarizes(errors);
    var k :| 0 <= k < |queue| && queue[k] == f;
    assert errors[|queue| - 1 - k] == f;
    assert f in errors;
    var u :| u in Unique(errors) && KeyOf(u) == KeyOf(f);
    var i :| 0 <= i < |Unique(errors)| && Unique(errors)[i] == u;
    assert Report(queue)[i].error == u && Report(queue)[i] in Report(queue);
  }

  /** The last of the reversed queue is the first of the queue. */
  lemma {:induction false} NewestIsFront(queue: seq<Failed>, e: Failed)
    requires IsNewest(Reversed(queue), e)
    ensures Alike(queue, e) != [] && Alike(queue, e)[0] == e
  {
    var errors := Reversed(queue);
    var i :| 0 <= i < |errors| && errors[i] == e && forall j :: i < j < |errors| ==> KeyOf(errors[j]) != KeyOf(e);
    if KeyOf(queue[0]) == KeyOf(e) {
      assert errors[|queue| - 1] == queue[0];
      assert i == |queue| - 1;
    } else {
      assert errors == Reversed(queue[1..]) + [queue[0]];
      assert errors[|queue| - 1] == queue[0] && i < |queue| - 1;
      assert forall j :: 0 <= j < |queue| - 1 ==> Reversed(queue[1..])[j] == errors[j];
      NewestIsFront(queue[1..], e);
    }
  }

  // ----- tracking -----

  /** `wanted`: the organization reports failures and the owner is not disabled. */
  datatype Event = Track(id: nat, name: string, message: string, at: string, wanted: bool) | Send

  /** `pushed` and `reported` record, over the whole run, what went into the queue and into reports. */
  datatype Mail = Mail(failures: map<nat, nat>, queue: seq<Failed>, pushed: seq<Failed>, reported: nat)

  function FailuresOf(m: Mail, id: nat): nat {
    if id in m.failures then m.failures[id] else 0
  }

  function Next(max: nat, m: Mail, e: Event): Mail {
    match e
    case Track(id, name, message, at, wanted) =>
      var failures := FailuresOf(m, id) + 1;
      var counted := m.(failures := m.failures[id := failures]);
      if !wanted || failures >= max then counted
      else
        var data := Failed(id, name, message, failures, at);
        counted.(queue := [data] + m.queue, pushed := m.pushed + [data])
    case Send => m.(queue := [], reported := m.reported + Total(Report(m.queue)))
  }

  function After(max: nat, events: seq<Event>): Mail {
    if events == [] then Mail(map[], [], [], 0)
    else Next(max, After(max, events[..|events| - 1]), events[|events| - 1])
  }

  function PushedFor(pushed: seq<Failed>, id: nat): nat {
    if pushed == [] then 0 else PushedFor(pushed[..|pushed| - 1], id) + if pushed[|pushed| - 1].id == id then 1 else 0
  }

  /**
   Over any run one query queues at most MAX-1 messages, because its counter only grows;
   and every queued message is counted in exactly one report or still waiting.
   */
  lemma {:induction false} PushesAreBounded(max: nat, events: seq<Event>, id: nat)
    ensures var m := After(max, events);
            PushedFor(m.pushed, id) <= FailuresOf(m, id)
            && (PushedFor(m.pushed, id) == 0 || PushedFor(m.pushed, id) <= max - 1)
            && |m.pushed| == m.reported + |m.queue|
  {
    if events != [] {
      var before, e := After(max, events[..|events| - 1]), events[|events| - 1];
      PushesAreBounded(max, events[..|events| - 1], id);
      match e
      case Track(x, name, message, at, wanted) =>
        var after := Next(max, before, e);
        assert after.pushed != before.pushed ==> after.pushed[..|after.pushed| - 1] == before.pushed;
      case Send =>
        ReportConserves(before.queue);
    }
  }

  function TracksOf(events: seq<Event>, id: nat): nat {
    if events == [] then 0
    else
      var e := events[|events| - 1];
      TracksOf(events[..|events| - 1], id) + if e.Track? && e.id == id then 1 else 0
  }

  /** The counter counts every failure, and when all are wanted the first MAX-1 of them are queued. */
  lemma {:induction false} FirstFailuresAreQueued(max: nat, events: seq<Event>, id: nat)
    requires forall i :: 0 <= i < |events| && events[i].Track? && events[i].id == id ==> events[i].wanted
    ensures var m := After(max, events);
            FailuresOf(m, id) == TracksOf(events, id)
            && PushedFor(m.pushed, id) ==
               if max == 0 then 0 else if TracksOf(events, id) < max then TracksOf(events, id) else max - 1
  {
    if events != [] {
      var before, e := After(max, events[..|events| - 1]), events[|events| - 1];
      FirstFailuresAreQueued(max, events[..|events| - 1], id);
      var after := Next(max, before, e);
      assert after.pushed != before.pushed ==> after.pushed[..|after.pushed| - 1] == before.pushed;
    }
  }

  /** The message carries what the failure said, and the number of failures of its query up to then. */
  predicate Carries(f: Failed, e: Event, failures: nat) {
    e.Track? && f.id == e.id && f.name == e.name && f.message == e.message && f.failedAt == e.at
    && f.failures == failures
  }

  /**
   One more failure is counted, and queued in front with its own fields exactly when it is
   wanted and the count stays below the limit.
   */
  lemma TrackExactly(max: nat, events: seq<Event>, e: Event)
    requires e.Track?
    ensures var before, after := After(max, events), After(max, events + [e]);
            FailuresOf(after, e.id) == TracksOf(events, e.id) + 1
            && if e.wanted && TracksOf(events, e.id) + 1 < max
               then |after.queue| == |before.queue| + 1 && after.queue[1..] == before.queue
                    && Carries(after.queue[0], e, TracksOf(events, e.id) + 1)
               else after.queue == before.queue
  {
    assert (events + [e])[..|events|] == events;
    FailuresAreTracks(max, events, e.id);
  }

  lemma {:induction false} FailuresAreTracks(max: nat, events: seq<Event>, id: nat)
    ensures FailuresOf(After(max, events), id) == TracksOf(events, id)
  {
    if events != [] {
      FailuresAreTracks(max, events[..|events| - 1], id);
    }
  }

  /** Over any run every queued message carries what one of the failures said. */
  lemma {:induction false} PushedCarryFailures(max: nat, events: seq<Event>, i: nat) returns (j: nat)
    requires i < |After(max, events).pushed|
    ensures var f := After(max, events).pushed[i];
            j < |events| && Carries(f, events[j], TracksOf(events[..j + 1], f.id))
  {
    var n := |events| - 1;
    var front, e := events[..n], events[n];
    var before := After(max, front);
    if i < |before.pushed| {
      j := PushedCarryFailures(max, front, i);
      assert front[..j + 1] == events[..j + 1];
    } else {
      FailuresAreTracks(max, front, e.id);
      j := n;
      assert events[..n + 1] == events;
    }
  }

  // ----- the program -----

  class ErrorQueue {
    const max: nat
    var failures: map<nat, nat>
    /** The Redis list, newest first. */
    var queue: seq<Failed>

    constructor (max: nat)
      ensures failures == map[] && queue == [] && this.max == max
    {
      this.max := max;
      failures, queue := map[], [];
    }

    method TrackQueryError(id: nat, name: string, message: string, at: string, enabled: bool, disabled: bool)
      modifies this
      ensures forall pushed, reported ::
                var m := Next(max, Mail(old(failures), old(queue), pushed, reported),
                              Track(id, name, message, at, enabled && !disabled));
                failures == m.failures && queue == m.queue
    {
      var count := (if id in failures then failures[id] else 0) + 1;
      failures := failures[id := count];
      if !enabled {
        return;
      }
      if count >= max {
        return;
      }
      if disabled {
        return;
      }
      queue := [Failed(id, name, message, count, at)] + queue;
    }

    method SendFailureReport() returns (report: Option<seq<Entry>>)
      modifies this
      ensures failures == old(failures) && queue == []
      ensures report == if old(queue) == [] then None else Some(Report(old(queue)))
    {
      if queue == [] {
        return None;
      }
      var errors := Reversed(queue);
      report := Some(WithCounts(Unique(errors), errors));
      queue := [];
    }
  }
}
