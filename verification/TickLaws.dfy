/**
 What a tick runs for a selected query, and the failures it counts.
 */
module TickLaws {
  import opened Text
  import opened QuerySelection
  import opened SchedulerTick
  import CacheKey
  import Parameters
  import Store = ResultStore

  /** A query has parameters when one of them has a name. */
  predicate NamesParameters(c: Context, id: nat) {
    id in c.defaults && c.defaults[id].values.Keys - {""} != {}
  }

  predicate DefaultsFit(c: Context, id: nat) {
    id in c.defaults
    && forall name :: name in c.defaults[id].values ==> c.defaults[id].valid(name, c.defaults[id].values[name])
  }

  /**
   The text that is run: the template itself, or, with named parameters, rendered with the
   joined defaults if these fit their definitions; then limited by the data source if the
   query asks for it.
   */
  lemma TextExactly(c: Context, id: nat, q: Store.Query)
    ensures TextToRun(c, id, q).Some? <==> (NamesParameters(c, id) ==> DefaultsFit(c, id))
    ensures TextToRun(c, id, q).Some? ==>
              var text :=
                if NamesParameters(c, id)
                then var d := c.defaults[id];
                     Parameters.Render(
                       c.show, c.parse(q.text), [Parameters.Scope(Parameters.JoinLists(d.values, d.separators))])
                else q.text;
              TextToRun(c, id, q) ==
              Some(if q.limit && q.dataSource.Some? then c.env.limit(q.dataSource.value, text) else text)
  {
    NamedIs(c, id);
  }

  lemma NamedIs(c: Context, id: nat)
    ensures HasParameters(c, id) <==> NamesParameters(c, id)
  {
    if HasParameters(c, id) {
      var name :| name in c.defaults[id].values && name != "";
      assert name in c.defaults[id].values.Keys - {""};
    }
    if NamesParameters(c, id) {
      var name :| name in c.defaults[id].values.Keys - {""};
      assert name in c.defaults[id].values && name != "";
    }
  }

  /**
   A selected query fails when its run is not skipped and its defaults do not fit or its
   database answers with an error.
   */
  predicate Fails(c: Context, q: Query, answer: Answer) {
    q.dataSource.Some? && answer.Ran? && (answer.failed || (NamesParameters(c, q.id) && !DefaultsFit(c, q.id)))
  }

  function FailsOf(c: Context, selected: seq<Query>, answers: seq<Answer>, k: nat): nat
    requires |answers| == |selected|
  {
    if selected == [] then 0
    else
      var last := |selected| - 1;
      FailsOf(c, selected[..last], answers[..last], k)
      + if selected[last].id == k && Fails(c, selected[last], answers[last]) then 1 else 0
  }

  lemma RunFailures(c: Context, db: Store.Db, q: Query, answer: Answer, k: nat)
    requires q.id in db.queries && k in db.queries
    ensures RunOne(c, db, q, answer).queries[k].failures ==
            db.queries[k].failures + if q.id == k && Fails(c, q, answer) then 1 else 0
  {
    TextExactly(c, q.id, db.queries[q.id]);
  }

  /** A tick adds exactly the failures of a query's own runs to its counter. */
  lemma {:induction false} TickFailures(c: Context, db: Store.Db, selected: seq<Query>, answers: seq<Answer>, k: nat)
    requires |answers| == |selected| && AgreeOn(db, selected) && k in db.queries
    ensures TickRuns(c, db, selected, answers).queries[k].failures ==
            db.queries[k].failures + FailsOf(c, selected, answers, k)
  {
    if selected != [] {
      var last := |selected| - 1;
      TickFailures(c, db, selected[..last], answers[..last], k);
      var before := TickUnfolds(c, db, selected, answers);
      RunFailures(c, before, selected[last], answers[last], k);
    }
  }

  /** What a run that is enqueued hands over: the text, the data source, the query itself. */
  lemma EnqueuedRun(c: Context, db: Store.Db, q: Query, answer: Answer)
    requires q.id in db.queries && IsEnqueued(c, db, q, answer)
    ensures RunOne(c, db, q, answer) ==
            Store.Step(c.env, db, Store.Run(TextToRun(c, q.id, db.queries[q.id]).value, q.dataSource.value,
                                            answer.metadata, Some(q.id), answer.failed, answer.wait))
    ensures answer.Ran? && q.dataSource.Some? && (NamesParameters(c, q.id) ==> DefaultsFit(c, q.id))
  {
    TextExactly(c, q.id, db.queries[q.id]);
  }
}
