/**
 The states of an alert and the notifications it sends (`check_alerts_for_query_task`).
 Times are in seconds.
 */
module Alerts {
  import opened Text

  datatype State = Unknown | Ok | Triggered

  /** `rearm` of None or 0 means that a triggered alert is not repeated. */
  datatype Settings = Settings(rearm: Option<int>)

  datatype Status = Status(state: State, lastTriggeredAt: Option<int>)

  const FRESH := Status(Unknown, None)

  predicate Rearms(settings: Settings) {
    settings.rearm.Some? && settings.rearm.value != 0
  }

  predicate PassedRearm(settings: Settings, s: Status, now: int) {
    Rearms(settings) && s.lastTriggeredAt.Some? && s.lastTriggeredAt.value + settings.rearm.value < now
  }

  predicate ShouldNotify(settings: Settings, s: Status, newState: State, now: int) {
    newState != s.state || (s.state == Triggered && PassedRearm(settings, s, now))
  }

  /** One evaluation: the new status, and whether subscribers of an alert that is not muted are told. */
  function Check(settings: Settings, s: Status, newState: State, now: int): (Status, bool) {
    if !ShouldNotify(settings, s, newState, now) then (s, false)
    else (Status(newState, Some(now)), !(s.state == Unknown && newState == Ok))
  }

  // ----- runs -----

  /** An alert may be muted at some evaluations and not at others. */
  datatype Evaluation = Evaluation(state: State, at: int, muted: bool)

  /** `wanted` are the evaluations worth a notification, `sent` those that lead to one. */
  datatype History = History(status: Status, wanted: seq<Evaluation>, sent: seq<Evaluation>)

  function Run(settings: Settings, evaluations: seq<Evaluation>): History {
    if evaluations == [] then History(FRESH, [], [])
    else
      var before := Run(settings, evaluations[..|evaluations| - 1]);
      var e := evaluations[|evaluations| - 1];
      var (status, wanted) := Check(settings, before.status, e.state, e.at);
      History(status,
              if wanted then before.wanted + [e] else before.wanted,
              if wanted && !e.muted then before.sent + [e] else before.sent)
  }

  /** Muting drops exactly the notifications of the muted evaluations and moves no other one. */
  lemma {:induction false} SentAreUnmuted(settings: Settings, evaluations: seq<Evaluation>)
    ensures Run(settings, evaluations).sent == Filter((e: Evaluation) => !e.muted, Run(settings, evaluations).wanted)
  {
    if evaluations != [] {
      var front, e := evaluations[..|evaluations| - 1], evaluations[|evaluations| - 1];
      SentAreUnmuted(settings, front);
      FilterConcat((e: Evaluation) => !e.muted, Run(settings, front).wanted, [e]);
      FilterOne((e: Evaluation) => !e.muted, e);
    }
  }

  /** An alert that is always muted tells nobody, one that never is sends all that is wanted. */
  lemma {:induction false} MutedIsSilent(settings: Settings, evaluations: seq<Evaluation>)
    ensures (forall e :: e in evaluations ==> e.muted) ==> Run(settings, evaluations).sent == []
    ensures (forall e :: e in evaluations ==> !e.muted) ==>
              Run(settings, evaluations).sent == Run(settings, evaluations).wanted
  {
    if evaluations != [] {
      MutedIsSilent(settings, evaluations[..|evaluations| - 1]);
    }
  }

  /** Whether an alert is muted has no influence on the notifications that are wanted. */
  lemma {:induction false} MutingIsInvisible(settings: Settings, a: seq<Evaluation>, b: seq<Evaluation>)
    requires |a| == |b| && forall i :: 0 <= i < |a| ==> a[i].(muted := false) == b[i].(muted := false)
    ensures Run(settings, a).status == Run(settings, b).status
    ensures |Run(settings, a).wanted| == |Run(settings, b).wanted|
    ensures forall i :: 0 <= i < |Run(settings, a).wanted| ==>
                          Run(settings, a).wanted[i].(muted := false) == Run(settings, b).wanted[i].(muted := false)
  {
    if a != [] {
      MutingIsInvisible(settings, a[..|a| - 1], b[..|b| - 1]);
    }
  }

  /** The stored state is always the latest evaluated one, whatever was notified. */
  lemma {:induction false} StateIsLatest(settings: Settings, evaluations: seq<Evaluation>)
    requires evaluations != []
    ensures Run(settings, evaluations).status.state == evaluations[|evaluations| - 1].state
  {
    var before := Run(settings, evaluations[..|evaluations| - 1]);
    assert Run(settings, evaluations).status ==
           Check(settings, before.status, evaluations[|evaluations| - 1].state, evaluations[|evaluations| - 1].at).0;
  }

  predicate LastWanted(h: History, state: State) {
    h.wanted != [] && h.wanted[|h.wanted| - 1].state == state
  }

  /** The evaluations that find another state than the one before, becoming OK for the first time aside. */
  function Changes(evaluations: seq<Evaluation>): seq<Evaluation> {
    if evaluations == [] then []
    else
      var n := |evaluations| - 1;
      var was, now := if n == 0 then Unknown else evaluations[n - 1].state, evaluations[n].state;
      Changes(evaluations[..n]) + if now != was && !(was == Unknown && now == Ok) then [evaluations[n]] else []
  }

  /**
   Without a rearm exactly the changes that are found while unmuted are notified. A change
   found while the alert is muted is not made up for afterwards.
   */
  lemma {:induction false} SentAreChanges(settings: Settings, evaluations: seq<Evaluation>)
    requires !Rearms(settings)
    ensures Run(settings, evaluations).wanted == Changes(evaluations)
    ensures Run(settings, evaluations).sent == Filter((e: Evaluation) => !e.muted, Changes(evaluations))
  {
    SentAreUnmuted(settings, evaluations);
    if evaluations != [] {
      var front := evaluations[..|evaluations| - 1];
      SentAreChanges(settings, front);
      if front != [] {
        StateIsLatest(settings, front);
      }
    }
  }

  /** In particular an alert that goes on triggering once it is unmuted stays silent without a rearm. */
  lemma {:induction false} UnmutedTooLate(settings: Settings, before: seq<Evaluation>, still: seq<Evaluation>)
    requires !Rearms(settings) && before != [] && before[|before| - 1].state == Triggered
    requires forall i :: 0 <= i < |still| ==> still[i].state == Triggered
    ensures Run(settings, before + still).sent == Run(settings, before).sent
  {
    if still == [] {
      assert before + still == before;
    } else {
      var n := |still| - 1;
      var front := before + still[..n];
      UnmutedTooLate(settings, before, still[..n]);
      assert (before + still)[..|before| + n] == front;
      StateIsLatest(settings, front);
      assert front[|front| - 1] == if n == 0 then before[|before| - 1] else still[n - 1];
    }
  }

  /** Two triggered notifications in a row were separated by more than the rearm time. */
  ghost predicate RepeatsRearmed(settings: Settings, wanted: seq<Evaluation>) {
    forall i :: 0 < i < |wanted| && wanted[i - 1].state == Triggered && wanted[i].state == Triggered ==>
                  Rearms(settings) && wanted[i].at > wanted[i - 1].at + settings.rearm.value
  }

  /** A recovery is only announced after the trigger it ends. */
  ghost predicate RecoveriesFollow(wanted: seq<Evaluation>) {
    forall i :: 0 <= i < |wanted| && wanted[i].state == Ok ==> i > 0 && wanted[i - 1].state == Triggered
  }

  /** The alert is triggered exactly when the last wanted notification says so. */
  lemma {:induction false} RunInvariant(settings: Settings, evaluations: seq<Evaluation>)
    ensures var h := Run(settings, evaluations);
            (h.status.state == Triggered <==> LastWanted(h, Triggered))
            && (h.status.state == Triggered ==> h.status.lastTriggeredAt == Some(h.wanted[|h.wanted| - 1].at))
            && RepeatsRearmed(settings, h.wanted) && RecoveriesFollow(h.wanted)
  {
    if evaluations != [] {
      var n := |evaluations| - 1;
      RunInvariant(settings, evaluations[..n]);
      InvariantStep(settings, Run(settings, evaluations[..n]), evaluations[n], Run(settings, evaluations));
    }
  }

  lemma InvariantStep(settings: Settings, before: History, e: Evaluation, after: History)
    requires before.status.state == Triggered <==> LastWanted(before, Triggered)
    requires before.status.state == Triggered ==>
               before.status.lastTriggeredAt == Some(before.wanted[|before.wanted| - 1].at)
    requires RepeatsRearmed(settings, before.wanted) && RecoveriesFollow(before.wanted)
    requires var (status, wanted) := Check(settings, before.status, e.state, e.at);
             after.status == status && after.wanted == if wanted then before.wanted + [e] else before.wanted
    ensures after.status.state == Triggered <==> LastWanted(after, Triggered)
    ensures after.status.state == Triggered ==>
            after.status.lastTriggeredAt == Some(after.wanted[|after.wanted| - 1].at)
    ensures RepeatsRearmed(settings, after.wanted) && RecoveriesFollow(after.wanted)
  {
  }

  /** Two triggered notifications with none wanted between them need a rearm and are more than rearm seconds apart. */
  lemma RepeatNeedsRearm(settings: Settings, evaluations: seq<Evaluation>, i: nat)
    requires i + 1 < |Run(settings, evaluations).wanted|
    requires Run(settings, evaluations).wanted[i].state == Triggered
    requires Run(settings, evaluations).wanted[i + 1].state == Triggered
    ensures Rearms(settings)
    ensures Run(settings, evaluations).wanted[i + 1].at > Run(settings, evaluations).wanted[i].at + settings.rearm.value
  {
    RunInvariant(settings, evaluations);
    assert RepeatsRearmed(settings, Run(settings, evaluations).wanted);
  }

  /** k repeats within one triggered stretch take more than k times the rearm time. */
  lemma {:induction false} StretchTakesLonger(settings: Settings, evaluations: seq<Evaluation>, i: nat, k: nat)
    requires k > 0 && i + k < |Run(settings, evaluations).wanted|
    requires forall j :: i <= j <= i + k ==> Run(settings, evaluations).wanted[j].state == Triggered
    ensures Rearms(settings)
    ensures Run(settings, evaluations).wanted[i + k].at >
            Run(settings, evaluations).wanted[i].at + k * settings.rearm.value
    decreases k
  {
    RepeatNeedsRearm(settings, evaluations, i + k - 1);
    if k > 1 {
      StretchTakesLonger(settings, evaluations, i, k - 1);
    }
  }

  /** Without a rearm another notification is always wanted between two triggered ones. */
  lemma NoRearmNoRepeat(settings: Settings, evaluations: seq<Evaluation>, i: nat, j: nat)
    requires !Rearms(settings) && i < j < |Run(settings, evaluations).wanted|
    requires Run(settings, evaluations).wanted[i].state == Triggered
             && Run(settings, evaluations).wanted[j].state == Triggered
    ensures exists m :: i < m < j && Run(settings, evaluations).wanted[m].state != Triggered
  {
    RunInvariant(settings, evaluations);
    assert Run(settings, evaluations).wanted[i + 1].state != Triggered;
  }

  /**
   Every OK notification directly follows a TRIGGERED one: an alert that becomes OK from
   the unknown state says nothing.
   */
  lemma OkFollowsTriggered(settings: Settings, evaluations: seq<Evaluation>, i: nat)
    requires i < |Run(settings, evaluations).wanted| && Run(settings, evaluations).wanted[i].state == Ok
    ensures i > 0 && Run(settings, evaluations).wanted[i - 1].state == Triggered
  {
    RunInvariant(settings, evaluations);
    assert RecoveriesFollow(Run(settings, evaluations).wanted);
  }

  /** The state the evaluations leave, which is unknown before the first one. */
  function StateAfter(evaluations: seq<Evaluation>): State {
    if evaluations == [] then Unknown else evaluations[|evaluations| - 1].state
  }

  /**
   Which evaluation is wanted, told from the history alone: a change of state other than
   from unknown to OK, or a trigger more than the rearm time after the last wanted one,
   itself a trigger.
   */
  lemma {:induction false} WantedExactly(settings: Settings, before: seq<Evaluation>, e: Evaluation)
    ensures var wanted := Run(settings, before).wanted;
            var was := StateAfter(before);
            (was == Triggered <==> wanted != [] && wanted[|wanted| - 1].state == Triggered)
            && Run(settings, before + [e]).wanted ==
               wanted + if (e.state != was && !(was == Unknown && e.state == Ok))
                           || (e.state == was == Triggered && settings.rearm.Some? && settings.rearm.value != 0
                               && e.at > wanted[|wanted| - 1].at + settings.rearm.value)
                        then [e] else []
  {
    assert (before + [e])[..|before|] == before;
    RunInvariant(settings, before);
    if before != [] {
      StateIsLatest(settings, before);
    }
  }

  /** Every change, and every wanted repeat, is stored with its time; otherwise the status stays. */
  lemma StatusExactly(settings: Settings, before: seq<Evaluation>, e: Evaluation)
    ensures var h, after := Run(settings, before), Run(settings, before + [e]);
            after.status ==
            if e.state != StateAfter(before) || after.wanted != h.wanted then Status(e.state, Some(e.at)) else h.status
    ensures Run(settings, []).status == Status(Unknown, None)
  {
    assert (before + [e])[..|before|] == before;
    if before != [] {
      StateIsLatest(settings, before);
    }
  }

  predicate Within(evaluations: seq<Evaluation>, gap: int) {
    forall i :: 0 <= i < |evaluations| - 1 ==> evaluations[i + 1].at <= evaluations[i].at + gap
  }

  /** Triggered notifications that follow each other are close together. */
  ghost predicate RepeatsClose(wanted: seq<Evaluation>, distance: int) {
    forall i :: 0 < i < |wanted| && wanted[i - 1].state == Triggered && wanted[i].state == Triggered ==>
                  wanted[i].at <= wanted[i - 1].at + distance
  }

  /** With a rearm, and evaluations at most `gap` apart, repeats are at most the rearm time and one gap apart. */
  lemma {:induction false} RepeatsAreTimely(settings: Settings, evaluations: seq<Evaluation>, gap: nat)
    requires settings.rearm.Some? && settings.rearm.value > 0 && Within(evaluations, gap)
    ensures var wanted := Run(settings, evaluations).wanted;
            RepeatsClose(wanted, settings.rearm.value + gap)
            && (evaluations != [] && StateAfter(evaluations) == Triggered ==>
                  wanted != [] && evaluations[|evaluations| - 1].at <= wanted[|wanted| - 1].at + settings.rearm.value)
  {
    if evaluations != [] {
      var n := |evaluations| - 1;
      var front, e := evaluations[..n], evaluations[n];
      assert evaluations == front + [e];
      assert n > 0 ==> evaluations[(n - 1) + 1].at <= evaluations[n - 1].at + gap;
      RepeatsAreTimely(settings, front, gap);
      WantedExactly(settings, front, e);
      RepeatStep(settings.rearm.value, gap, Run(settings, front).wanted, front, e, Run(settings, evaluations).wanted);
    }
  }

  lemma RepeatStep(
    rearm: int, gap: nat, wanted: seq<Evaluation>, front: seq<Evaluation>, e: Evaluation, after: seq<Evaluation>)
    requires rearm > 0 && RepeatsClose(wanted, rearm + gap) && (after == wanted || after == wanted + [e])
    requires StateAfter(front) == Triggered <==> wanted != [] && wanted[|wanted| - 1].state == Triggered
    requires StateAfter(front) == Triggered ==> e.at <= wanted[|wanted| - 1].at + rearm + gap
    requires e.state == Triggered && after == wanted ==>
               StateAfter(front) == Triggered && e.at <= wanted[|wanted| - 1].at + rearm
    ensures RepeatsClose(after, rearm + gap)
    ensures e.state == Triggered ==> after != [] && e.at <= after[|after| - 1].at + rearm
  {
    if after != wanted {
      assert after[|after| - 1] == e;
    }
  }

  // ----- the program -----

  class Alert {
    const settings: Settings
    var muted: bool
    var state: State
    var lastTriggeredAt: Option<int>

    function Current(): Status
      reads this
    {
      Status(state, lastTriggeredAt)
    }

    constructor (settings: Settings)
      ensures Current() == FRESH && this.settings == settings && !muted
    {
      this.settings, muted := settings, false;
      state, lastTriggeredAt := Unknown, None;
    }

    /** The body of the loop over a query's alerts. */
    method CheckOne(newState: State, now: int) returns (notified: bool)
      modifies this`state, this`lastTriggeredAt
      ensures var (status, wanted) := Check(settings, old(Current()), newState, now);
              Current() == status && notified == (wanted && !muted)
    {
      notified := false;
      if ShouldNotify(settings, Current(), newState, now) {
        var oldState := state;
        state := newState;
        lastTriggeredAt := Some(now);
        if oldState == Unknown && newState == Ok {
          return;
        }
        if muted {
          return;
        }
        notified := true;
      }
    }
  }

  /** `evaluated` holds the state each alert of the query evaluates to. */
  method CheckAlerts(alerts: seq<Alert>, evaluated: seq<State>, now: int) returns (notified: seq<bool>)
    requires |evaluated| == |alerts| && forall i, j :: 0 <= i < j < |alerts| ==> alerts[i] != alerts[j]
    modifies alerts
    ensures |notified| == |alerts|
    ensures forall i :: 0 <= i < |alerts| ==>
                          var (status, wanted) :=
                            Check(alerts[i].settings, old(alerts[i].Current()), evaluated[i], now);
                          alerts[i].Current() == status && notified[i] == (wanted && !alerts[i].muted)
                          && alerts[i].muted == old(alerts[i].muted)
  {
    notified := [];
    for n := 0 to |alerts|
      invariant |notified| == n
      invariant forall i :: 0 <= i < n ==>
                              var (status, wanted) :=
                                Check(alerts[i].settings, old(alerts[i].Current()), evaluated[i], now);
                              alerts[i].Current() == status && notified[i] == (wanted && !alerts[i].muted)
      invariant forall i :: n <= i < |alerts| ==> alerts[i].Current() == old(alerts[i].Current())
      invariant forall i :: 0 <= i < |alerts| ==> alerts[i].muted == old(alerts[i].muted)
    {
      var told := alerts[n].CheckOne(evaluated[n], now);
      notified := notified + [told];
    }
  }
}
