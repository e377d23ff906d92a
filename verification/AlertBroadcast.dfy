/**
 Which stored detections can still reach the alerts channel. Storing comes
 before publishing and a retry stops at the first insert, so a failure between
 them loses the broadcast for good; this says for exactly which detections.
 */
module AlertBroadcast {
  import opened Wrappers
  import opened AlertRule
  import opened AlertProtocol
  import opened AlertSafety

  /** An evaluation in flight that may yet publish this id: an unjudged one
      unless it replays history, a judged one when its judgement is broadcast. */
  ghost predicate MayPublish(e: Evaluation, id: nat) {
    match e
    case Accepted(_) => false
    case Recorded(job, i) => i == id && !IsBackfilled(job)
    case Judged(job, i, judgement) => i == id && IsBroadcast(job, judgement)
    case Stored(job, i, judgement) => i == id && IsBroadcast(job, judgement)
  }

  ghost predicate Underway(s: State, id: nat) {
    exists w :: w in s.evaluations && MayPublish(s.evaluations[w], id)
  }

  ghost predicate CanBeBroadcast(c: Settings, s: State, id: nat) {
    exists later :: OnChannel(Exec(c, s, later), id)
  }

  // ---------------------------------------------------------------------
  // A lost broadcast stays lost
  // ---------------------------------------------------------------------

  lemma OthersPublishNothing(s: State, t: State, w: nat, id: nat)
    requires !Underway(s, id)
    requires forall v :: v in t.evaluations && v != w ==> v in s.evaluations && t.evaluations[v] == s.evaluations[v]
    requires w in t.evaluations ==> !MayPublish(t.evaluations[w], id)
    ensures !Underway(t, id)
  {
    forall v | v in t.evaluations ensures !MayPublish(t.evaluations[v], id) {
      if v != w {
        assert !MayPublish(s.evaluations[v], id);
      }
    }
  }

  lemma SameEvaluations(s: State, t: State, id: nat)
    requires t.evaluations == s.evaluations
    ensures Underway(t, id) == Underway(s, id)
  {
  }

  lemma QuietStepsLeaveEvaluations(c: Settings, s: State, step: Step)
    requires step.Tick? || step.Acknowledge? || step.Annotate? || step.Relay? || step.ReadDue? || step.Remind?
    ensures Apply(c, s, step).evaluations == s.evaluations && Apply(c, s, step).channel == s.channel
  {
    hide Assess, IsDue, DueIds;
  }

  lemma StepStartsNoPublication(c: Settings, s: State, step: Step, id: nat)
    requires id < s.nextId && !Underway(s, id)
    ensures !Underway(Apply(c, s, step), id)
  {
    hide Assess, IsDue, DueIds, AfterNotify, KeyOf, IsBroadcast, IsBackfilled, NewVerdict, Underway;
    var t := Apply(c, s, step);
    if step.Accept? || step.Record? || step.Store? || step.Publish? || step.Crash? {
      NotUnderway(s, step.worker, id);
      OthersPublishNothing(s, t, step.worker, id);
    } else if step.Judge? {
      JudgingStartsNoPublication(s, step.worker, step.around, id);
    } else {
      QuietStepsLeaveEvaluations(c, s, step);
      SameEvaluations(s, t, id);
    }
  }

  lemma NotUnderway(s: State, w: nat, id: nat)
    requires !Underway(s, id)
    ensures w in s.evaluations ==> !MayPublish(s.evaluations[w], id)
  {
  }

  lemma JudgingStartsNoPublication(s: State, w: nat, around: Surroundings, id: nat)
    requires !Underway(s, id)
    ensures !Underway(AfterJudge(s, w, around), id)
  {
    hide Assess, Underway;
    NotUnderway(s, w, id);
    OthersPublishNothing(s, AfterJudge(s, w, around), w, id);
  }

  lemma NothingElsePublishes(c: Settings, s: State, step: Step, id: nat)
    requires !OnChannel(s, id) && !Underway(s, id)
    ensures !OnChannel(Apply(c, s, step), id)
  {
    hide Assess, IsDue, DueIds, KeyOf, IsBroadcast, Underway;
    var t := Apply(c, s, step);
    if step.Publish? {
      NotUnderway(s, step.worker, id);
    }
    forall i | 0 <= i < |t.channel| ensures t.channel[i].id != id {
      if i < |s.channel| {
        assert t.channel[i] == s.channel[i];
      }
    }
  }

  lemma {:induction false} UnpublishedStays(c: Settings, s: State, steps: seq<Step>, id: nat)
    requires id < s.nextId && !OnChannel(s, id) && !Underway(s, id)
    ensures var t := Exec(c, s, steps);
            id < t.nextId && !OnChannel(t, id) && !Underway(t, id)
    decreases |steps|
  {
    hide Apply, OnChannel, Underway;
    if steps != [] {
      var before := Exec(c, s, steps[..|steps| - 1]);
      var step := steps[|steps| - 1];
      UnpublishedStays(c, s, steps[..|steps| - 1], id);
      IdsOnlyGrow(c, before, step);
      StepStartsNoPublication(c, before, step, id);
      NothingElsePublishes(c, before, step, id);
    }
  }

  lemma IdsOnlyGrow(c: Settings, s: State, step: Step)
    ensures Apply(c, s, step).nextId >= s.nextId
  {
    hide Assess, IsDue, DueIds, KeyOf;
  }

  // ---------------------------------------------------------------------
  // One that is under way can arrive
  // ---------------------------------------------------------------------

  /** Inside some zone every live detection is broadcast. */
  function SomeZone(): Surroundings {
    Surroundings([Zone(0, "generic")], None, None)
  }

  lemma InAZoneIsBroadcast(job: Job)
    requires !IsBackfilled(job)
    ensures IsBroadcast(job, Assess(job, SomeZone()))
  {
    AssessIsSound(job, SomeZone());
    hide Decide;
    if job.Detection? {
      assert Assess(job, SomeZone()).zone == Some(Zone(0, "generic"));
    }
  }

  lemma StoredArrives(c: Settings, s: State, w: nat, id: nat)
    requires w in s.evaluations && s.evaluations[w].Stored? && MayPublish(s.evaluations[w], id)
    ensures CanBeBroadcast(c, s, id)
  {
    hide Exec;
    ExecNone(c, s);
    ExecOne(c, s, [], Publish(w));
    var t := Exec(c, s, [] + [Publish(w)]);
    assert t.channel[|s.channel|].id == id;
  }

  lemma LaterIsPossible(c: Settings, s: State, step: Step, id: nat)
    requires CanBeBroadcast(c, Apply(c, s, step), id)
    ensures CanBeBroadcast(c, s, id)
  {
    hide Exec, Apply, OnChannel;
    var later :| OnChannel(Exec(c, Apply(c, s, step), later), id);
    ExecNone(c, s);
    ExecOne(c, s, [], step);
    ExecConcat(c, s, [] + [step], later);
    assert OnChannel(Exec(c, s, ([] + [step]) + later), id);
  }

  lemma JudgedArrives(c: Settings, s: State, w: nat, id: nat)
    requires w in s.evaluations && s.evaluations[w].Judged? && MayPublish(s.evaluations[w], id)
    ensures CanBeBroadcast(c, s, id)
  {
    hide Exec, CanBeBroadcast, IsBroadcast;
    StoredArrives(c, Apply(c, s, AlertProtocol.Store(w)), w, id);
    LaterIsPossible(c, s, AlertProtocol.Store(w), id);
  }

  lemma UnderwayArrives(c: Settings, s: State, id: nat)
    requires Underway(s, id)
    ensures CanBeBroadcast(c, s, id)
  {
    hide Exec, CanBeBroadcast, IsBroadcast, Assess;
    var w :| w in s.evaluations && MayPublish(s.evaluations[w], id);
    match s.evaluations[w]
    case Recorded(job, _) =>
      InAZoneIsBroadcast(job);
      JudgedArrives(c, Apply(c, s, Judge(w, SomeZone())), w, id);
      LaterIsPossible(c, s, Judge(w, SomeZone()), id);
    case Judged(_, _, _) => JudgedArrives(c, s, w, id);
    case Stored(_, _, _) => StoredArrives(c, s, w, id);
  }

  /** In every reachable state a stored detection can still be broadcast iff it
      has been, or an evaluation that may publish it is in flight. A verdict
      whose publication failed is therefore never broadcast by a retry. */
  lemma BroadcastableExactlyWhileUnderway(c: Settings, now: Time, steps: seq<Step>, id: nat)
    requires id in Exec(c, Initial(now), steps).anomalies.Values
    ensures var s := Exec(c, Initial(now), steps);
            CanBeBroadcast(c, s, id) <==> OnChannel(s, id) || Underway(s, id)
  {
    hide Apply, Underway, OnChannel;
    TablesAlwaysOk(c, now, steps);
    var s := Exec(c, Initial(now), steps);
    var k :| k in s.anomalies && s.anomalies[k] == id;
    if OnChannel(s, id) {
      var none: seq<Step> := [];
      assert OnChannel(Exec(c, s, none), id);
    } else if Underway(s, id) {
      UnderwayArrives(c, s, id);
    } else {
      forall later ensures !OnChannel(Exec(c, s, later), id) {
        UnpublishedStays(c, s, later, id);
      }
    }
  }
}
