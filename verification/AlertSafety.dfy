/**
 What holds in every reachable state of the alert protocol: one anomaly, one
 verdict and one broadcast per detection, acknowledgements that stay, history
 that stays quiet, and exactly which stored detections can still be judged.
 */
module AlertSafety {
  import opened Wrappers
  import opened AlertRule
  import opened AlertProtocol

  // ---------------------------------------------------------------------
  // Every step keeps the tables consistent
  // ---------------------------------------------------------------------

  /** Evaluations stay fine when rows and messages only gain other ids. */
  lemma EvaluationKept(s: State, t: State, e: Evaluation)
    requires Extends(s, t) && EvaluationOk(s, e)
    requires !e.Accepted? ==> (HasVerdict(t, e.id) ==> HasVerdict(s, e.id))
    requires !e.Accepted? ==> (OnChannel(t, e.id) ==> OnChannel(s, e.id))
    ensures EvaluationOk(t, e)
  {
    if e.Stored? {
      RowForKept(s, t, e.id, e.judgement, IsBackfilled(e.job));
    }
  }

  lemma ChannelKept(s: State, t: State)
    requires ChannelOk(s) && Extends(s, t) && t.channel == s.channel
    ensures ChannelOk(t)
  {
    forall i | 0 <= i < |t.channel| ensures PayloadOk(t, t.channel[i]) {
      assert PayloadOk(s, s.channel[i]);
      RowForKept(s, t, t.channel[i].id, t.channel[i].judgement, false);
    }
  }

  lemma VerdictsKept(s: State, t: State)
    requires VerdictsOk(s) && Extends(s, t) && t.verdicts == s.verdicts
    ensures VerdictsOk(t)
  {
    forall id | id in s.anomalies.Values ensures id in t.anomalies.Values {
      var k :| k in s.anomalies && s.anomalies[k] == id;
      assert t.anomalies[k] == id;
    }
  }

  lemma RowsKeep(s: State, t: State)
    requires TablesOk(s) && Extends(s, t)
    requires t.anomalies == s.anomalies && t.nextId == s.nextId && t.channel == s.channel
    requires |t.verdicts| == |s.verdicts|
    requires forall w :: w in t.evaluations ==>
                           && w in s.evaluations
                           && t.evaluations[w] == s.evaluations[w]
    ensures TablesOk(t)
  {
    assert forall i :: 0 <= i < |s.verdicts| ==> SameVerdict(s.verdicts[i], t.verdicts[i]);
    forall id | HasVerdict(t, id) ensures HasVerdict(s, id) {
      var i :| 0 <= i < |t.verdicts| && t.verdicts[i].anomalyId == id;
      assert s.verdicts[i].anomalyId == id;
    }
    forall w | w in t.evaluations ensures EvaluationOk(t, t.evaluations[w]) {
      EvaluationKept(s, t, s.evaluations[w]);
    }
    ChannelKept(s, t);
  }

  lemma RecordKeeps(s: State, w: nat)
    requires TablesOk(s) && w in s.evaluations && s.evaluations[w].Accepted?
    requires KeyOf(s.evaluations[w].job) !in s.anomalies
    ensures TablesOk(AfterRecord(s, w))
  {
    hide VerdictsOk, ChannelOk;
    var t := AfterRecord(s, w);
    var key := KeyOf(s.evaluations[w].job);
    assert t.anomalies[key] == s.nextId;
    assert Extends(s, t);
    VerdictsKept(s, t);
    ChannelKept(s, t);
    NewIdHasNoVerdict(s);
    forall v | v in t.evaluations ensures EvaluationOk(t, t.evaluations[v]) {
      if v != w {
        EvaluationKept(s, t, s.evaluations[v]);
      }
    }
  }

  lemma NewIdHasNoVerdict(s: State)
    requires AnomaliesOk(s) && VerdictsOk(s)
    ensures !HasVerdict(s, s.nextId)
  {
    forall i | 0 <= i < |s.verdicts| ensures s.verdicts[i].anomalyId != s.nextId {
      assert s.verdicts[i].anomalyId in s.anomalies.Values;
      var k :| k in s.anomalies && s.anomalies[k] == s.verdicts[i].anomalyId;
    }
  }

  lemma JudgeKeeps(s: State, w: nat, around: Surroundings)
    requires TablesOk(s)
    ensures TablesOk(AfterJudge(s, w, around))
  {
    var t := AfterJudge(s, w, around);
    if t != s {
      AssessIsSound(s.evaluations[w].job, around);
      forall v | v in t.evaluations ensures EvaluationOk(t, t.evaluations[v]) {
        if v != w {
          EvaluationKept(s, t, s.evaluations[v]);
        }
      }
      ChannelKept(s, t);
    }
  }

  lemma BroadcastHasVerdict(s: State, id: nat)
    requires ChannelOk(s) && OnChannel(s, id)
    ensures HasVerdict(s, id)
  {
    var i :| 0 <= i < |s.channel| && s.channel[i].id == id;
    assert PayloadOk(s, s.channel[i]);
    var k :| 0 <= k < |s.verdicts| && RowSays(s.verdicts[k], id, s.channel[i].judgement, false);
  }

  lemma StoreKeeps(s: State, w: nat)
    requires TablesOk(s) && w in s.evaluations && s.evaluations[w].Judged?
    ensures TablesOk(AfterStore(s, w))
  {
    hide ChannelOk;
    var t := AfterStore(s, w);
    var e := s.evaluations[w];
    var last := |s.verdicts|;
    assert EvaluationOk(s, e);
    assert e.id in t.anomalies.Values by { assert t.anomalies[KeyOf(e.job)] == e.id; }
    assert RowSays(t.verdicts[last], e.id, e.judgement, IsBackfilled(e.job));
    if OnChannel(s, e.id) {
      BroadcastHasVerdict(s, e.id);
      assert false;
    }
    forall v | v in t.evaluations ensures EvaluationOk(t, t.evaluations[v]) {
      if v != w {
        EvaluationKept(s, t, s.evaluations[v]);
      }
    }
    ChannelKept(s, t);
  }

  lemma PublishKeeps(s: State, w: nat)
    requires TablesOk(s) && w in s.evaluations && s.evaluations[w].Stored?
    ensures TablesOk(AfterPublish(s, w))
  {
    hide VerdictsOk;
    var t := AfterPublish(s, w);
    var e := s.evaluations[w];
    VerdictsKept(s, t);
    assert EvaluationOk(s, e);
    forall v | v in t.evaluations ensures EvaluationOk(t, t.evaluations[v]) {
      EvaluationKept(s, t, s.evaluations[v]);
    }
    forall i | 0 <= i < |t.channel| ensures PayloadOk(t, t.channel[i]) {
      if i < |s.channel| {
        RowForKept(s, t, t.channel[i].id, t.channel[i].judgement, false);
      } else {
        RowForKept(s, t, e.id, e.judgement, false);
      }
    }
  }

  lemma AcceptKeeps(s: State, w: nat, job: Job)
    requires TablesOk(s) && w !in s.evaluations
    ensures TablesOk(s.(evaluations := s.evaluations[w := Accepted(job)]))
  {
    hide VerdictsOk, ChannelOk;
    var t := s.(evaluations := s.evaluations[w := Accepted(job)]);
    forall v | v in t.evaluations ensures EvaluationOk(t, t.evaluations[v]) {
      if v != w {
        EvaluationKept(s, t, s.evaluations[v]);
      }
    }
    VerdictsKept(s, t);
    ChannelKept(s, t);
  }

  /** The steps that write neither an anomaly, nor a new verdict, nor a message. */
  lemma QuietStepKeeps(c: Settings, s: State, step: Step)
    requires TablesOk(s)
    requires step.Tick? || step.Crash? || step.Acknowledge? || step.Annotate? || step.Relay? || step.ReadDue? || step.Remind?
    ensures TablesOk(Apply(c, s, step))
  {
    hide TablesOk, Extends, IsDue, DueIds, Assess;
    StepExtends(c, s, step);
    RowsKeep(s, Apply(c, s, step));
  }

  lemma StepKeepsTables(c: Settings, s: State, step: Step)
    requires TablesOk(s)
    ensures TablesOk(Apply(c, s, step))
  {
    match step
    case Accept(w, job) =>
      if w !in s.evaluations {
        AcceptKeeps(s, w, job);
      }
    case Record(w) =>
      if w in s.evaluations && s.evaluations[w].Accepted? {
        if KeyOf(s.evaluations[w].job) in s.anomalies {
          RowsKeep(s, AfterRecord(s, w));
        } else {
          RecordKeeps(s, w);
        }
      }
    case Judge(w, around) => JudgeKeeps(s, w, around);
    case Store(w) =>
      if w in s.evaluations && s.evaluations[w].Judged? {
        StoreKeeps(s, w);
      }
    case Publish(w) =>
      if w in s.evaluations && s.evaluations[w].Stored? {
        PublishKeeps(s, w);
      }
    case _ => QuietStepKeeps(c, s, step);
  }

  lemma {:induction false} TablesAlwaysOk(c: Settings, now: Time, steps: seq<Step>)
    ensures TablesOk(Exec(c, Initial(now), steps))
    decreases |steps|
  {
    if steps != [] {
      TablesAlwaysOk(c, now, steps[..|steps| - 1]);
      StepKeepsTables(c, Exec(c, Initial(now), steps[..|steps| - 1]), steps[|steps| - 1]);
    }
  }

  // ---------------------------------------------------------------------
  // At most once
  // ---------------------------------------------------------------------

  /** Under every interleaving of evaluators, probe alarms, retries and crashes:
      a detection has one id, an id at most one verdict and one broadcast, and
      what was broadcast is what the stored, live verdict says. */
  lemma AtMostOnce(c: Settings, now: Time, steps: seq<Step>)
    ensures var s := Exec(c, Initial(now), steps);
            && (forall k, l :: k in s.anomalies && l in s.anomalies && k != l ==>
                                 s.anomalies[k] != s.anomalies[l])
            && (forall i, j :: 0 <= i < j < |s.verdicts| ==>
                                 s.verdicts[i].anomalyId != s.verdicts[j].anomalyId)
            && (forall i, j :: 0 <= i < j < |s.channel| ==>
                                 s.channel[i].id != s.channel[j].id && s.channel[i].key != s.channel[j].key)
            && (forall i :: 0 <= i < |s.channel| ==>
                              && s.channel[i].key in s.anomalies
                              && s.anomalies[s.channel[i].key] == s.channel[i].id
                              && RowFor(s, s.channel[i].id, s.channel[i].judgement, false))
  {
    TablesAlwaysOk(c, now, steps);
    var s := Exec(c, Initial(now), steps);
    forall i | 0 <= i < |s.channel| ensures PayloadOk(s, s.channel[i]) {}
  }

  /** A broadcast is never INFO, and lies in a zone unless a probe raised it. */
  lemma BroadcastsAreInZones(c: Settings, now: Time, steps: seq<Step>, i: nat)
    requires i < |Exec(c, Initial(now), steps).channel|
    ensures var p := Exec(c, Initial(now), steps).channel[i];
            p.judgement.level != Info && (p.judgement.zone.None? ==> p.judgement.level == CriticalSensorHeat)
  {
    TablesAlwaysOk(c, now, steps);
    assert PayloadOk(Exec(c, Initial(now), steps), Exec(c, Initial(now), steps).channel[i]);
  }

  /** The steps of one evaluation nobody disturbs. */
  function Undisturbed(w: nat, job: Job, around: Surroundings): seq<Step> {
    [Accept(w, job), Record(w), Judge(w, around), Store(w), Publish(w)]
  }

  lemma ExecFive(c: Settings, s: State, a: Step, b: Step, d: Step, e: Step, f: Step)
    ensures Exec(c, s, [a, b, d, e, f]) ==
            Apply(c, Apply(c, Apply(c, Apply(c, Apply(c, s, a), b), d), e), f)
  {
    assert [a, b, d, e, f] == [a, b, d, e] + [f] && [a, b, d, e] == [a, b, d] + [e];
    assert [a, b, d] == [a, b] + [d] && [a, b] == [a] + [b];
    ExecOne(c, s, [a, b, d, e], f);
    ExecOne(c, s, [a, b, d], e);
    ExecOne(c, s, [a, b], d);
    ExecOne(c, s, [a], b);
    assert [a] == [] + [a];
    ExecOne(c, s, [], a);
  }

  /** The zone clause above is exact, at every publication of every run: a stored
      evaluation is broadcast iff a probe raised it or it is live and in a zone,
      and the broadcast names no zone iff it is the alarm of a probe that stands
      in none. */
  lemma BroadcastWithoutZoneExactly(c: Settings, now: Time, steps: seq<Step>, w: nat)
    requires var s := Exec(c, Initial(now), steps); w in s.evaluations && s.evaluations[w].Stored?
    ensures var s := Exec(c, Initial(now), steps);
            var e := s.evaluations[w];
            var t := Apply(c, s, Publish(w));
            && (|t.channel| > |s.channel| <==>
                  e.job.ProbeAlarm? || (e.judgement.zone.Some? && !e.job.report.backfilled))
            && (|t.channel| > |s.channel| ==>
                  && t.channel == s.channel + [Payload(e.id, KeyOf(e.job), e.judgement)]
                  && (e.judgement.zone.None? <==> e.job.ProbeAlarm? && e.job.reading.zone.None?))
  {
    hide Exec;
    TablesAlwaysOk(c, now, steps);
    var s := Exec(c, Initial(now), steps);
    assert EvaluationOk(s, s.evaluations[w]);
  }

  // ---------------------------------------------------------------------
  // Detections that a crash loses
  // ---------------------------------------------------------------------

  /** Some evaluator still carries this id towards a verdict. */
  ghost predicate Carried(s: State, id: nat) {
    exists w :: w in s.evaluations && Carries(s.evaluations[w], id)
  }

  ghost predicate Carries(e: Evaluation, id: nat) {
    (e.Recorded? || e.Judged?) && e.id == id
  }

  lemma VerdictsComeFromCarriers(c: Settings, s: State, step: Step, id: nat)
    requires HasVerdict(Apply(c, s, step), id)
    ensures HasVerdict(s, id) || Carried(s, id)
  {
    var t := Apply(c, s, step);
    var i :| 0 <= i < |t.verdicts| && t.verdicts[i].anomalyId == id;
    if i < |s.verdicts| {
      StepExtends(c, s, step);
      assert SameVerdict(s.verdicts[i], t.verdicts[i]);
    } else {
      assert step.Store? && Carries(s.evaluations[step.worker], id);
    }
  }

  lemma CarriersComeFromCarriers(c: Settings, s: State, step: Step, id: nat)
    requires id < s.nextId && !Carried(s, id)
    ensures !Carried(Apply(c, s, step), id)
  {
    hide Assess, IsDue, DueIds, AfterNotify, KeyOf, IsBroadcast, NewVerdict;
    var t := Apply(c, s, step);
    match step
    case Accept(w, job) => OthersCarryNothing(s, t, w, id);
    case Record(w) => OthersCarryNothing(s, t, w, id);
    case Judge(w, around) =>
      assert w in s.evaluations ==> !Carries(s.evaluations[w], id);
      OthersCarryNothing(s, t, w, id);
    case Store(w) => OthersCarryNothing(s, t, w, id);
    case Publish(w) => OthersCarryNothing(s, t, w, id);
    case Crash(w) => OthersCarryNothing(s, t, w, id);
    case _ => SameCarriers(s, t, c, step, id);
  }

  lemma SameCarriers(s: State, t: State, c: Settings, step: Step, id: nat)
    requires step.Tick? || step.Acknowledge? || step.Annotate? || step.Relay? || step.ReadDue? || step.Remind?
    requires t == Apply(c, s, step) && !Carried(s, id)
    ensures !Carried(t, id)
  {
    hide Carried, Assess, IsDue, DueIds;
    assert t.evaluations == s.evaluations;
    CarriedDependsOnEvaluations(s, t, id);
  }

  lemma CarriedDependsOnEvaluations(s: State, t: State, id: nat)
    requires t.evaluations == s.evaluations
    ensures Carried(t, id) == Carried(s, id)
  {
  }

  lemma LostStaysLostOneStep(c: Settings, s: State, step: Step, id: nat)
    requires TablesOk(s) && id in s.anomalies.Values && !HasVerdict(s, id) && !Carried(s, id)
    ensures var t := Apply(c, s, step);
            id in t.anomalies.Values && !HasVerdict(t, id) && !Carried(t, id)
  {
    var k :| k in s.anomalies && s.anomalies[k] == id;
    StepExtends(c, s, step);
    assert Apply(c, s, step).anomalies[k] == id;
    CarriersComeFromCarriers(c, s, step, id);
    if HasVerdict(Apply(c, s, step), id) {
      VerdictsComeFromCarriers(c, s, step, id);
      assert false;
    }
  }

  lemma OthersCarryNothing(s: State, t: State, w: nat, id: nat)
    requires !Carried(s, id)
    requires forall v :: v in t.evaluations && v != w ==> v in s.evaluations && t.evaluations[v] == s.evaluations[v]
    requires w in t.evaluations ==> !Carries(t.evaluations[w], id)
    ensures !Carried(t, id)
  {
    forall v | v in t.evaluations ensures !Carries(t.evaluations[v], id) {
      if v != w {
        assert !Carries(s.evaluations[v], id);
      }
    }
  }

  lemma {:induction false} LostStaysLost(c: Settings, s: State, steps: seq<Step>, id: nat)
    requires TablesOk(s) && id in s.anomalies.Values && !HasVerdict(s, id) && !Carried(s, id)
    ensures var t := Exec(c, s, steps);
            TablesOk(t) && id in t.anomalies.Values && !HasVerdict(t, id) && !Carried(t, id)
    decreases |steps|
  {
    if steps != [] {
      var before := Exec(c, s, steps[..|steps| - 1]);
      LostStaysLost(c, s, steps[..|steps| - 1], id);
      StepKeepsTables(c, before, steps[|steps| - 1]);
      LostStaysLostOneStep(c, before, steps[|steps| - 1], id);
    }
  }

  ghost predicate CanGetVerdict(c: Settings, s: State, id: nat) {
    exists later :: HasVerdict(Exec(c, s, later), id)
  }

  lemma CarriedCanBeJudged(c: Settings, s: State, id: nat)
    requires TablesOk(s) && Carried(s, id)
    ensures CanGetVerdict(c, s, id)
  {
    hide Exec, Assess;
    var w :| w in s.evaluations && Carries(s.evaluations[w], id);
    var around := Surroundings([], None, None);
    var steps := [Judge(w, around), Store(w)];
    assert steps == [Judge(w, around)] + [Store(w)] && [Judge(w, around)] == [] + [Judge(w, around)];
    ExecNone(c, s);
    ExecOne(c, s, [], Judge(w, around));
    ExecOne(c, s, [Judge(w, around)], Store(w));
    var t := Exec(c, s, steps);
    assert t.verdicts[|t.verdicts| - 1].anomalyId == id;
  }

  /** The guarantee is at most once, and exactly this far from exactly once: a
      stored detection can still get a verdict iff it has one or an evaluator
      is between its two inserts. Once that evaluator crashes, no retry helps. */
  lemma JudgeableExactlyWhileCarried(c: Settings, now: Time, steps: seq<Step>, id: nat)
    requires id in Exec(c, Initial(now), steps).anomalies.Values
    ensures var s := Exec(c, Initial(now), steps);
            CanGetVerdict(c, s, id) <==> HasVerdict(s, id) || Carried(s, id)
  {
    TablesAlwaysOk(c, now, steps);
    var s := Exec(c, Initial(now), steps);
    if HasVerdict(s, id) {
      var none: seq<Step> := [];
      assert HasVerdict(Exec(c, s, none), id);
    } else if Carried(s, id) {
      CarriedCanBeJudged(c, s, id);
    } else {
      forall later ensures !HasVerdict(Exec(c, s, later), id) {
        LostStaysLost(c, s, later, id);
      }
    }
  }

  /** A retry of a recorded detection ends as DUPLICATE and writes nothing. */
  lemma RetryOfRecordedIsDuplicate(c: Settings, s: State, w: nat, job: Job)
    requires w !in s.evaluations && KeyOf(job) in s.anomalies
    ensures Exec(c, s, [Accept(w, job), Record(w)]) == s
  {
    hide Exec;
    assert [Accept(w, job), Record(w)] == [Accept(w, job)] + [Record(w)];
    assert [Accept(w, job)] == [] + [Accept(w, job)];
    ExecNone(c, s);
    ExecOne(c, s, [Accept(w, job)], Record(w));
    ExecOne(c, s, [], Accept(w, job));
    assert s.evaluations[w := Accepted(job)] - {w} == s.evaluations;
  }

  // ---------------------------------------------------------------------
  // Acknowledgement
  // ---------------------------------------------------------------------

  datatype AcknowledgeError = NotFound

  ghost predicate HasOpenRow(rows: seq<Verdict>, id: nat) {
    exists i :: 0 <= i < |rows| && rows[i].anomalyId == id && rows[i].acknowledgedAt.None?
  }

  /** ORDER BY acknowledged_at LIMIT 1 over the acknowledged rows of one anomaly. */
  function EarliestAcknowledgement(rows: seq<Verdict>, id: nat): (t: Option<Time>)
    ensures t.None? ==> forall i :: 0 <= i < |rows| && rows[i].anomalyId == id ==> rows[i].acknowledgedAt.None?
    ensures t.Some? ==> exists i :: 0 <= i < |rows| && rows[i].anomalyId == id && rows[i].acknowledgedAt == t
    ensures t.Some? ==> forall i :: 0 <= i < |rows| && rows[i].anomalyId == id && rows[i].acknowledgedAt.Some? ==>
                                      t.value <= rows[i].acknowledgedAt.value
  {
    if rows == [] then None
    else
      var rest := EarliestAcknowledgement(rows[..|rows| - 1], id);
      var last := rows[|rows| - 1];
      if last.anomalyId != id || last.acknowledgedAt.None? then rest
      else if rest.Some? && rest.value <= last.acknowledgedAt.value then rest
      else last.acknowledgedAt
  }

  /** What the endpoint answers in a state. */
  ghost function AcknowledgeReply(s: State, id: nat): Result<Time, AcknowledgeError> {
    if HasOpenRow(s.verdicts, id) then Ok(s.now)
    else
      var first := EarliestAcknowledgement(s.verdicts, id);
      if first.Some? then Ok(first.value) else Err(NotFound)
  }

  lemma ReplyIsTheRowsTime(s: State, i: nat)
    requires VerdictsOk(s) && i < |s.verdicts| && s.verdicts[i].acknowledgedAt.Some?
    ensures AcknowledgeReply(s, s.verdicts[i].anomalyId) == Ok(s.verdicts[i].acknowledgedAt.value)
  {
    var id := s.verdicts[i].anomalyId;
    forall j | 0 <= j < |s.verdicts| && s.verdicts[j].anomalyId == id ensures j == i {
      if j < i {} else if i < j {}
    }
    var t := EarliestAcknowledgement(s.verdicts, id);
    assert t.Some?;
  }

  /** The first acknowledgement is final: whatever time it was given, every
      acknowledgement after any further run is answered with that same time,
      and only an anomaly without a verdict is answered NotFound. */
  lemma FirstAcknowledgementIsFinal(c: Settings, now: Time, before: seq<Step>, id: nat, after: seq<Step>)
    ensures var s := Exec(c, Initial(now), before);
            var reply := AcknowledgeReply(s, id);
            && (reply.Err? <==> !HasVerdict(s, id))
            && (reply.Ok? ==>
                  AcknowledgeReply(Exec(c, Apply(c, s, Acknowledge(id)), after), id) == reply)
  {
    hide Exec, Apply, AnomaliesOk, EvaluationsOk, ChannelOk, AcknowledgeReply;
    TablesAlwaysOk(c, now, before);
    var s := Exec(c, Initial(now), before);
    var t := Apply(c, s, Acknowledge(id));
    StepKeepsTables(c, s, Acknowledge(id));
    if HasVerdict(s, id) {
      var i :| 0 <= i < |s.verdicts| && s.verdicts[i].anomalyId == id;
      ReplyIsStored(c, s, i);
      TablesKeptByRun(c, t, after);
      RunExtends(c, t, after);
      var u := Exec(c, t, after);
      assert SameVerdict(t.verdicts[i], u.verdicts[i]);
      ReplyIsTheRowsTime(u, i);
    } else {
      UnknownIsNotFound(s, id);
    }
  }

  /** What is answered is what the row then says. */
  lemma ReplyIsStored(c: Settings, s: State, i: nat)
    requires VerdictsOk(s) && i < |s.verdicts|
    ensures var id := s.verdicts[i].anomalyId;
            var t := Apply(c, s, Acknowledge(id));
            && |t.verdicts| == |s.verdicts| && t.verdicts[i].anomalyId == id
            && AcknowledgeReply(s, id).Ok?
            && t.verdicts[i].acknowledgedAt == Some(AcknowledgeReply(s, id).value)
  {
    hide EarliestAcknowledgement;
    if s.verdicts[i].acknowledgedAt.Some? {
      ReplyIsTheRowsTime(s, i);
    } else {
      assert HasOpenRow(s.verdicts, s.verdicts[i].anomalyId);
    }
  }

  lemma UnknownIsNotFound(s: State, id: nat)
    requires !HasVerdict(s, id)
    ensures AcknowledgeReply(s, id).Err?
  {
  }

  /** The lookup that follows an UPDATE which found no open row. */
  ghost function LookupReply(s: State, id: nat): Result<Time, AcknowledgeError> {
    var first := EarliestAcknowledgement(s.verdicts, id);
    if first.Some? then Ok(first.value) else Err(NotFound)
  }

  /** The UPDATE and the lookup are two statements, and anything may run between
      them. The reply is nevertheless one that a single statement would have
      given, before or after what ran, and the UPDATE wrote either what that
      statement would have written or nothing. */
  lemma TwoStatementsActAsOne(c: Settings, now: Time, before: seq<Step>, id: nat, between: seq<Step>)
    ensures var s := Exec(c, Initial(now), before);
            var t := Apply(c, s, Acknowledge(id));
            var u := Exec(c, t, between);
            var reply := if HasOpenRow(s.verdicts, id) then Ok(s.now) else LookupReply(u, id);
            && (reply == AcknowledgeReply(s, id) || (t == s && reply == AcknowledgeReply(u, id)))
            && (!HasOpenRow(s.verdicts, id) ==> t == s)
  {
    hide Exec, TablesOk, HasOpenRow, HasVerdict, LookupReply, Extends;
    TablesAlwaysOk(c, now, before);
    var s := Exec(c, Initial(now), before);
    if !HasOpenRow(s.verdicts, id) {
      NothingToTake(s, id);
      TablesKeptByRun(c, s, between);
      RunExtends(c, s, between);
      if HasVerdict(s, id) {
        TakenBefore(s, Exec(c, s, between), id);
      } else {
        TakenBetween(s, Exec(c, s, between), id);
      }
    }
  }

  /** The row was taken before the UPDATE: the lookup finds the same time. */
  lemma TakenBefore(s: State, u: State, id: nat)
    requires TablesOk(s) && TablesOk(u) && Extends(s, u)
    requires HasVerdict(s, id) && !HasOpenRow(s.verdicts, id)
    ensures LookupReply(u, id) == AcknowledgeReply(s, id)
  {
    hide EvaluationsOk, ChannelOk, AnomaliesOk, EarliestAcknowledgement;
    var i :| 0 <= i < |s.verdicts| && s.verdicts[i].anomalyId == id;
    assert s.verdicts[i].acknowledgedAt.Some?;
    ReplyIsTheRowsTime(s, i);
    assert SameVerdict(s.verdicts[i], u.verdicts[i]);
    ReplyIsTheRowsTime(u, i);
    OneRowAtMost(u, i, id);
  }

  /** There was no verdict at the UPDATE: the lookup finds none taken, which is
      the reply of then, or one taken since, which is the reply of now. */
  lemma TakenBetween(s: State, u: State, id: nat)
    requires TablesOk(s) && TablesOk(u) && !HasVerdict(s, id)
    ensures LookupReply(u, id) == AcknowledgeReply(s, id) || LookupReply(u, id) == AcknowledgeReply(u, id)
  {
    hide EvaluationsOk, ChannelOk, AnomaliesOk;
    if EarliestAcknowledgement(u.verdicts, id).Some? {
      var i :| 0 <= i < |u.verdicts| && u.verdicts[i].anomalyId == id && u.verdicts[i].acknowledgedAt.Some?;
      OneRowAtMost(u, i, id);
    } else {
      assert EarliestAcknowledgement(s.verdicts, id).None?;
    }
  }

  lemma NothingToTake(s: State, id: nat)
    requires !HasOpenRow(s.verdicts, id)
    ensures s.(verdicts := AcknowledgeRows(s.verdicts, id, s.now)) == s
  {
    assert AcknowledgeRows(s.verdicts, id, s.now) == s.verdicts;
  }

  lemma OneRowAtMost(s: State, i: nat, id: nat)
    requires VerdictsOk(s) && i < |s.verdicts| && s.verdicts[i].anomalyId == id
    requires s.verdicts[i].acknowledgedAt.Some?
    ensures !HasOpenRow(s.verdicts, id)
  {
    forall j | 0 <= j < |s.verdicts| && s.verdicts[j].anomalyId == id ensures j == i {
      if j < i {} else if i < j {}
    }
  }

  lemma {:induction false} TablesKeptByRun(c: Settings, s: State, steps: seq<Step>)
    requires TablesOk(s)
    ensures TablesOk(Exec(c, s, steps))
    decreases |steps|
  {
    if steps != [] {
      TablesKeptByRun(c, s, steps[..|steps| - 1]);
      StepKeepsTables(c, Exec(c, s, steps[..|steps| - 1]), steps[|steps| - 1]);
    }
  }

  // ---------------------------------------------------------------------
  // The live history
  // ---------------------------------------------------------------------

  datatype HistoryQuery = HistoryQuery(since: Time, criticalOnly: bool, unacknowledgedOnly: bool, limit: nat)

  predicate Listed(q: HistoryQuery, row: Verdict, now: Time) {
    && row.evaluatedAt >= now - q.since
    && !row.backfilled
    && (q.criticalOnly ==> IsCritical(row.judgement.level))
    && (q.unacknowledgedOnly ==> row.acknowledgedAt.None?)
  }

  /** HISTORY_SQL: filter, newest evaluation first, at most `limit` rows. Rows
      are stored in the order of their `evaluated_at`. */
  function LiveHistory(q: HistoryQuery, rows: seq<Verdict>, now: Time, limit: nat): seq<Verdict> {
    if rows == [] || limit == 0 then []
    else
      var last := rows[|rows| - 1];
      var rest := rows[..|rows| - 1];
      if Listed(q, last, now) then [last] + LiveHistory(q, rest, now, limit - 1)
      else LiveHistory(q, rest, now, limit)
  }

  /** What the query asks for, condition by condition. */
  ghost predicate Wanted(q: HistoryQuery, row: Verdict, now: Time) {
    && now - q.since <= row.evaluatedAt
    && !row.backfilled
    && (!q.criticalOnly || "CRITICAL" <= LevelName(row.judgement.level))
    && (!q.unacknowledgedOnly || row.acknowledgedAt == None)
  }

  lemma ListedIsWanted(q: HistoryQuery, row: Verdict, now: Time)
    ensures Listed(q, row, now) <==> Wanted(q, row, now)
  {
    hide LevelName;
    CriticalIsAPrefix(row.judgement.level);
  }

  lemma {:induction false} ListedRowsOnly(q: HistoryQuery, rows: seq<Verdict>, now: Time, limit: nat)
    requires forall i, j :: 0 <= i < j < |rows| ==> rows[i].evaluatedAt <= rows[j].evaluatedAt
    ensures var h := LiveHistory(q, rows, now, limit);
            && |h| <= limit
            && (forall k :: 0 <= k < |h| ==> Listed(q, h[k], now))
            && (forall k :: 0 <= k < |h| ==> exists i :: 0 <= i < |rows| && rows[i] == h[k])
            && (forall i, j :: 0 <= i < j < |h| ==> h[i].evaluatedAt >= h[j].evaluatedAt)
    decreases |rows|
  {
    hide Listed;
    if rows != [] && limit > 0 {
      var last := rows[|rows| - 1];
      var rest := rows[..|rows| - 1];
      var below := if Listed(q, last, now) then limit - 1 else limit;
      ListedRowsOnly(q, rest, now, below);
      var g := LiveHistory(q, rest, now, below);
      var h := LiveHistory(q, rows, now, limit);
      assert h == if Listed(q, last, now) then [last] + g else g;
      forall k | 0 <= k < |g|
        ensures exists i :: 0 <= i < |rows| - 1 && rows[i] == g[k]
        ensures g[k].evaluatedAt <= last.evaluatedAt
      {
        var i :| 0 <= i < |rest| && rest[i] == g[k];
        assert rows[i] == g[k];
      }
      assert rows[|rows| - 1] == last;
    }
  }

  /** The list holds only matching rows, newest first, at most `limit`. */
  lemma LiveHistorySelects(q: HistoryQuery, rows: seq<Verdict>, now: Time, limit: nat)
    requires forall i, j :: 0 <= i < j < |rows| ==> rows[i].evaluatedAt <= rows[j].evaluatedAt
    ensures var h := LiveHistory(q, rows, now, limit);
            && |h| <= limit
            && (forall k :: 0 <= k < |h| ==> Wanted(q, h[k], now))
            && (forall k :: 0 <= k < |h| ==> exists i :: 0 <= i < |rows| && rows[i] == h[k])
            && (forall i, j :: 0 <= i < j < |h| ==> h[i].evaluatedAt >= h[j].evaluatedAt)
  {
    hide Listed, Wanted;
    ListedRowsOnly(q, rows, now, limit);
    var h := LiveHistory(q, rows, now, limit);
    forall k | 0 <= k < |h|
      ensures Wanted(q, h[k], now)
      ensures exists i :: 0 <= i < |rows| && rows[i] == h[k]
    {
      ListedIsWanted(q, h[k], now);
      var i :| 0 <= i < |rows| && rows[i] == h[k];
    }
  }

  /** A matching row is left out only when the list is full of rows at least
      as new. */
  lemma {:induction false} LiveHistoryOmitsOnlyOlder(q: HistoryQuery, rows: seq<Verdict>, now: Time, limit: nat, i: nat)
    requires forall i, j :: 0 <= i < j < |rows| ==> rows[i].evaluatedAt <= rows[j].evaluatedAt
    requires i < |rows| && Wanted(q, rows[i], now)
    ensures var h := LiveHistory(q, rows, now, limit);
            || (exists k :: 0 <= k < |h| && h[k] == rows[i])
            || (|h| == limit && forall k :: 0 <= k < |h| ==> h[k].evaluatedAt >= rows[i].evaluatedAt)
    decreases |rows|
  {
    hide Listed, Wanted;
    if limit > 0 {
      ListedIsWanted(q, rows[|rows| - 1], now);
      var last := rows[|rows| - 1];
      var rest := rows[..|rows| - 1];
      var below := if Listed(q, last, now) then limit - 1 else limit;
      var g := LiveHistory(q, rest, now, below);
      var h := LiveHistory(q, rows, now, limit);
      if i == |rows| - 1 {
        assert h == [last] + g && h[0] == rows[i];
      } else {
        LiveHistoryOmitsOnlyOlder(q, rest, now, below, i);
        assert rest[i] == rows[i];
        if Listed(q, last, now) {
          assert h == [last] + g;
          if k :| 0 <= k < |g| && g[k] == rest[i] {
            assert h[k + 1] == rows[i];
          }
        }
      }
    }
  }
}
