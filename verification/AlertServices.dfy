/**
 The services of the alert life cycle in their own, imperative form, each
 proved to take exactly the steps of the protocol. The database and Redis keep
 only their contracts: a unique key, set-based updates, and SET NX with expiry.
 */
module AlertServices {
  import opened Wrappers
  import opened AlertRule
  import opened AlertProtocol
  import opened AlertSafety

  datatype DeliveryStatus = Sent | Failed

  /** A row of `notification_deliveries`. */
  datatype Delivery = Delivery(news: News, channel: string, status: DeliveryStatus)

  class Database {
    var now: Time
    var anomalies: map<DetectionKey, nat>
    var nextId: nat
    var verdicts: seq<Verdict>
    var deliveries: seq<Delivery>

    constructor (now: Time)
      ensures this.now == now && anomalies == map[] && nextId == 0 && verdicts == [] && deliveries == []
    {
      this.now, anomalies, nextId, verdicts, deliveries := now, map[], 0, [], [];
    }

    /** ON CONFLICT DO NOTHING RETURNING id. */
    method InsertAnomaly(key: DetectionKey) returns (id: Option<nat>)
      modifies this`anomalies, this`nextId
      ensures id == if key in old(anomalies) then None else Some(old(nextId))
      ensures key in old(anomalies) ==> anomalies == old(anomalies) && nextId == old(nextId)
      ensures key !in old(anomalies) ==> anomalies == old(anomalies)[key := old(nextId)] && nextId == old(nextId) + 1
    {
      if key in anomalies {
        return None;
      }
      id := Some(nextId);
      anomalies := anomalies[key := nextId];
      nextId := nextId + 1;
    }

    method InsertVerdict(id: nat, judgement: Judgement, backfilled: bool)
      modifies this`verdicts
      ensures verdicts == old(verdicts) + [Verdict(id, judgement, now, backfilled, None, None)]
    {
      verdicts := verdicts + [Verdict(id, judgement, now, backfilled, None, None)];
    }

    /** The UPDATE behind acknowledging: Some when RETURNING has a row. */
    method TakeOpenRows(id: nat) returns (at: Option<Time>)
      modifies this`verdicts
      ensures verdicts == AcknowledgeRows(old(verdicts), id, now)
      ensures at == if HasOpenRow(old(verdicts), id) then Some(now) else None
    {
      var open := exists i :: 0 <= i < |verdicts| && verdicts[i].anomalyId == id && verdicts[i].acknowledgedAt.None?;
      at := if open then Some(now) else None;
      verdicts := AcknowledgeRows(verdicts, id, now);
    }
  }

  class Redis {
    var channel: seq<Payload>
    var claims: map<News, Time>

    constructor ()
      ensures channel == [] && claims == map[]
    {
      channel, claims := [], map[];
    }

    method Publish(payload: Payload)
      modifies this`channel
      ensures channel == old(channel) + [payload]
    {
      channel := channel + [payload];
    }

    /** SET key EX ttl NX: OK exactly when no unexpired key stands. */
    method SetIfAbsent(news: News, now: Time) returns (ok: bool)
      modifies this`claims
      ensures ok <==> news !in old(claims) || old(claims)[news] <= now
      ensures claims == if ok then old(claims)[news := now + DEDUPE_TTL] else old(claims)
    {
      ok := news !in claims || claims[news] <= now;
      if ok {
        claims := claims[news := now + DEDUPE_TTL];
      }
    }
  }

  /** The protocol state these objects stand for, the rest taken as given. */
  ghost function View(db: Database, redis: Redis, rest: State): State
    reads db, redis
  {
    rest.(now := db.now,
          anomalies := db.anomalies,
          nextId := db.nextId,
          verdicts := db.verdicts,
          channel := redis.channel,
          claims := redis.claims)
  }

  // ---------------------------------------------------------------------
  // Evaluation
  // ---------------------------------------------------------------------

  datatype EvaluationResult = Level(level: AlertLevel) | Duplicate | Threw

  /** The protocol steps of one evaluation whose I/O fails after `stop` steps;
      five or more means that it does not fail. */
  function EvaluationSteps(w: nat, job: Job, around: Surroundings, stop: nat): seq<Step> {
    var all := Undisturbed(w, job, around);
    if stop >= 5 then all else all[..stop] + [Crash(w)]
  }

  lemma AfterAccept(c: Settings, s: State, w: nat, job: Job)
    requires w !in s.evaluations
    ensures var t := Exec(c, s, [Accept(w, job)]);
            t == s.(evaluations := s.evaluations[w := Accepted(job)])
  {
    assert [Accept(w, job)] == [] + [Accept(w, job)];
    ExecOne(c, s, [], Accept(w, job));
  }

  // The state after each step of an evaluation whose key is new.

  function WithAccepted(s: State, w: nat, job: Job): State {
    s.(evaluations := s.evaluations[w := Accepted(job)])
  }

  function WithRecorded(s: State, w: nat, job: Job): State {
    s.(anomalies := s.anomalies[KeyOf(job) := s.nextId],
       nextId := s.nextId + 1,
       evaluations := s.evaluations[w := Recorded(job, s.nextId)])
  }

  function WithJudged(s: State, w: nat, job: Job, judgement: Judgement): State {
    WithRecorded(s, w, job).(evaluations := s.evaluations[w := Judged(job, s.nextId, judgement)])
  }

  function WithStored(s: State, w: nat, job: Job, judgement: Judgement): State {
    WithRecorded(s, w, job).(
    verdicts := s.verdicts + [Verdict(s.nextId, judgement, s.now, IsBackfilled(job), None, None)],
    evaluations := s.evaluations[w := Stored(job, s.nextId, judgement)])
  }

  function WithPublished(s: State, w: nat, job: Job, judgement: Judgement): State {
    WithStored(s, w, job, judgement).(
    channel := if IsBroadcast(job, judgement)
               then s.channel + [Payload(s.nextId, KeyOf(job), judgement)] else s.channel,
    evaluations := s.evaluations)
  }

  lemma RecordStep(s: State, w: nat, job: Job)
    requires w !in s.evaluations && KeyOf(job) !in s.anomalies
    ensures AfterRecord(WithAccepted(s, w, job), w) == WithRecorded(s, w, job)
  {
    var t := WithAccepted(s, w, job);
    assert t.evaluations[w := Recorded(job, s.nextId)] == s.evaluations[w := Recorded(job, s.nextId)];
  }

  lemma JudgeStep(s: State, w: nat, job: Job, around: Surroundings)
    ensures AfterJudge(WithRecorded(s, w, job), w, around) == WithJudged(s, w, job, Assess(job, around))
  {
    var t := WithRecorded(s, w, job);
    var judged := Judged(job, s.nextId, Assess(job, around));
    assert t.evaluations[w := judged] == s.evaluations[w := judged];
  }

  lemma StoreStep(s: State, w: nat, job: Job, judgement: Judgement)
    ensures AfterStore(WithJudged(s, w, job, judgement), w) == WithStored(s, w, job, judgement)
  {
    var t := WithJudged(s, w, job, judgement);
    var stored := Stored(job, s.nextId, judgement);
    assert t.evaluations[w := stored] == s.evaluations[w := stored];
  }

  lemma PublishStep(s: State, w: nat, job: Job, judgement: Judgement)
    requires w !in s.evaluations
    ensures AfterPublish(WithStored(s, w, job, judgement), w) == WithPublished(s, w, job, judgement)
  {
    assert WithStored(s, w, job, judgement).evaluations - {w} == s.evaluations;
  }

  function StateAfter(s: State, w: nat, job: Job, judgement: Judgement, k: nat): State {
    if k == 0 then s
    else if k == 1 then WithAccepted(s, w, job)
    else if k == 2 then WithRecorded(s, w, job)
    else if k == 3 then WithJudged(s, w, job, judgement)
    else if k == 4 then WithStored(s, w, job, judgement)
    else WithPublished(s, w, job, judgement)
  }

  lemma {:induction false} ExecPrefix(c: Settings, s: State, w: nat, job: Job, around: Surroundings, k: nat)
    requires k <= 5 && w !in s.evaluations && KeyOf(job) !in s.anomalies
    ensures Exec(c, s, Undisturbed(w, job, around)[..k]) == StateAfter(s, w, job, Assess(job, around), k)
    decreases k
  {
    hide Exec, Assess;
    var all := Undisturbed(w, job, around);
    if k == 0 {
      assert all[..0] == [];
      ExecNone(c, s);
    } else {
      ExecPrefix(c, s, w, job, around, k - 1);
      var step := all[k - 1];
      assert all[..k] == all[..k - 1] + [step];
      ExecOne(c, s, all[..k - 1], step);
      if k == 2 {
        RecordStep(s, w, job);
      } else if k == 3 {
        JudgeStep(s, w, job, around);
      } else if k == 4 {
        StoreStep(s, w, job, Assess(job, around));
      } else if k == 5 {
        PublishStep(s, w, job, Assess(job, around));
      }
    }
  }

  /** What an evaluation has written when it ends or fails after `stop` steps. */
  function Written(s: State, w: nat, job: Job, judgement: Judgement, stop: nat): State {
    if KeyOf(job) in s.anomalies then s
    else StateAfter(s, w, job, judgement, stop).(evaluations := s.evaluations)
  }

  /** The steps that do nothing for a worker with nothing in flight. */
  predicate Idle(step: Step, w: nat) {
    (step.Record? || step.Judge? || step.Store? || step.Publish? || step.Crash?) && step.worker == w
  }

  lemma {:induction false} IdleSteps(c: Settings, s: State, w: nat, steps: seq<Step>)
    requires w !in s.evaluations
    requires forall i :: 0 <= i < |steps| ==> Idle(steps[i], w)
    ensures Exec(c, s, steps) == s
    decreases |steps|
  {
    if steps != [] {
      IdleSteps(c, s, w, steps[..|steps| - 1]);
      assert s.evaluations - {w} == s.evaluations;
    }
  }

  /** An evaluation of a recorded key changes nothing, wherever it ends. */
  lemma DuplicateEvaluation(c: Settings, s: State, w: nat, job: Job, around: Surroundings, stop: nat)
    requires w !in s.evaluations && KeyOf(job) in s.anomalies
    ensures Exec(c, s, EvaluationSteps(w, job, around, stop)) == s
  {
    hide Exec;
    var all := Undisturbed(w, job, around);
    if stop == 0 {
      assert all[..0] + [Crash(w)] == [Crash(w)];
      IdleSteps(c, s, w, [Crash(w)]);
    } else if stop == 1 {
      AfterAccept(c, s, w, job);
      assert all[..1] == [Accept(w, job)];
      ExecOne(c, s, [Accept(w, job)], Crash(w));
      assert s.evaluations[w := Accepted(job)] - {w} == s.evaluations;
    } else {
      var tail := [Judge(w, around), AlertProtocol.Store(w), AlertProtocol.Publish(w)];
      var rest := if stop >= 5 then tail else tail[..stop - 2] + [Crash(w)];
      assert EvaluationSteps(w, job, around, stop) == [Accept(w, job), Record(w)] + rest;
      RetryOfRecordedIsDuplicate(c, s, w, job);
      ExecConcat(c, s, [Accept(w, job), Record(w)], rest);
      IdleSteps(c, s, w, rest);
    }
  }

  lemma FreshEvaluation(c: Settings, s: State, w: nat, job: Job, around: Surroundings, stop: nat)
    requires w !in s.evaluations && KeyOf(job) !in s.anomalies
    ensures Exec(c, s, EvaluationSteps(w, job, around, stop)) == Written(s, w, job, Assess(job, around), stop)
  {
    hide Exec, Assess;
    var all := Undisturbed(w, job, around);
    var judgement := Assess(job, around);
    if stop >= 5 {
      ExecPrefix(c, s, w, job, around, 5);
      assert all[..5] == all;
    } else {
      ExecPrefix(c, s, w, job, around, stop);
      ExecOne(c, s, all[..stop], Crash(w));
      assert StateAfter(s, w, job, judgement, stop).evaluations - {w} == s.evaluations;
    }
  }

  /** Interrupted or not, an evaluation leaves exactly what it had written. */
  lemma EvaluationWrites(c: Settings, s: State, w: nat, job: Job, around: Surroundings, stop: nat)
    requires w !in s.evaluations
    ensures Exec(c, s, EvaluationSteps(w, job, around, stop)) == Written(s, w, job, Assess(job, around), stop)
  {
    if KeyOf(job) in s.anomalies {
      DuplicateEvaluation(c, s, w, job, around, stop);
    } else {
      FreshEvaluation(c, s, w, job, around, stop);
    }
  }

  lemma InfoMeansNoZone(report: Report, around: Surroundings, j: Judgement)
    requires JudgedRightly(report, around, j)
    ensures j.level == Info <==> around.zones == []
  {
  }

  class AnomalyEvaluationService {
    const db: Database
    const redis: Redis

    constructor (db: Database, redis: Redis)
      ensures this.db == db && this.redis == redis
    {
      this.db, this.redis := db, redis;
    }

    /** The zone, the evidence and the probe that count, then the decision. */
    method JudgeDetection(report: Report, around: Surroundings) returns (judgement: Judgement)
      ensures judgement == Assess(Detection(report), around)
      ensures JudgedRightly(report, around, judgement)
    {
      AssessJudgesRightly(report, around);
      var zone := if |around.zones| > 0 then Some(around.zones[0]) else None;
      var currentIsWeak := report.frpMw.GetOr(0.0) <= SMOULDERING_MAX_FRP_MW;
      var smouldering := if zone.Some? && currentIsWeak then around.smouldering else None;
      var local := if zone.Some? && !report.backfilled then around.local else None;
      var hazardType := if zone.Some? then Some(zone.value.hazardType) else None;
      var decision := Decide(DecisionInput(hazardType, report.confidence, report.weather, local, smouldering));
      judgement := Judgement(zone, decision.level, decision.conditions);
    }

    /** One detection report end to end. `around` is what the reads return and
        `stop` when the I/O first throws; the ghost arguments say which worker
        this is and what else is in flight. */
    method Evaluate(report: Report, around: Surroundings, stop: nat, ghost c: Settings, ghost w: nat, ghost rest: State)
      returns (r: EvaluationResult)
      requires w !in rest.evaluations
      modifies db, redis
      ensures View(db, redis, rest) ==
              Exec(c, old(View(db, redis, rest)), EvaluationSteps(w, Detection(report), around, stop))
      ensures r == Duplicate <==> stop >= 2 && report.key in old(db.anomalies)
      ensures r.Level? <==> stop >= 5 && report.key !in old(db.anomalies)
      ensures var isNew := report.key !in old(db.anomalies);
              && (isNew && stop >= 2 ==>
                    && db.anomalies == old(db.anomalies)[report.key := old(db.nextId)]
                    && db.nextId == old(db.nextId) + 1)
              && (!isNew || stop < 2 ==> db.anomalies == old(db.anomalies) && db.nextId == old(db.nextId))
              && (isNew && stop >= 4 ==>
                    && |db.verdicts| == |old(db.verdicts)| + 1
                    && db.verdicts[..|old(db.verdicts)|] == old(db.verdicts)
                    && var row := db.verdicts[|old(db.verdicts)|];
                       && row == Verdict(old(db.nextId), row.judgement, db.now, report.backfilled, None, None)
                       && JudgedRightly(report, around, row.judgement)
                       && (r.Level? ==> r.level == row.judgement.level)
                       && redis.channel ==
                          old(redis.channel) + if stop >= 5 && around.zones != [] && !report.backfilled
                                               then [Payload(old(db.nextId), report.key, row.judgement)] else [])
              && (!isNew || stop < 4 ==> db.verdicts == old(db.verdicts) && redis.channel == old(redis.channel))
      ensures db.now == old(db.now) && db.deliveries == old(db.deliveries) && redis.claims == old(redis.claims)
    {
      hide Exec, Assess, EvaluationSteps, Extends, JudgedRightly, Decide, Undisturbed, HasVerdict;
      ghost var before := View(db, redis, rest);
      ghost var job := Detection(report);
      EvaluationWrites(c, before, w, job, around, stop);

      if stop <= 1 {
        return Threw;
      }
      var inserted := db.InsertAnomaly(report.key);
      if inserted.None? {
        return Duplicate;
      }
      var id := inserted.value;
      if stop == 2 {
        return Threw;
      }

      var judgement := JudgeDetection(report, around);
      InfoMeansNoZone(report, around, judgement);
      if stop == 3 {
        return Threw;
      }

      db.InsertVerdict(id, judgement, report.backfilled);
      if stop == 4 {
        return Threw;
      }

      if judgement.level != Info && !report.backfilled {
        redis.Publish(Payload(id, report.key, judgement));
      }
      return Level(judgement.level);
    }
  }

  class SensorAlertService {
    const db: Database
    const redis: Redis

    constructor (db: Database, redis: Redis)
      ensures this.db == db && this.redis == redis
    {
      this.db, this.redis := db, redis;
    }

    /** A probe that fired: the second writer of anomalies and verdicts. It
        judges without reading, so its third step never fails by itself. */
    method Raise(reading: ProbeReading, stop: nat, ghost c: Settings, ghost w: nat, ghost around: Surroundings, ghost rest: State)
      requires w !in rest.evaluations
      modifies db, redis
      ensures View(db, redis, rest) ==
              Exec(c, old(View(db, redis, rest)), EvaluationSteps(w, ProbeAlarm(reading), around, stop))
      ensures var key := DetectionKey("GROUND_SENSOR:" + reading.deviceId,
                                      reading.longitude, reading.latitude, reading.observedAt);
              var isNew := key !in old(db.anomalies);
              var judgement := Judgement(reading.zone, CriticalSensorHeat,
                                         Conditions(reading.temperatureC, reading.soilMoisturePct.GetOr(0.0)));
              && db.anomalies == (if isNew && stop >= 2 then old(db.anomalies)[key := old(db.nextId)] else old(db.anomalies))
              && db.nextId == old(db.nextId) + (if isNew && stop >= 2 then 1 else 0)
              && db.verdicts ==
                 old(db.verdicts) + (if isNew && stop >= 4
                                     then [Verdict(old(db.nextId), judgement, db.now, false, None, None)] else [])
              && redis.channel ==
                 old(redis.channel) + (if isNew && stop >= 5 then [Payload(old(db.nextId), key, judgement)] else [])
      ensures db.now == old(db.now) && db.deliveries == old(db.deliveries) && redis.claims == old(redis.claims)
    {
      hide Exec, EvaluationSteps, Undisturbed, Decide, Extends;
      ghost var before := View(db, redis, rest);
      ghost var job := ProbeAlarm(reading);
      var key := DetectionKey("GROUND_SENSOR:" + reading.deviceId, reading.longitude, reading.latitude, reading.observedAt);
      EvaluationWrites(c, before, w, job, around, stop);

      if stop <= 1 {
        return;
      }
      var soil := reading.soilMoisturePct.GetOr(0.0);
      var inserted := db.InsertAnomaly(key);
      if inserted.None? || stop <= 3 {
        return;
      }
      var judgement := Judgement(reading.zone, CriticalSensorHeat, Conditions(reading.temperatureC, soil));
      db.InsertVerdict(inserted.value, judgement, false);
      if stop == 4 {
        return;
      }
      redis.Publish(Payload(inserted.value, key, judgement));
    }
  }

  // ---------------------------------------------------------------------
  // Acknowledgement
  // ---------------------------------------------------------------------

  class AlertHistoryService {
    const db: Database

    constructor (db: Database)
      ensures this.db == db
    {
      this.db := db;
    }

    method Acknowledge(id: nat, ghost c: Settings, ghost redis: Redis, ghost rest: State)
      returns (reply: Result<Time, AcknowledgeError>)
      modifies db
      ensures View(db, redis, rest) == Apply(c, old(View(db, redis, rest)), AlertProtocol.Acknowledge(id))
      ensures reply == AcknowledgeReply(old(View(db, redis, rest)), id)
      ensures HasOpenRow(old(db.verdicts), id) ==> reply == Ok(db.now)
      ensures db.now == old(db.now) && |db.verdicts| == |old(db.verdicts)|
      ensures forall i :: 0 <= i < |db.verdicts| ==>
                            var row := old(db.verdicts)[i];
                            db.verdicts[i] == if row.anomalyId == id && row.acknowledgedAt.None?
                                              then row.(acknowledgedAt := Some(db.now)) else row
      ensures db.deliveries == old(db.deliveries)
    {
      ghost var rows := db.verdicts;
      var taken := db.TakeOpenRows(id);
      if taken.Some? {
        return Ok(taken.value);
      }
      // Nothing updated: the rows are as they were.
      assert forall i :: 0 <= i < |rows| ==> db.verdicts[i] == rows[i];
      assert db.verdicts == rows;
      var existing := EarliestAcknowledgement(db.verdicts, id);
      if existing.Some? {
        return Ok(existing.value);
      }
      return Err(NotFound);
    }

    /** Outcomes may be corrected; acknowledgements are untouched. */
    method SetOutcome(id: nat, outcome: Outcome, ghost c: Settings, ghost redis: Redis, ghost rest: State)
      returns (reply: Result<(), AcknowledgeError>)
      modifies db
      ensures View(db, redis, rest) == Apply(c, old(View(db, redis, rest)), Annotate(id, outcome))
      ensures reply.Ok? <==> HasVerdict(old(View(db, redis, rest)), id)
      ensures db.now == old(db.now) && |db.verdicts| == |old(db.verdicts)|
      ensures forall i :: 0 <= i < |db.verdicts| ==>
                            var row := old(db.verdicts)[i];
                            db.verdicts[i] == if row.anomalyId == id
                                              then row.(finding := Some(Finding(outcome, db.now))) else row
    {
      var found := exists i :: 0 <= i < |db.verdicts| && db.verdicts[i].anomalyId == id;
      db.verdicts := AnnotateRows(db.verdicts, id, Finding(outcome, db.now));
      reply := if found then Ok(()) else Err(NotFound);
    }
  }

  // ---------------------------------------------------------------------
  // Notification
  // ---------------------------------------------------------------------

  const MAX_ATTEMPTS: nat := 3

  datatype Severity = InfoNews | WarningNews | CriticalNews

  function Rank(severity: Severity): nat {
    match severity
    case InfoNews => 0
    case WarningNews => 1
    case CriticalNews => 2
  }

  /** The configured floor; a text that names no severity is no floor at all. */
  function FloorOf(minSeverity: string): nat {
    if minSeverity == "critical" then 2 else if minSeverity == "warning" then 1 else 0
  }

  predicate MeetsSeverityFloor(severity: Severity, minSeverity: string) {
    Rank(severity) >= FloorOf(minSeverity)
  }

  /** No configuration mutes an alarm, and none but these two texts mutes
      anything. */
  lemma CriticalNewsIsNeverMuted(severity: Severity, minSeverity: string)
    ensures MeetsSeverityFloor(CriticalNews, minSeverity)
    ensures !MeetsSeverityFloor(severity, minSeverity) ==> minSeverity in {"warning", "critical"}
  {
  }

  /** Every number below n, once. */
  ghost predicate IsOrderOf(order: seq<nat>, n: nat) {
    && |order| == n
    && (forall k :: 0 <= k < n ==> order[k] < n)
    && (forall j, k :: 0 <= j < k < n ==> order[j] != order[k])
  }

  /** How many sends one delivery makes when attempt i succeeds iff sends[i]:
      up to the first success, three at most. */
  function SendsMade(sends: seq<bool>): (n: nat)
    requires |sends| == MAX_ATTEMPTS
    ensures 1 <= n <= 3 == |sends|
    ensures forall i :: 0 <= i < n - 1 ==> !sends[i]
    ensures sends[n - 1] || n == 3
  {
    if sends[0] then 1 else if sends[1] then 2 else 3
  }

  class NotificationService {
    const db: Database
    const redis: Redis
    /** The channels this deployment configured. */
    const channels: seq<string>
    const minSeverity: string
    ghost var dispatches: seq<Dispatch>

    constructor (db: Database, redis: Redis, channels: seq<string>, minSeverity: string)
      ensures this.db == db && this.redis == redis && this.channels == channels
      ensures this.minSeverity == minSeverity && dispatches == []
    {
      this.db, this.redis, this.channels, this.minSeverity := db, redis, channels, minSeverity;
      dispatches := [];
    }

    /** At most three sends on one channel, none after the first that succeeds, and
        exactly one delivery row, which says `sent` iff one did. */
    method Deliver(channel: string, news: News, sends: seq<bool>) returns (attempts: nat)
      requires |sends| == MAX_ATTEMPTS
      modifies db`deliveries
      ensures attempts == SendsMade(sends)
      ensures db.deliveries == old(db.deliveries) + [Delivery(news, channel, if true in sends then Sent else Failed)]
    {
      attempts := 0;
      while attempts < MAX_ATTEMPTS
        invariant attempts <= MAX_ATTEMPTS
        invariant forall i :: 0 <= i < attempts ==> !sends[i]
        invariant db.deliveries == old(db.deliveries)
      {
        attempts := attempts + 1;
        if sends[attempts - 1] {
          db.deliveries := db.deliveries + [Delivery(news, channel, Sent)];
          return;
        }
      }
      db.deliveries := db.deliveries + [Delivery(news, channel, Failed)];
    }

    /** Of the replicas that ask while the key stands free, the first wins; one whose
        command fails acts as if it had. */
    method Claim(news: News, reply: RedisReply) returns (ok: bool)
      modifies redis`claims
      ensures var free := news !in old(redis.claims) || old(redis.claims)[news] <= db.now;
              && (ok <==> reply.Down? || free)
              && redis.claims == if free && (reply.Up? || reply.applied)
                                 then old(redis.claims)[news := db.now + DEDUPE_TTL] else old(redis.claims)
    {
      ok := true;
      if reply.Up? {
        ok := redis.SetIfAbsent(news, db.now);
      } else if reply.applied {
        var _ := redis.SetIfAbsent(news, db.now);
      }
    }

    /** Alarms and reminders, which are critical news. Every configured channel
        gets its one delivery iff the claim was won; the channels work at the
        same time, and `order` says in which order they finish. */
    method Notify(news: News, readAt: Time, reply: RedisReply, sends: seq<seq<bool>>, order: seq<nat>,
                  ghost c: Settings, ghost rest: State)
      returns (dispatched: bool)
      requires c.channels == |channels| == |sends| && IsOrderOf(order, |channels|)
      requires forall k :: 0 <= k < |sends| ==> |sends[k]| == MAX_ATTEMPTS
      modifies this, redis`claims, db`deliveries
      ensures View(db, redis, rest.(dispatches := dispatches)) ==
              AfterNotify(c, old(View(db, redis, rest.(dispatches := dispatches))), news, readAt, reply)
      ensures dispatched <==>
              channels != [] && (reply.Down? || news !in old(redis.claims) || old(redis.claims)[news] <= db.now)
      ensures dispatches == old(dispatches) + if dispatched then [Dispatch(news, db.now, readAt, reply.Up?)] else []
      ensures redis.claims == old(redis.claims) || redis.claims == old(redis.claims)[news := db.now + 21_600_000]
      ensures dispatched && reply.Up? ==> redis.claims == old(redis.claims)[news := db.now + 21_600_000]
      ensures !dispatched ==> db.deliveries == old(db.deliveries)
      ensures dispatched ==>
                && |db.deliveries| == |old(db.deliveries)| + |channels|
                && db.deliveries[..|old(db.deliveries)|] == old(db.deliveries)
                && forall k :: 0 <= k < |channels| ==>
                     db.deliveries[|old(db.deliveries)| + k] ==
                     Delivery(news, channels[order[k]], if true in sends[order[k]] then Sent else Failed)
    {
      CriticalNewsIsNeverMuted(CriticalNews, minSeverity);
      if !MeetsSeverityFloor(CriticalNews, minSeverity) {
        return false;
      }
      if |channels| == 0 {
        return false;
      }
      var claimed := Claim(news, reply);
      if !claimed {
        return false;
      }
      dispatches := dispatches + [Dispatch(news, db.now, readAt, reply.Up?)];
      ghost var before := db.deliveries;
      for k := 0 to |channels|
        modifies db`deliveries
        invariant |db.deliveries| == |before| + k
        invariant db.deliveries[..|before|] == before
        invariant forall j :: 0 <= j < k ==>
                                db.deliveries[|before| + j] ==
                                Delivery(news, channels[order[j]], if true in sends[order[j]] then Sent else Failed)
      {
        var _ := Deliver(channels[order[k]], news, sends[order[k]]);
      }
      return true;
    }

    /** A message on the alerts channel becomes news only at a critical level. */
    method OnAlert(message: nat, reply: RedisReply, sends: seq<seq<bool>>, order: seq<nat>,
                   ghost c: Settings, ghost rest: State)
      requires message < |redis.channel|
      requires c.channels == |channels| == |sends| && IsOrderOf(order, |channels|)
      requires forall k :: 0 <= k < |sends| ==> |sends[k]| == MAX_ATTEMPTS
      modifies this, redis`claims, db`deliveries
      ensures View(db, redis, rest.(dispatches := dispatches)) ==
              Apply(c, old(View(db, redis, rest.(dispatches := dispatches))), Relay(message, reply))
      ensures var p := redis.channel[message];
              var news := AlertNews(p.id);
              var told := "CRITICAL_" <= LevelName(p.judgement.level) && channels != []
                          && (reply.Down? || news !in old(redis.claims) || old(redis.claims)[news] <= db.now);
              && dispatches == old(dispatches) + (if told then [Dispatch(news, db.now, db.now, reply.Up?)] else [])
              && (told ==>
                    && |db.deliveries| == |old(db.deliveries)| + |channels|
                    && db.deliveries[..|old(db.deliveries)|] == old(db.deliveries)
                    && forall k :: 0 <= k < |channels| ==>
                         db.deliveries[|old(db.deliveries)| + k] ==
                         Delivery(news, channels[order[k]], if true in sends[order[k]] then Sent else Failed))
              && (!told ==> db.deliveries == old(db.deliveries))
    {
      hide AfterNotify, IsOrderOf, LevelName;
      var payload := redis.channel[message];
      CriticalIsAPrefix(payload.judgement.level);
      if IsCritical(payload.judgement.level) {
        var _ := Notify(AlertNews(payload.id), db.now, reply, sends, order, c, rest);
      }
    }
  }

  // ---------------------------------------------------------------------
  // Escalation
  // ---------------------------------------------------------------------

  /** The WHERE clause of the sweep, condition by condition. */
  predicate SweepSelects(row: Verdict, escalateAfter: Time, now: Time) {
    && "CRITICAL" <= LevelName(row.judgement.level)
    && !row.backfilled
    && row.acknowledgedAt.None?
    && row.evaluatedAt < now - escalateAfter
    && row.evaluatedAt >= now - 43_200_000
  }

  lemma DueExactly(c: Settings, row: Verdict, now: Time)
    ensures IsDue(c, row, now) <==> SweepSelects(row, c.escalateAfter, now)
  {
    hide LevelName;
    CriticalIsAPrefix(row.judgement.level);
  }

  /** Where the due rows stand, in the order of `evaluated_at`, which is the
      order of the rows. */
  function DuePositions(c: Settings, rows: seq<Verdict>, now: Time): (due: seq<nat>)
    ensures forall k :: 0 <= k < |due| ==> due[k] < |rows| && IsDue(c, rows[due[k]], now)
    ensures forall j, k :: 0 <= j < k < |due| ==> due[j] < due[k]
    ensures forall i :: 0 <= i < |rows| && IsDue(c, rows[i], now) ==> i in due
  {
    if rows == [] then []
    else
      var n := |rows| - 1;
      var before := DuePositions(c, rows[..n], now);
      assert forall i :: 0 <= i < n ==> rows[..n][i] == rows[i];
      if IsDue(c, rows[n], now) then before + [n] else before
  }

  /** Exactly the rows that the WHERE clause selects. */
  lemma DuePositionsExactly(c: Settings, rows: seq<Verdict>, now: Time)
    ensures var due := DuePositions(c, rows, now);
            && (forall k :: 0 <= k < |due| ==> due[k] < |rows| && SweepSelects(rows[due[k]], c.escalateAfter, now))
            && (forall i :: 0 <= i < |rows| && SweepSelects(rows[i], c.escalateAfter, now) ==> i in due)
  {
    hide IsDue, SweepSelects;
    forall i | 0 <= i < |rows| ensures IsDue(c, rows[i], now) <==> SweepSelects(rows[i], c.escalateAfter, now) {
      DueExactly(c, rows[i], now);
    }
  }

  /** The ids of the due rows, in that order. */
  function SelectDue(c: Settings, rows: seq<Verdict>, now: Time): (ids: seq<nat>)
    ensures |ids| == |DuePositions(c, rows, now)|
    ensures forall k :: 0 <= k < |ids| ==> ids[k] == rows[DuePositions(c, rows, now)[k]].anomalyId
  {
    var due := DuePositions(c, rows, now);
    seq(|due|, k requires 0 <= k < |due| => rows[due[k]].anomalyId)
  }

  lemma SelectDueIsDueIds(c: Settings, rows: seq<Verdict>, now: Time)
    ensures forall id :: id in SelectDue(c, rows, now) <==> id in DueIds(c, rows, now)
  {
    hide IsDue;
    var due := DuePositions(c, rows, now);
    var ids := SelectDue(c, rows, now);
    forall id | id in DueIds(c, rows, now) ensures id in ids {
      var i :| 0 <= i < |rows| && IsDue(c, rows[i], now) && rows[i].anomalyId == id;
      var k :| 0 <= k < |due| && due[k] == i;
      assert ids[k] == id;
    }
    forall id | id in ids ensures id in DueIds(c, rows, now) {
      var k :| 0 <= k < |ids| && ids[k] == id;
      assert rows[due[k]].anomalyId == id;
    }
  }

  /** The first n reminders of a sweep, each after the time its predecessor's
      deliveries took. */
  function RemindSteps(replica: nat, ids: seq<nat>, replies: seq<RedisReply>, delays: seq<nat>, n: nat): seq<Step>
    requires |ids| == |replies| == |delays| && n <= |ids|
  {
    if n == 0 then []
    else RemindSteps(replica, ids, replies, delays, n - 1)
         + [Tick(delays[n - 1])] + [Remind(replica, ids[n - 1], replies[n - 1])]
  }

  function TotalDelay(delays: seq<nat>, n: nat): (t: nat)
    requires n <= |delays|
  {
    if n == 0 then 0 else TotalDelay(delays, n - 1) + delays[n - 1]
  }

  lemma {:induction false} TotalDelayGrows(delays: seq<nat>, m: nat, n: nat)
    requires m <= n <= |delays|
    ensures TotalDelay(delays, m) <= TotalDelay(delays, n)
    decreases n
  {
    if m < n {
      TotalDelayGrows(delays, m, n - 1);
    }
  }

  lemma NextDelay(delays: seq<nat>, n: nat)
    requires n < |delays|
    ensures TotalDelay(delays, n + 1) == TotalDelay(delays, n) + delays[n] <= TotalDelay(delays, |delays|)
  {
    TotalDelayGrows(delays, n + 1, |delays|);
  }

  lemma NothingRemindedYet(replica: nat, ids: seq<nat>, replies: seq<RedisReply>, delays: seq<nat>)
    requires |ids| == |replies| == |delays|
    ensures [ReadDue(replica)] + RemindSteps(replica, ids, replies, delays, 0) == [ReadDue(replica)]
    ensures TotalDelay(delays, 0) == 0
  {
  }

  /** From some dispatch on, one was the reminder for this alert. */
  ghost predicate Reminded(dispatches: seq<Dispatch>, from: nat, id: nat, readAt: Time) {
    exists d :: from <= d < |dispatches| && dispatches[d].news == EscalationNews(id) && dispatches[d].readAt == readAt
  }

  /** No unexpired key of this alert's reminder stands. */
  ghost predicate Unclaimed(claims: map<News, Time>, id: nat, now: Time) {
    EscalationNews(id) !in claims || claims[EscalationNews(id)] <= now
  }

  /** From some dispatch on, all are reminders for these alerts. */
  ghost predicate OnlyReminders(dispatches: seq<Dispatch>, from: nat, ids: seq<nat>, readAt: Time) {
    forall d :: from <= d < |dispatches| ==>
                  dispatches[d].news.EscalationNews? && dispatches[d].news.id in ids && dispatches[d].readAt == readAt
  }

  lemma RemindedStays(dispatches: seq<Dispatch>, more: seq<Dispatch>, from: nat, id: nat, readAt: Time)
    requires Reminded(dispatches, from, id, readAt)
    ensures Reminded(dispatches + more, from, id, readAt)
  {
    var d :| from <= d < |dispatches| && dispatches[d].news == EscalationNews(id) && dispatches[d].readAt == readAt;
    assert (dispatches + more)[d] == dispatches[d];
  }

  lemma RemindedNow(dispatches: seq<Dispatch>, d: Dispatch, from: nat, id: nat)
    requires from <= |dispatches| && d.news == EscalationNews(id)
    ensures Reminded(dispatches + [d], from, id, d.readAt)
  {
    assert (dispatches + [d])[|dispatches|] == d;
  }

  /** A sweep's whole effect on who is told: every alert the WHERE clause selects,
      unless its key still stands, and nobody else. */
  ghost predicate IsSelected(rows: seq<Verdict>, escalateAfter: Time, now: Time, id: nat) {
    exists i :: 0 <= i < |rows| && SweepSelects(rows[i], escalateAfter, now) && rows[i].anomalyId == id
  }

  ghost predicate RemindsWhoIsDue(rows: seq<Verdict>, escalateAfter: Time, now: Time, claims: map<News, Time>,
                                  before: seq<Dispatch>, after: seq<Dispatch>) {
    && before <= after
    && (forall d :: |before| <= d < |after| ==>
                      after[d].news.EscalationNews? && IsSelected(rows, escalateAfter, now, after[d].news.id))
    && (forall id :: IsSelected(rows, escalateAfter, now, id) && Unclaimed(claims, id, now) ==>
                       Reminded(after, |before|, id, now))
  }

  lemma DueAreReminded(c: Settings, rows: seq<Verdict>, now: Time, due: seq<nat>, claims: map<News, Time>,
                       before: seq<Dispatch>, after: seq<Dispatch>)
    requires due == SelectDue(c, rows, now) && before <= after
    requires OnlyReminders(after, |before|, due, now)
    requires forall k :: 0 <= k < |due| && Unclaimed(claims, due[k], now) ==> Reminded(after, |before|, due[k], now)
    ensures RemindsWhoIsDue(rows, c.escalateAfter, now, claims, before, after)
  {
    hide SweepSelects, Unclaimed, Reminded, IsSelected, SelectDue;
    forall d | |before| <= d < |after| ensures IsSelected(rows, c.escalateAfter, now, after[d].news.id) {
      SelectedExactly(c, rows, now, after[d].news.id);
    }
    forall id | IsSelected(rows, c.escalateAfter, now, id) && Unclaimed(claims, id, now)
      ensures Reminded(after, |before|, id, now)
    {
      SelectedExactly(c, rows, now, id);
      var k :| 0 <= k < |due| && due[k] == id;
    }
  }

  /** The ids a sweep goes through are those of the rows the clause selects. */
  lemma SelectedExactly(c: Settings, rows: seq<Verdict>, now: Time, id: nat)
    ensures id in SelectDue(c, rows, now) <==> IsSelected(rows, c.escalateAfter, now, id)
  {
    hide SweepSelects;
    DuePositionsExactly(c, rows, now);
    var due := SelectDue(c, rows, now);
    var positions := DuePositions(c, rows, now);
    if id in due {
      var k :| 0 <= k < |due| && due[k] == id;
      assert rows[positions[k]].anomalyId == id;
    }
    if IsSelected(rows, c.escalateAfter, now, id) {
      var i :| 0 <= i < |rows| && SweepSelects(rows[i], c.escalateAfter, now) && rows[i].anomalyId == id;
      var k :| 0 <= k < |positions| && positions[k] == i;
      assert due[k] == id;
    }
  }

  /** What one more reminder adds to the account of the sweep. */
  lemma ReminderAdded(before: seq<Dispatch>, after: seq<Dispatch>, channels: seq<string>, held: map<News, Time>,
                      claims: map<News, Time>, first: nat, due: seq<nat>, i: nat, readAt: Time, now: Time, reply: RedisReply)
    requires i < |due| && first <= |before| && readAt <= now && channels != []
    requires var news := EscalationNews(due[i]);
             after == before + if reply.Down? || news !in held || held[news] <= now
                               then [Dispatch(news, now, readAt, reply.Up?)] else []
    requires due[i] !in due[..i] ==>
               (EscalationNews(due[i]) in held ==>
                  EscalationNews(due[i]) in claims && held[EscalationNews(due[i])] == claims[EscalationNews(due[i])])
    requires forall k :: 0 <= k < i && Unclaimed(claims, due[k], readAt) ==> Reminded(before, first, due[k], readAt)
    ensures forall k :: 0 <= k <= i && Unclaimed(claims, due[k], readAt) ==> Reminded(after, first, due[k], readAt)
  {
    hide Reminded;
    forall k | 0 <= k <= i && Unclaimed(claims, due[k], readAt) ensures Reminded(after, first, due[k], readAt) {
      if due[k] in due[..i] {
        var j :| 0 <= j < i && due[j] == due[k];
        RemindedStays(before, after[|before|..], first, due[k], readAt);
        assert after == before + after[|before|..];
      } else {
        assert k == i;
        RemindedNow(before, Dispatch(EscalationNews(due[i]), now, readAt, reply.Up?), first, due[i]);
      }
    }
  }

  class EscalationService {
    const db: Database
    const notifications: NotificationService
    /** NOTIFY_ESCALATE_MINUTES in milliseconds; not positive switches it off. */
    const escalateAfter: Time

    constructor (db: Database, notifications: NotificationService, escalateAfter: Time)
      requires notifications.db == db
      ensures this.db == db && this.notifications == notifications && this.escalateAfter == escalateAfter
    {
      this.db, this.notifications, this.escalateAfter := db, notifications, escalateAfter;
    }

    /** The loop body: time passes, then one reminder is sent or suppressed. */
    method RemindNext(id: nat, readAt: Time, delay: nat, reply: RedisReply, sends: seq<seq<bool>>, order: seq<nat>,
                      ghost c: Settings, ghost replica: nat, ghost swept: State)
      requires notifications.db == db && c.channels == |notifications.channels| == |sends|
      requires IsOrderOf(order, |notifications.channels|)
      requires forall k :: 0 <= k < |sends| ==> |sends[k]| == MAX_ATTEMPTS
      requires replica in swept.sweeps && id in swept.sweeps[replica].due && swept.sweeps[replica].readAt == readAt
      requires db.now + delay - readAt <= c.lag
      modifies notifications, notifications.redis`claims, db`deliveries, db`now
      ensures db.now == old(db.now) + delay
      ensures var n := notifications;
              View(db, n.redis, swept.(dispatches := n.dispatches)) ==
              Apply(c, Apply(c, old(View(db, n.redis, swept.(dispatches := n.dispatches))), Tick(delay)),
                    Remind(replica, id, reply))
      ensures var n := notifications;
              var news := EscalationNews(id);
              var sent := n.channels != []
                          && (reply.Down? || news !in old(n.redis.claims) || old(n.redis.claims)[news] <= db.now);
              && n.dispatches == old(n.dispatches) + (if sent then [Dispatch(news, db.now, readAt, reply.Up?)] else [])
              && forall other :: other != news ==>
                   && (other in n.redis.claims <==> other in old(n.redis.claims))
                   && (other in n.redis.claims ==> n.redis.claims[other] == old(n.redis.claims)[other])
    {
      hide AfterNotify, IsOrderOf;
      ghost var n := notifications;
      ghost var before := View(db, n.redis, swept.(dispatches := n.dispatches));
      RemindNotifies(c, Apply(c, before, Tick(delay)), replica, id, reply);
      db.now := db.now + delay;
      assert View(db, n.redis, swept.(dispatches := n.dispatches)) == Apply(c, before, Tick(delay));
      var _ := notifications.Notify(EscalationNews(id), readAt, reply, sends, order, c, swept);
    }

    /** The loop over the rows of one sweep, while the clock runs on. */
    method RemindAll(due: seq<nat>, readAt: Time, replies: seq<RedisReply>, sends: seq<seq<seq<bool>>>,
                     orders: seq<seq<nat>>, delays: seq<nat>,
                     ghost c: Settings, ghost replica: nat, ghost swept: State, ghost start: State)
      requires notifications.db == db && c.channels == |notifications.channels|
      requires |orders| == |sends| == |replies| == |delays| == |due|
      requires forall i :: 0 <= i < |orders| ==> IsOrderOf(orders[i], |notifications.channels|)
      requires forall i :: 0 <= i < |sends| ==>
                             && |sends[i]| == |notifications.channels|
                             && forall k :: 0 <= k < |sends[i]| ==> |sends[i][k]| == MAX_ATTEMPTS
      requires db.now == readAt && TotalDelay(delays, |delays|) <= c.lag
      requires replica in swept.sweeps && swept.sweeps[replica].readAt == readAt
      requires forall i :: 0 <= i < |due| ==> due[i] in swept.sweeps[replica].due
      requires var n := notifications;
               View(db, n.redis, swept.(dispatches := n.dispatches)) == Exec(c, start, [ReadDue(replica)])
      modifies notifications, notifications.redis`claims, db`deliveries, db`now
      ensures var n := notifications;
              View(db, n.redis, swept.(dispatches := n.dispatches)) ==
              Exec(c, start, [ReadDue(replica)] + RemindSteps(replica, due, replies, delays, |due|))
      ensures old(notifications.dispatches) <= notifications.dispatches
      ensures notifications.channels == [] ==> notifications.dispatches == old(notifications.dispatches)
      ensures OnlyReminders(notifications.dispatches, |old(notifications.dispatches)|, due, readAt)
      ensures notifications.channels != [] ==>
                forall k :: 0 <= k < |due| && Unclaimed(old(notifications.redis.claims), due[k], readAt) ==>
                              Reminded(notifications.dispatches, |old(notifications.dispatches)|, due[k], readAt)
    {
      hide Exec, Apply, RemindSteps, IsOrderOf, TotalDelay, View, Reminded;
      ghost var n := notifications;
      ghost var claims := n.redis.claims;
      ghost var first := |n.dispatches|;
      NothingRemindedYet(replica, due, replies, delays);
      for i := 0 to |due|
        invariant View(db, n.redis, swept.(dispatches := n.dispatches)) ==
                  Exec(c, start, [ReadDue(replica)] + RemindSteps(replica, due, replies, delays, i))
        invariant db.now == readAt + TotalDelay(delays, i)
        invariant old(n.dispatches) <= n.dispatches
        invariant n.channels == [] ==> n.dispatches == old(n.dispatches)
        invariant OnlyReminders(n.dispatches, first, due, readAt)
        invariant forall id :: id !in due[..i] ==>
                                 (EscalationNews(id) in n.redis.claims <==> EscalationNews(id) in claims)
                                 && (EscalationNews(id) in claims ==>
                                       n.redis.claims[EscalationNews(id)] == claims[EscalationNews(id)])
        invariant n.channels != [] ==>
                    forall k :: 0 <= k < i && Unclaimed(claims, due[k], readAt) ==> Reminded(n.dispatches, first, due[k], readAt)
      {
        SweepContinues(c, start, replica, due, replies, delays, i);
        NextDelay(delays, i);
        ghost var before := n.dispatches;
        ghost var held := n.redis.claims;
        RemindNext(due[i], readAt, delays[i], replies[i], sends[i], orders[i], c, replica, swept);
        if n.channels != [] {
          ReminderAdded(before, n.dispatches, n.channels, held, claims, first, due, i, readAt, db.now, replies[i]);
        }
      }
    }

    /** One sweep reads the due rows and reminds for each of them in turn, while
        the clock runs on: `delays` is how long each reminder is in coming. */
    method Sweep(replies: seq<RedisReply>, sends: seq<seq<seq<bool>>>, orders: seq<seq<nat>>, delays: seq<nat>,
                 ghost c: Settings, ghost replica: nat, ghost rest: State)
      requires notifications.db == db
      requires c.escalateAfter == escalateAfter && c.channels == |notifications.channels|
      requires |orders| == |sends| == |replies| == |delays| == |SelectDue(c, db.verdicts, db.now)|
      requires TotalDelay(delays, |delays|) <= c.lag
      requires forall i :: 0 <= i < |orders| ==> IsOrderOf(orders[i], |notifications.channels|)
      requires forall i :: 0 <= i < |sends| ==>
                             && |sends[i]| == |notifications.channels|
                             && forall k :: 0 <= k < |sends[i]| ==> |sends[i][k]| == MAX_ATTEMPTS
      modifies notifications, notifications.redis`claims, db`deliveries, db`now
      ensures var n := notifications;
              var due := SelectDue(c, old(db.verdicts), old(db.now));
              var sweeps := if escalateAfter <= 0 then rest.sweeps
                            else rest.sweeps[replica := AlertProtocol.Sweep(old(db.now), DueIds(c, db.verdicts, old(db.now)))];
              View(db, n.redis, rest.(dispatches := n.dispatches, sweeps := sweeps)) ==
              Exec(c, old(View(db, n.redis, rest.(dispatches := n.dispatches))),
                   [ReadDue(replica)]
                   + if escalateAfter <= 0 then [] else RemindSteps(replica, due, replies, delays, |due|))
      ensures if escalateAfter <= 0 || notifications.channels == []
              then notifications.dispatches == old(notifications.dispatches)
              else RemindsWhoIsDue(old(db.verdicts), escalateAfter, old(db.now), old(notifications.redis.claims),
                                   old(notifications.dispatches), notifications.dispatches)
    {
      hide Exec, SelectDue, DuePositions, AfterNotify, RemindSteps, DueIds, IsDue, IsOrderOf, TotalDelay, Apply;
      hide RemindsWhoIsDue, OnlyReminders, Reminded, Unclaimed;
      ghost var n := notifications;
      ghost var start := View(db, n.redis, rest.(dispatches := n.dispatches));
      SweepBegins(c, start, replica);
      if escalateAfter <= 0 {
        assert [ReadDue(replica)] + [] == [ReadDue(replica)];
        return;
      }
      var readAt := db.now;
      var due := SelectDue(Settings(0, escalateAfter, 0), db.verdicts, readAt);
      SelectDueIgnoresChannels(c, Settings(0, escalateAfter, 0), db.verdicts, readAt);
      SelectDueIsDueIds(c, db.verdicts, readAt);
      ghost var sweep := AlertProtocol.Sweep(readAt, DueIds(c, db.verdicts, readAt));
      ghost var swept := rest.(sweeps := rest.sweeps[replica := sweep]);
      ghost var claims := n.redis.claims;
      ghost var before := n.dispatches;
      RemindAll(due, readAt, replies, sends, orders, delays, c, replica, swept, start);
      if n.channels != [] {
        DueAreReminded(c, old(db.verdicts), readAt, due, claims, before, n.dispatches);
      }
    }
  }

  lemma SweepBegins(c: Settings, s: State, replica: nat)
    ensures Exec(c, s, [ReadDue(replica)]) ==
            if c.escalateAfter <= 0 then s
            else s.(sweeps := s.sweeps[replica := AlertProtocol.Sweep(s.now, DueIds(c, s.verdicts, s.now))])
  {
    assert [ReadDue(replica)] == [] + [ReadDue(replica)];
    ExecOne(c, s, [], ReadDue(replica));
  }

  lemma SweepContinues(c: Settings, s: State, replica: nat, ids: seq<nat>, replies: seq<RedisReply>, delays: seq<nat>, i: nat)
    requires |ids| == |replies| == |delays| && i < |ids|
    ensures Exec(c, s, [ReadDue(replica)] + RemindSteps(replica, ids, replies, delays, i + 1)) ==
            Apply(c, Apply(c, Exec(c, s, [ReadDue(replica)] + RemindSteps(replica, ids, replies, delays, i)),
                           Tick(delays[i])), Remind(replica, ids[i], replies[i]))
  {
    hide Exec, Apply;
    var before := [ReadDue(replica)] + RemindSteps(replica, ids, replies, delays, i);
    assert [ReadDue(replica)] + RemindSteps(replica, ids, replies, delays, i + 1)
        == (before + [Tick(delays[i])]) + [Remind(replica, ids[i], replies[i])];
    ExecOne(c, s, before, Tick(delays[i]));
    ExecOne(c, s, before + [Tick(delays[i])], Remind(replica, ids[i], replies[i]));
  }

  lemma RemindNotifies(c: Settings, s: State, replica: nat, id: nat, reply: RedisReply)
    requires replica in s.sweeps && id in s.sweeps[replica].due && s.now - s.sweeps[replica].readAt <= c.lag
    ensures Apply(c, s, Remind(replica, id, reply)) ==
            AfterNotify(c, s, EscalationNews(id), s.sweeps[replica].readAt, reply)
  {
  }

  lemma {:induction false} DuePositionsIgnoreChannels(c: Settings, d: Settings, rows: seq<Verdict>, now: Time)
    requires c.escalateAfter == d.escalateAfter
    ensures DuePositions(c, rows, now) == DuePositions(d, rows, now)
    decreases |rows|
  {
    if rows != [] {
      DuePositionsIgnoreChannels(c, d, rows[..|rows| - 1], now);
    }
  }

  lemma SelectDueIgnoresChannels(c: Settings, d: Settings, rows: seq<Verdict>, now: Time)
    requires c.escalateAfter == d.escalateAfter
    ensures SelectDue(c, rows, now) == SelectDue(d, rows, now)
  {
    DuePositionsIgnoreChannels(c, d, rows, now);
  }
}
