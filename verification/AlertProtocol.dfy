/**
 The life of an alert as a transition system: evaluators and probe alarms
 insert, judge, store and publish against shared tables; jobs are retried and
 evaluators crash; responders acknowledge; replicas page and remind through one
 Redis dedupe store. One step is one write to the database or to Redis, so every
 interleaving of the services is a sequence of steps. What a step reads besides
 the tables it writes comes in as an argument, free of any condition, so it does
 not matter whether those reads are one call or several.
 */
module AlertProtocol {
  import opened Wrappers
  import opened AlertRule

  /** Milliseconds on the clock that the database and Redis share. */
  type Time = int

  const HOUR: Time := 3_600_000
  const DEDUPE_TTL: Time := 6 * HOUR
  const MAX_REMINDER_AGE: Time := 12 * HOUR

  // ---------------------------------------------------------------------
  // Entities
  // ---------------------------------------------------------------------

  /** The columns of `uq_thermal_anomaly_detection`. */
  datatype DetectionKey = DetectionKey(source: string, longitude: real, latitude: real, acquiredAt: Time)

  datatype Report = Report(
    key: DetectionKey,
    frpMw: Option<real>,
    confidence: Confidence,
    weather: Conditions,
    backfilled: bool)

  datatype Zone = Zone(id: nat, hazardType: string)

  datatype ProbeReading = ProbeReading(
    deviceId: string,
    longitude: real,
    latitude: real,
    observedAt: Time,
    temperatureC: real,
    soilMoisturePct: Option<real>,
    zone: Option<Zone>)

  /** What a writer is working on: a satellite report or a probe that fired. */
  datatype Job = Detection(report: Report) | ProbeAlarm(reading: ProbeReading)

  function KeyOf(job: Job): DetectionKey {
    match job
    case Detection(report) => report.key
    case ProbeAlarm(p) => DetectionKey("GROUND_SENSOR:" + p.deviceId, p.longitude, p.latitude, p.observedAt)
  }

  predicate IsBackfilled(job: Job) {
    job.Detection? && job.report.backfilled
  }

  /** What the evaluator reads around a detection: the zones containing it, the
      persistence evidence at the spot, and the live probe of the first zone. */
  datatype Surroundings = Surroundings(
    zones: seq<Zone>,
    smouldering: Option<Smouldering>,
    local: Option<LocalReading>)

  datatype Judgement = Judgement(zone: Option<Zone>, level: AlertLevel, conditions: Conditions)

  function Assess(job: Job, around: Surroundings): Judgement {
    match job
    case Detection(report) =>
      var zone := if |around.zones| > 0 then Some(around.zones[0]) else None;
      var isWeak := report.frpMw.GetOr(0.0) <= SMOULDERING_MAX_FRP_MW;
      var decision := Decide(DecisionInput(
                               if zone.Some? then Some(zone.value.hazardType) else None,
                               report.confidence,
                               report.weather,
                               if zone.Some? && !report.backfilled then around.local else None,
                               if zone.Some? && isWeak then around.smouldering else None));
      Judgement(zone, decision.level, decision.conditions)
    case ProbeAlarm(p) =>
      Judgement(p.zone, CriticalSensorHeat, Conditions(p.temperatureC, p.soilMoisturePct.GetOr(0.0)))
  }

  datatype Outcome = Confirmed | NothingFound

  /** What the crew found, and when that was recorded. */
  datatype Finding = Finding(outcome: Outcome, at: Time)

  /** A row of `validated_events`. */
  datatype Verdict = Verdict(
    anomalyId: nat,
    judgement: Judgement,
    evaluatedAt: Time,
    backfilled: bool,
    acknowledgedAt: Option<Time>,
    finding: Option<Finding>)

  /** A message on the alerts channel. */
  datatype Payload = Payload(id: nat, key: DetectionKey, judgement: Judgement)

  /** The program counter of one evaluator in flight. */
  datatype Evaluation =
    | Accepted(job: Job)
    | Recorded(job: Job, id: nat)
    | Judged(job: Job, id: nat, judgement: Judgement)
    | Stored(job: Job, id: nat, judgement: Judgement)

  /** What two notifications share when they are the same news. */
  datatype News = AlertNews(id: nat) | EscalationNews(id: nat)

  /** One fan-out to the channels. `claimed` says that SET NX answered OK, and
      not that Redis failed and the service sent anyway. */
  datatype Dispatch = Dispatch(news: News, at: Time, readAt: Time, claimed: bool)

  /** The rows one sweep selected, and when. */
  datatype Sweep = Sweep(readAt: Time, due: set<nat>)

  /** `Down` is a command that failed, whether or not it took effect; a service
      without a client yet behaves as if nothing was applied. */
  datatype RedisReply = Up | Down(applied: bool)

  /** `escalateAfter` is NOTIFY_ESCALATE_MINUTES; `lag` bounds the time between
      a sweep's read and the claims it makes, zero when they are one step. */
  datatype Settings = Settings(channels: nat, escalateAfter: Time, lag: nat)

  datatype State = State(
    now: Time,
    anomalies: map<DetectionKey, nat>,
    nextId: nat,
    verdicts: seq<Verdict>,
    channel: seq<Payload>,
    evaluations: map<nat, Evaluation>,
    claims: map<News, Time>,
    sweeps: map<nat, Sweep>,
    dispatches: seq<Dispatch>)

  function Initial(now: Time): State {
    State(now, map[], 0, [], [], map[], map[], map[], [])
  }

  // ---------------------------------------------------------------------
  // Steps
  // ---------------------------------------------------------------------

  datatype Step =
    | Tick(elapsed: nat)
    | Accept(worker: nat, job: Job)
    | Record(worker: nat)
    | Judge(worker: nat, around: Surroundings)
    | Store(worker: nat)
    | Publish(worker: nat)
    | Crash(worker: nat)
    | Acknowledge(id: nat)
    | Annotate(id: nat, outcome: Outcome)
    | Relay(message: nat, reply: RedisReply)
    | ReadDue(replica: nat)
    | Remind(replica: nat, id: nat, reply: RedisReply)

  /** INSERT ... ON CONFLICT DO NOTHING RETURNING id. */
  function AfterRecord(s: State, w: nat): State {
    if w in s.evaluations && s.evaluations[w].Accepted? then
      var job := s.evaluations[w].job;
      if KeyOf(job) in s.anomalies then
        s.(evaluations := s.evaluations - {w})
      else
        s.(anomalies := s.anomalies[KeyOf(job) := s.nextId],
           nextId := s.nextId + 1,
           evaluations := s.evaluations[w := Recorded(job, s.nextId)])
    else s
  }

  function AfterJudge(s: State, w: nat, around: Surroundings): State {
    if w in s.evaluations && s.evaluations[w].Recorded? then
      var e := s.evaluations[w];
      s.(evaluations := s.evaluations[w := Judged(e.job, e.id, Assess(e.job, around))])
    else s
  }

  function NewVerdict(e: Evaluation, now: Time): Verdict
    requires e.Judged?
  {
    Verdict(e.id, e.judgement, now, IsBackfilled(e.job), None, None)
  }

  function AfterStore(s: State, w: nat): State {
    if w in s.evaluations && s.evaluations[w].Judged? then
      var e := s.evaluations[w];
      s.(verdicts := s.verdicts + [NewVerdict(e, s.now)],
         evaluations := s.evaluations[w := Stored(e.job, e.id, e.judgement)])
    else s
  }

  predicate IsBroadcast(job: Job, judgement: Judgement) {
    judgement.level != Info && !IsBackfilled(job)
  }

  function AfterPublish(s: State, w: nat): State {
    if w in s.evaluations && s.evaluations[w].Stored? then
      var e := s.evaluations[w];
      s.(channel := if IsBroadcast(e.job, e.judgement)
                    then s.channel + [Payload(e.id, KeyOf(e.job), e.judgement)] else s.channel,
         evaluations := s.evaluations - {w})
    else s
  }

  function AcknowledgeRow(row: Verdict, id: nat, now: Time): Verdict {
    if row.anomalyId == id && row.acknowledgedAt.None? then row.(acknowledgedAt := Some(now)) else row
  }

  function AcknowledgeRows(rows: seq<Verdict>, id: nat, now: Time): (r: seq<Verdict>)
    ensures |r| == |rows|
    ensures forall i :: 0 <= i < |r| ==> r[i] == AcknowledgeRow(rows[i], id, now)
  {
    seq(|rows|, i requires 0 <= i < |rows| => AcknowledgeRow(rows[i], id, now))
  }

  function AnnotateRow(row: Verdict, id: nat, finding: Finding): Verdict {
    if row.anomalyId == id then row.(finding := Some(finding)) else row
  }

  function AnnotateRows(rows: seq<Verdict>, id: nat, finding: Finding): (r: seq<Verdict>)
    ensures |r| == |rows|
    ensures forall i :: 0 <= i < |r| ==> r[i] == AnnotateRow(rows[i], id, finding)
  {
    seq(|rows|, i requires 0 <= i < |rows| => AnnotateRow(rows[i], id, finding))
  }

  /** No unexpired `notify:sent:` key stands in the way of SET NX. */
  predicate ClaimFree(s: State, news: News) {
    news !in s.claims || s.claims[news] <= s.now
  }

  /** NotificationService.notify: nothing without a channel, one dispatch when
      the claim is won, and a dispatch all the same when Redis fails. */
  function AfterNotify(c: Settings, s: State, news: News, readAt: Time, reply: RedisReply): State {
    var taken := if ClaimFree(s, news) then s.claims[news := s.now + DEDUPE_TTL] else s.claims;
    if c.channels == 0 then s
    else if reply.Up? then
      if ClaimFree(s, news) then
        s.(claims := taken, dispatches := s.dispatches + [Dispatch(news, s.now, readAt, true)])
      else s
    else
      s.(claims := if reply.applied then taken else s.claims,
         dispatches := s.dispatches + [Dispatch(news, s.now, readAt, false)])
  }

  /** The WHERE clause of the escalation sweep. */
  predicate IsDue(c: Settings, row: Verdict, now: Time) {
    && IsCritical(row.judgement.level)
    && !row.backfilled
    && row.acknowledgedAt.None?
    && row.evaluatedAt < now - c.escalateAfter
    && row.evaluatedAt >= now - MAX_REMINDER_AGE
  }

  function DueIds(c: Settings, rows: seq<Verdict>, now: Time): set<nat> {
    set i | 0 <= i < |rows| && IsDue(c, rows[i], now) :: rows[i].anomalyId
  }

  function Apply(c: Settings, s: State, step: Step): State {
    match step
    case Tick(elapsed) => s.(now := s.now + elapsed)
    case Accept(w, job) =>
      if w in s.evaluations then s else s.(evaluations := s.evaluations[w := Accepted(job)])
    case Record(w) => AfterRecord(s, w)
    case Judge(w, around) => AfterJudge(s, w, around)
    case Store(w) => AfterStore(s, w)
    case Publish(w) => AfterPublish(s, w)
    case Crash(w) => s.(evaluations := s.evaluations - {w})
    case Acknowledge(id) => s.(verdicts := AcknowledgeRows(s.verdicts, id, s.now))
    case Annotate(id, outcome) => s.(verdicts := AnnotateRows(s.verdicts, id, Finding(outcome, s.now)))
    case Relay(i, reply) =>
      if i < |s.channel| && IsCritical(s.channel[i].judgement.level)
      then AfterNotify(c, s, AlertNews(s.channel[i].id), s.now, reply) else s
    case ReadDue(r) =>
      if c.escalateAfter <= 0 then s
      else s.(sweeps := s.sweeps[r := Sweep(s.now, DueIds(c, s.verdicts, s.now))])
    case Remind(r, id, reply) =>
      if r in s.sweeps && id in s.sweeps[r].due && s.now - s.sweeps[r].readAt <= c.lag
      then AfterNotify(c, s, EscalationNews(id), s.sweeps[r].readAt, reply) else s
  }

  /** Any finite run: a step that is not enabled leaves the state alone. */
  function Exec(c: Settings, s: State, steps: seq<Step>): State
    decreases |steps|
  {
    if steps == [] then s
    else Apply(c, Exec(c, s, steps[..|steps| - 1]), steps[|steps| - 1])
  }

  lemma {:induction false} ExecConcat(c: Settings, s: State, a: seq<Step>, b: seq<Step>)
    ensures Exec(c, s, a + b) == Exec(c, Exec(c, s, a), b)
    decreases |b|
  {
    if b == [] {
      assert a + b == a;
    } else {
      assert (a + b)[..|a + b| - 1] == a + b[..|b| - 1];
      ExecConcat(c, s, a, b[..|b| - 1]);
    }
  }

  lemma ExecNone(c: Settings, s: State)
    ensures Exec(c, s, []) == s
  {
  }

  lemma ExecOne(c: Settings, s: State, steps: seq<Step>, step: Step)
    ensures Exec(c, s, steps + [step]) == Apply(c, Exec(c, s, steps), step)
  {
    assert (steps + [step])[..|steps|] == steps;
  }

  // ---------------------------------------------------------------------
  // Invariants
  // ---------------------------------------------------------------------

  ghost predicate AnomaliesOk(s: State) {
    && (forall k :: k in s.anomalies ==> s.anomalies[k] < s.nextId)
    && (forall k, l :: k in s.anomalies && l in s.anomalies && s.anomalies[k] == s.anomalies[l] ==> k == l)
  }

  ghost predicate HasVerdict(s: State, id: nat) {
    exists i :: 0 <= i < |s.verdicts| && s.verdicts[i].anomalyId == id
  }

  ghost predicate VerdictsOk(s: State) {
    && (forall i :: 0 <= i < |s.verdicts| ==>
          && s.verdicts[i].anomalyId in s.anomalies.Values
          && s.verdicts[i].evaluatedAt <= s.now)
    && (forall i, j :: 0 <= i < j < |s.verdicts| ==>
          && s.verdicts[i].anomalyId != s.verdicts[j].anomalyId
          && s.verdicts[i].evaluatedAt <= s.verdicts[j].evaluatedAt)
  }

  /** A satellite judgement is INFO exactly outside every zone and never the
      probe's own level; a probe's judgement always is. */
  ghost predicate Sound(job: Job, judgement: Judgement) {
    if job.Detection? then
      (judgement.level == Info <==> judgement.zone.None?) && judgement.level != CriticalSensorHeat
    else
      judgement.level == CriticalSensorHeat && judgement.zone == job.reading.zone
  }

  /** The verdict row that a payload or a finished evaluation speaks of. */
  ghost predicate RowFor(s: State, id: nat, judgement: Judgement, backfilled: bool) {
    exists i :: 0 <= i < |s.verdicts| && RowSays(s.verdicts[i], id, judgement, backfilled)
  }

  ghost predicate RowSays(row: Verdict, id: nat, judgement: Judgement, backfilled: bool) {
    row.anomalyId == id && row.judgement == judgement && row.backfilled == backfilled
  }

  ghost predicate OnChannel(s: State, id: nat) {
    exists i :: 0 <= i < |s.channel| && s.channel[i].id == id
  }

  ghost predicate EvaluationOk(s: State, e: Evaluation) {
    && (!e.Accepted? ==> KeyOf(e.job) in s.anomalies && s.anomalies[KeyOf(e.job)] == e.id)
    && (e.Recorded? || e.Judged? ==> !HasVerdict(s, e.id))
    && (e.Judged? || e.Stored? ==> Sound(e.job, e.judgement))
    && (e.Stored? ==> RowFor(s, e.id, e.judgement, IsBackfilled(e.job)) && !OnChannel(s, e.id))
  }

  ghost predicate EvaluationsOk(s: State) {
    && (forall w :: w in s.evaluations ==> EvaluationOk(s, s.evaluations[w]))
    && (forall w, v :: w in s.evaluations && v in s.evaluations && w != v
                       && !s.evaluations[w].Accepted? && !s.evaluations[v].Accepted?
                       ==> s.evaluations[w].id != s.evaluations[v].id)
  }

  ghost predicate PayloadOk(s: State, p: Payload) {
    && p.key in s.anomalies && s.anomalies[p.key] == p.id
    && RowFor(s, p.id, p.judgement, false)
    && p.judgement.level != Info
    && (p.judgement.zone.None? ==> p.judgement.level == CriticalSensorHeat)
  }

  ghost predicate ChannelOk(s: State) {
    && (forall i :: 0 <= i < |s.channel| ==> PayloadOk(s, s.channel[i]))
    && (forall i, j :: 0 <= i < j < |s.channel| ==> s.channel[i].id != s.channel[j].id)
  }

  ghost predicate TablesOk(s: State) {
    AnomaliesOk(s) && VerdictsOk(s) && EvaluationsOk(s) && ChannelOk(s)
  }

  /** Everything but the responder's columns. */
  ghost predicate SameVerdict(a: Verdict, b: Verdict) {
    a.(acknowledgedAt := b.acknowledgedAt, finding := b.finding) == b
  }

  /** What no step takes back: ids stay assigned, rows stay and keep their
      verdict and their acknowledgement, messages stay sent. */
  ghost predicate Extends(s: State, t: State) {
    && s.now <= t.now
    && (forall k :: k in s.anomalies ==> k in t.anomalies && t.anomalies[k] == s.anomalies[k])
    && |s.verdicts| <= |t.verdicts|
    && (forall i :: 0 <= i < |s.verdicts| ==>
          && SameVerdict(s.verdicts[i], t.verdicts[i])
          && (s.verdicts[i].acknowledgedAt.Some? ==>
                t.verdicts[i].acknowledgedAt == s.verdicts[i].acknowledgedAt))
    && s.channel <= t.channel
    && s.dispatches <= t.dispatches
  }

  lemma NotifyExtends(c: Settings, s: State, news: News, readAt: Time, reply: RedisReply)
    ensures Extends(s, AfterNotify(c, s, news, readAt, reply))
  {
  }

  lemma SameExtends(s: State)
    ensures Extends(s, s)
  {
  }

  lemma RowsExtend(s: State, rows: seq<Verdict>)
    requires |rows| == |s.verdicts|
    requires forall i :: 0 <= i < |rows| ==>
                           && SameVerdict(s.verdicts[i], rows[i])
                           && (s.verdicts[i].acknowledgedAt.Some? ==> rows[i].acknowledgedAt == s.verdicts[i].acknowledgedAt)
    ensures Extends(s, s.(verdicts := rows))
  {
  }

  lemma StepExtends(c: Settings, s: State, step: Step)
    ensures Extends(s, Apply(c, s, step))
  {
    hide Assess, IsDue, DueIds, NewVerdict, KeyOf, IsCritical, AfterNotify, AfterRecord, AfterJudge, AfterStore, AfterPublish, Extends;
    match step
    case Relay(i, reply) =>
      if i < |s.channel| {
        NotifyExtends(c, s, AlertNews(s.channel[i].id), s.now, reply);
      }
      SameExtends(s);
    case Remind(r, id, reply) =>
      if r in s.sweeps {
        NotifyExtends(c, s, EscalationNews(id), s.sweeps[r].readAt, reply);
      }
      SameExtends(s);
    case Acknowledge(id) => RowsExtend(s, AcknowledgeRows(s.verdicts, id, s.now));
    case Annotate(id, outcome) => RowsExtend(s, AnnotateRows(s.verdicts, id, Finding(outcome, s.now)));
    case _ => WorkerStepExtends(c, s, step);
  }

  lemma WorkerStepExtends(c: Settings, s: State, step: Step)
    requires !step.Relay? && !step.Remind? && !step.Acknowledge? && !step.Annotate?
    ensures Extends(s, Apply(c, s, step))
  {
    hide Assess, IsDue, DueIds, NewVerdict, KeyOf, IsBroadcast;
  }

  lemma ExtendsIsTransitive(s: State, t: State, u: State)
    requires Extends(s, t) && Extends(t, u)
    ensures Extends(s, u)
  {
    forall i | 0 <= i < |s.verdicts|
      ensures SameVerdict(s.verdicts[i], u.verdicts[i])
      ensures s.verdicts[i].acknowledgedAt.Some? ==>
                u.verdicts[i].acknowledgedAt == s.verdicts[i].acknowledgedAt
    {
      assert SameVerdict(s.verdicts[i], t.verdicts[i]) && SameVerdict(t.verdicts[i], u.verdicts[i]);
    }
  }

  lemma {:induction false} RunExtends(c: Settings, s: State, steps: seq<Step>)
    ensures Extends(s, Exec(c, s, steps))
    decreases |steps|
  {
    if steps != [] {
      var before := Exec(c, s, steps[..|steps| - 1]);
      RunExtends(c, s, steps[..|steps| - 1]);
      StepExtends(c, before, steps[|steps| - 1]);
      ExtendsIsTransitive(s, before, Exec(c, s, steps));
    }
  }

  lemma RowForKept(s: State, t: State, id: nat, judgement: Judgement, backfilled: bool)
    requires Extends(s, t) && RowFor(s, id, judgement, backfilled)
    ensures RowFor(t, id, judgement, backfilled)
  {
    var i :| 0 <= i < |s.verdicts| && RowSays(s.verdicts[i], id, judgement, backfilled);
    assert RowSays(t.verdicts[i], id, judgement, backfilled);
  }

  lemma AssessIsSound(job: Job, around: Surroundings)
    ensures Sound(job, Assess(job, around))
  {
    if job.Detection? {
      var zone := if |around.zones| > 0 then Some(around.zones[0]) else None;
      var isWeak := job.report.frpMw.GetOr(0.0) <= SMOULDERING_MAX_FRP_MW;
      DecideMeetsTheHazardTable(
        DecisionInput(
          if zone.Some? then Some(zone.value.hazardType) else None,
          job.report.confidence,
          job.report.weather,
          if zone.Some? && !job.report.backfilled then around.local else None,
          if zone.Some? && isWeak then around.smouldering else None));
    }
  }

  /** Of what is read around a detection, the judgement follows the first zone
      only; a replay from the archive ignores the live probe, and so does a
      detection in no zone; a detection over the weak limit ignores earlier
      persistence, however strong that evidence is; and a probe's alarm ignores
      all of it. */
  lemma AssessReadsOnlyWhatCounts(job: Job, around: Surroundings, other: Surroundings)
    ensures job.Detection? && around.zones != [] ==>
              Assess(job, around) == Assess(job, around.(zones := [around.zones[0]] + other.zones))
    ensures job.Detection? && (job.report.backfilled || around.zones == []) ==>
              Assess(job, around) == Assess(job, around.(local := other.local))
    ensures job.Detection? && (job.report.frpMw.GetOr(0.0) > SMOULDERING_MAX_FRP_MW || around.zones == []) ==>
              Assess(job, around) == Assess(job, around.(smouldering := other.smouldering))
    ensures job.ProbeAlarm? ==> Assess(job, around) == Assess(job, other)
  {
    hide Decide;
  }

  /** A weak detection at a spot with persistence evidence is a smouldering nest,
      and no other detection is called one. */
  lemma SmoulderingExactly(report: Report, around: Surroundings)
    ensures Assess(Detection(report), around).level == CriticalSmouldering <==>
            && around.zones != []
            && report.frpMw.GetOr(0.0) <= SMOULDERING_MAX_FRP_MW
            && around.smouldering.Some?
  {
    hide Decide, IsCredible, WindowOpen;
    var zone := if |around.zones| > 0 then Some(around.zones[0]) else None;
    var isWeak := report.frpMw.GetOr(0.0) <= SMOULDERING_MAX_FRP_MW;
    DecideMeetsTheHazardTable(
      DecisionInput(
        if zone.Some? then Some(zone.value.hazardType) else None,
        report.confidence,
        report.weather,
        if zone.Some? && !report.backfilled then around.local else None,
        if zone.Some? && isWeak then around.smouldering else None));
  }

  // ---------------------------------------------------------------------
  // What an evaluator owes a detection
  // ---------------------------------------------------------------------

  /** The value a detection is judged under: what the live probe measured, unless
      the detection is a replay, and otherwise what came with the report. */
  ghost function Ground(report: Report, measured: Option<real>, reported: real): real {
    if !report.backfilled && measured.Some? then measured.value else reported
  }

  function ProbeTemperature(around: Surroundings): Option<real> {
    if around.local.Some? then around.local.value.temperatureC else None
  }

  function ProbeMoisture(around: Surroundings): Option<real> {
    if around.local.Some? then around.local.value.soilMoisturePct else None
  }

  /** A detection in a zone is judged under the probe's values where there are
      any, and pages exactly when the hazard of the first zone says so, for a
      window of 30 degrees and 20 percent and for persistence that a detection of
      at most 5 MW confirms. Outside every zone it is INFO. */
  ghost predicate JudgedRightly(report: Report, around: Surroundings, j: Judgement) {
    if around.zones == [] then j == Judgement(None, Info, report.weather)
    else
      var t := Ground(report, ProbeTemperature(around), report.weather.temperatureC);
      var w := Ground(report, ProbeMoisture(around), report.weather.soilMoisturePct);
      var hazard := around.zones[0].hazardType;
      var open := t >= 30.0 && w < 20.0;
      var persists := report.frpMw.GetOr(0.0) <= 5.0 && around.smouldering.Some?;
      && j.zone == Some(around.zones[0])
      && j.conditions == Conditions(t, w)
      && j.level == if MustPage(hazard, open, IsCredible(report.confidence), persists)
                    then MechanismOf(hazard, open, persists) else Elevated
  }

  lemma MechanismIsCritical(hazardType: string, windowOpen: bool, smouldering: bool)
    ensures IsCritical(MechanismOf(hazardType, windowOpen, smouldering))
  {
  }

  lemma AssessJudgesRightly(report: Report, around: Surroundings)
    ensures JudgedRightly(report, around, Assess(Detection(report), around))
  {
    hide Decide, IsCredible;
    var zone := if |around.zones| > 0 then Some(around.zones[0]) else None;
    var isWeak := report.frpMw.GetOr(0.0) <= SMOULDERING_MAX_FRP_MW;
    var input := DecisionInput(
      if zone.Some? then Some(zone.value.hazardType) else None,
      report.confidence,
      report.weather,
      if zone.Some? && !report.backfilled then around.local else None,
      if zone.Some? && isWeak then around.smouldering else None);
    DecideMeetsTheHazardTable(input);
    DecisionExplainsItself(input);
  }

  /** Two alarms of probes are one detection iff device, place and time agree. */
  lemma ProbeKeysDiffer(p: ProbeReading, q: ProbeReading)
    ensures KeyOf(ProbeAlarm(p)) == KeyOf(ProbeAlarm(q)) <==>
            && p.deviceId == q.deviceId
            && p.longitude == q.longitude && p.latitude == q.latitude
            && p.observedAt == q.observedAt
  {
    var prefix := "GROUND_SENSOR:";
    assert (prefix + p.deviceId)[|prefix|..] == p.deviceId;
    assert (prefix + q.deviceId)[|prefix|..] == q.deviceId;
  }
}
