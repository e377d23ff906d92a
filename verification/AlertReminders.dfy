/**
 How often a crew is told: the Redis dedupe key bounds dispatches across all
 replicas, the escalation window bounds reminders, and backfilled history is
 never told at all.
 */
module AlertReminders {
  import opened Wrappers
  import opened AlertRule
  import opened AlertProtocol
  import opened AlertSafety

  // ---------------------------------------------------------------------
  // One dispatch per key and six hours
  // ---------------------------------------------------------------------

  /** When a piece of news was dispatched under a claim it had won. */
  function ClaimedTimes(dispatches: seq<Dispatch>, news: News): seq<Time> {
    if dispatches == [] then []
    else
      var earlier := ClaimedTimes(dispatches[..|dispatches| - 1], news);
      var last := dispatches[|dispatches| - 1];
      if last.news == news && last.claimed then earlier + [last.at] else earlier
  }

  lemma ClaimedTimesAppend(dispatches: seq<Dispatch>, d: Dispatch, news: News)
    ensures ClaimedTimes(dispatches + [d], news) ==
            ClaimedTimes(dispatches, news) + if d.news == news && d.claimed then [d.at] else []
  {
    assert (dispatches + [d])[..|dispatches|] == dispatches;
  }

  lemma {:induction false} ClaimedTimesAreDispatches(dispatches: seq<Dispatch>, news: News, k: nat)
    requires k < |ClaimedTimes(dispatches, news)|
    ensures exists i :: 0 <= i < |dispatches| && dispatches[i].news == news && dispatches[i].claimed
                        && dispatches[i].at == ClaimedTimes(dispatches, news)[k]
    decreases |dispatches|
  {
    var front := dispatches[..|dispatches| - 1];
    if k < |ClaimedTimes(front, news)| {
      ClaimedTimesAreDispatches(front, news, k);
      var i :| 0 <= i < |front| && front[i].news == news && front[i].claimed
               && front[i].at == ClaimedTimes(front, news)[k];
      assert dispatches[i] == front[i];
    } else {
      assert dispatches[|dispatches| - 1].at == ClaimedTimes(dispatches, news)[k];
    }
  }

  ghost predicate Spaced(times: seq<Time>) {
    forall i, j :: 0 <= i < j < |times| ==> times[i] + (j - i) * DEDUPE_TTL <= times[j]
  }

  /** The store remembers the last claimed dispatch for as long as it counts. */
  ghost predicate ClaimsOk(s: State, news: News) {
    var times := ClaimedTimes(s.dispatches, news);
    && Spaced(times)
    && (|times| > 0 ==> news in s.claims && times[|times| - 1] + DEDUPE_TTL <= s.claims[news])
  }

  lemma SpacedAppend(times: seq<Time>, at: Time)
    requires Spaced(times)
    requires |times| > 0 ==> times[|times| - 1] + DEDUPE_TTL <= at
    ensures Spaced(times + [at])
  {
    var n := |times|;
    forall i | 0 <= i < n ensures times[i] + (n - i) * DEDUPE_TTL <= at {
      assert i < n - 1 ==> times[i] + (n - 1 - i) * DEDUPE_TTL <= times[n - 1];
    }
  }

  lemma NotifyKeepsClaims(c: Settings, s: State, sent: News, readAt: Time, reply: RedisReply, news: News)
    requires ClaimsOk(s, news)
    ensures ClaimsOk(AfterNotify(c, s, sent, readAt, reply), news)
  {
    hide ClaimedTimes, Spaced;
    var times := ClaimedTimes(s.dispatches, news);
    ClaimedTimesAppend(s.dispatches, Dispatch(sent, s.now, readAt, reply.Up?), news);
    assert times + [] == times;
    if sent == news && reply.Up? && ClaimFree(s, sent) {
      SpacedAppend(times, s.now);
    }
  }

  lemma ClaimsOkDependsOnTheStore(s: State, t: State, news: News)
    requires ClaimsOk(s, news) && t.dispatches == s.dispatches && t.claims == s.claims
    ensures ClaimsOk(t, news)
  {
  }

  lemma InitialClaimsOk(now: Time, news: News)
    ensures ClaimsOk(Initial(now), news)
  {
  }

  lemma StepKeepsClaims(c: Settings, s: State, step: Step, news: News)
    requires ClaimsOk(s, news)
    ensures ClaimsOk(Apply(c, s, step), news)
  {
    hide ClaimsOk, ClaimedTimes, Assess, AfterNotify;
    match step
    case Relay(i, reply) =>
      if i < |s.channel| {
        NotifyKeepsClaims(c, s, AlertNews(s.channel[i].id), s.now, reply, news);
      }
    case Remind(r, id, reply) =>
      if r in s.sweeps {
        NotifyKeepsClaims(c, s, EscalationNews(id), s.sweeps[r].readAt, reply, news);
      }
    case _ => ClaimsOkDependsOnTheStore(s, Apply(c, s, step), news);
  }

  lemma {:induction false} ClaimsAlwaysOk(c: Settings, now: Time, steps: seq<Step>, news: News)
    ensures ClaimsOk(Exec(c, Initial(now), steps), news)
    decreases |steps|
  {
    hide ClaimsOk, Apply;
    if steps == [] {
      InitialClaimsOk(now, news);
    } else {
      ClaimsAlwaysOk(c, now, steps[..|steps| - 1], news);
      StepKeepsClaims(c, Exec(c, Initial(now), steps[..|steps| - 1]), steps[|steps| - 1], news);
    }
  }

  /** Across all replicas, and however often they fail open in between, two
      dispatches of the same news that won their claim are six hours apart. */
  lemma SameNewsAtMostOncePerTtl(c: Settings, now: Time, steps: seq<Step>, news: News)
    ensures var times := ClaimedTimes(Exec(c, Initial(now), steps).dispatches, news);
            forall i, j :: 0 <= i < j < |times| ==> times[i] + 6 * 3_600_000 <= times[j]
  {
    hide Exec, Apply, ClaimedTimes;
    ClaimsAlwaysOk(c, now, steps, news);
    var times := ClaimedTimes(Exec(c, Initial(now), steps).dispatches, news);
    forall i, j | 0 <= i < j < |times| ensures times[i] + DEDUPE_TTL <= times[j] {
      assert times[i] + (j - i) * DEDUPE_TTL <= times[j];
    }
  }

  // ---------------------------------------------------------------------
  // What a reminder or a page rests on
  // ---------------------------------------------------------------------

  /** The row was due at `t`, and nobody had taken it then. */
  ghost predicate WasDue(c: Settings, row: Verdict, id: nat, t: Time) {
    && row.anomalyId == id
    && IsCritical(row.judgement.level)
    && !row.backfilled
    && t - MAX_REMINDER_AGE <= row.evaluatedAt < t - c.escalateAfter
    && (row.acknowledgedAt.Some? ==> t <= row.acknowledgedAt.value)
  }

  ghost predicate Eligible(c: Settings, s: State, id: nat, t: Time) {
    c.escalateAfter > 0 && t <= s.now && exists i :: 0 <= i < |s.verdicts| && WasDue(c, s.verdicts[i], id, t)
  }

  ghost predicate CriticalOnChannel(s: State, id: nat) {
    exists i :: 0 <= i < |s.channel| && s.channel[i].id == id && IsCritical(s.channel[i].judgement.level)
  }

  ghost predicate DispatchOk(c: Settings, s: State, d: Dispatch) {
    && c.channels > 0
    && match d.news
       case AlertNews(id) => CriticalOnChannel(s, id)
       case EscalationNews(id) => Eligible(c, s, id, d.readAt) && d.readAt <= d.at <= d.readAt + c.lag
  }

  ghost predicate NewsOk(c: Settings, s: State) {
    && (forall i :: 0 <= i < |s.dispatches| ==> DispatchOk(c, s, s.dispatches[i]))
    && (forall r :: r in s.sweeps ==> forall id :: id in s.sweeps[r].due ==> Eligible(c, s, id, s.sweeps[r].readAt))
  }

  /** Rows may only become acknowledged at the current time. */
  ghost predicate TakenNow(s: State, t: State) {
    forall i :: 0 <= i < |s.verdicts| <= |t.verdicts| && s.verdicts[i].acknowledgedAt.None? ==>
                  t.verdicts[i].acknowledgedAt.Some? ==> t.verdicts[i].acknowledgedAt.value == s.now
  }

  lemma EligibleKept(c: Settings, s: State, t: State, id: nat, at: Time)
    requires Extends(s, t) && TakenNow(s, t) && Eligible(c, s, id, at)
    ensures Eligible(c, t, id, at)
  {
    var i :| 0 <= i < |s.verdicts| && WasDue(c, s.verdicts[i], id, at);
    assert SameVerdict(s.verdicts[i], t.verdicts[i]);
    assert WasDue(c, t.verdicts[i], id, at);
  }

  lemma DispatchesKept(c: Settings, s: State, t: State)
    requires Extends(s, t) && TakenNow(s, t) && NewsOk(c, s)
    ensures forall i :: 0 <= i < |s.dispatches| ==> DispatchOk(c, t, s.dispatches[i])
    ensures forall r :: r in s.sweeps ==> forall id :: id in s.sweeps[r].due ==> Eligible(c, t, id, s.sweeps[r].readAt)
  {
    forall i | 0 <= i < |s.dispatches| ensures DispatchOk(c, t, s.dispatches[i]) {
      var d := s.dispatches[i];
      assert DispatchOk(c, s, d);
      if d.news.AlertNews? {
        var k :| 0 <= k < |s.channel| && s.channel[k].id == d.news.id && IsCritical(s.channel[k].judgement.level);
        assert t.channel[k] == s.channel[k];
      } else {
        EligibleKept(c, s, t, d.news.id, d.readAt);
      }
    }
    forall r, id | r in s.sweeps && id in s.sweeps[r].due ensures Eligible(c, t, id, s.sweeps[r].readAt) {
      EligibleKept(c, s, t, id, s.sweeps[r].readAt);
    }
  }

  lemma NewDispatchOk(c: Settings, s: State, news: News, readAt: Time, reply: RedisReply)
    requires NewsOk(c, s)
    requires c.channels > 0 ==> DispatchOk(c, s, Dispatch(news, s.now, readAt, true))
    ensures NewsOk(c, AfterNotify(c, s, news, readAt, reply))
  {
    var t := AfterNotify(c, s, news, readAt, reply);
    assert t.verdicts == s.verdicts && t.channel == s.channel && t.now == s.now && t.sweeps == s.sweeps;
    DispatchesKept(c, s, t);
    if |t.dispatches| > |s.dispatches| {
      var d := t.dispatches[|s.dispatches|];
      assert DispatchOk(c, s, Dispatch(news, s.now, readAt, true));
      assert DispatchOk(c, t, d);
    }
  }

  lemma ReadDueKeepsNews(c: Settings, s: State, r: nat)
    requires NewsOk(c, s)
    ensures NewsOk(c, Apply(c, s, ReadDue(r)))
  {
    var t := Apply(c, s, ReadDue(r));
    DispatchesKept(c, s, t);
    if c.escalateAfter > 0 {
      forall id | id in DueIds(c, s.verdicts, s.now) ensures Eligible(c, t, id, s.now) {
        var i :| 0 <= i < |s.verdicts| && IsDue(c, s.verdicts[i], s.now) && s.verdicts[i].anomalyId == id;
        assert WasDue(c, t.verdicts[i], id, s.now);
      }
    }
  }

  lemma StepTakesNow(c: Settings, s: State, step: Step)
    ensures TakenNow(s, Apply(c, s, step))
  {
  }

  lemma StepKeepsNews(c: Settings, s: State, step: Step)
    requires NewsOk(c, s)
    ensures NewsOk(c, Apply(c, s, step))
  {
    match step
    case Relay(i, reply) =>
      if i < |s.channel| && IsCritical(s.channel[i].judgement.level) {
        assert CriticalOnChannel(s, s.channel[i].id);
        NewDispatchOk(c, s, AlertNews(s.channel[i].id), s.now, reply);
      }
    case ReadDue(r) => ReadDueKeepsNews(c, s, r);
    case Remind(r, id, reply) =>
      if r in s.sweeps && id in s.sweeps[r].due && s.now - s.sweeps[r].readAt <= c.lag {
        NewDispatchOk(c, s, EscalationNews(id), s.sweeps[r].readAt, reply);
      }
    case _ =>
      var t := Apply(c, s, step);
      StepExtends(c, s, step);
      StepTakesNow(c, s, step);
      DispatchesKept(c, s, t);
      assert t.dispatches == s.dispatches && t.sweeps == s.sweeps;
  }

  lemma {:induction false} NewsAlwaysOk(c: Settings, now: Time, steps: seq<Step>)
    ensures NewsOk(c, Exec(c, Initial(now), steps))
    decreases |steps|
  {
    if steps != [] {
      NewsAlwaysOk(c, now, steps[..|steps| - 1]);
      StepKeepsNews(c, Exec(c, Initial(now), steps[..|steps| - 1]), steps[|steps| - 1]);
    }
  }

  // ---------------------------------------------------------------------
  // Reminders per alert
  // ---------------------------------------------------------------------

  /** How often a piece of news went out, claimed or sent because Redis failed. */
  function Sent(dispatches: seq<Dispatch>, news: News): nat {
    if dispatches == [] then 0
    else Sent(dispatches[..|dispatches| - 1], news) + if dispatches[|dispatches| - 1].news == news then 1 else 0
  }

  function Reminders(s: State, id: nat): nat {
    Sent(s.dispatches, EscalationNews(id))
  }

  lemma SentAppend(dispatches: seq<Dispatch>, d: Dispatch, news: News)
    ensures Sent(dispatches + [d], news) == Sent(dispatches, news) + if d.news == news then 1 else 0
  {
    assert (dispatches + [d])[..|dispatches|] == dispatches;
  }

  lemma TheRow(s: State, i: nat, j: nat)
    requires VerdictsOk(s) && i < |s.verdicts| && j < |s.verdicts|
    ensures s.verdicts[i].anomalyId == s.verdicts[j].anomalyId ==> i == j
  {
    if i < j {} else if j < i {}
  }

  /** The n-th claimed reminder needs n-1 full dedupe periods inside the eligible
      life of the alert, widened by the lag between a sweep's read and its claim. */
  lemma RemindersFitTheWindow(c: Settings, now: Time, steps: seq<Step>, id: nat)
    ensures var n := |ClaimedTimes(Exec(c, Initial(now), steps).dispatches, EscalationNews(id))|;
            n > 0 ==> (n - 1) * DEDUPE_TTL < MAX_REMINDER_AGE - c.escalateAfter + c.lag
  {
    hide Exec, ClaimedTimes, Apply;
    var s := Exec(c, Initial(now), steps);
    var times := ClaimedTimes(s.dispatches, EscalationNews(id));
    if |times| > 0 {
      TablesAlwaysOk(c, now, steps);
      NewsAlwaysOk(c, now, steps);
      ClaimsAlwaysOk(c, now, steps, EscalationNews(id));
      var n := |times| - 1;
      ClaimedTimesAreDispatches(s.dispatches, EscalationNews(id), 0);
      ClaimedTimesAreDispatches(s.dispatches, EscalationNews(id), n);
      var a :| 0 <= a < |s.dispatches| && s.dispatches[a].news == EscalationNews(id) && s.dispatches[a].at == times[0];
      var b :| 0 <= b < |s.dispatches| && s.dispatches[b].news == EscalationNews(id) && s.dispatches[b].at == times[n];
      assert DispatchOk(c, s, s.dispatches[a]) && DispatchOk(c, s, s.dispatches[b]);
      var i :| 0 <= i < |s.verdicts| && WasDue(c, s.verdicts[i], id, s.dispatches[a].readAt);
      var j :| 0 <= j < |s.verdicts| && WasDue(c, s.verdicts[j], id, s.dispatches[b].readAt);
      TheRow(s, i, j);
      assert n > 0 ==> times[0] + (n - 0) * DEDUPE_TTL <= times[n];
    }
  }

  /** Taking an alert stops its reminders: none is dispatched later than the
      acknowledgement plus that lag. */
  lemma NoReminderAfterAcknowledgement(c: Settings, now: Time, steps: seq<Step>, i: nat, d: nat)
    requires var s := Exec(c, Initial(now), steps);
             && i < |s.verdicts| && d < |s.dispatches|
             && s.verdicts[i].acknowledgedAt.Some?
             && s.dispatches[d].news == EscalationNews(s.verdicts[i].anomalyId)
    ensures var s := Exec(c, Initial(now), steps);
            s.dispatches[d].at <= s.verdicts[i].acknowledgedAt.value + c.lag
  {
    var s := Exec(c, Initial(now), steps);
    TablesAlwaysOk(c, now, steps);
    NewsAlwaysOk(c, now, steps);
    assert DispatchOk(c, s, s.dispatches[d]);
    var j :| 0 <= j < |s.verdicts| && WasDue(c, s.verdicts[j], s.verdicts[i].anomalyId, s.dispatches[d].readAt);
    TheRow(s, i, j);
  }

  // ---------------------------------------------------------------------
  // Runs in which Redis answers the reminders
  // ---------------------------------------------------------------------

  /** No reminder meets a failing Redis. */
  ghost predicate RedisAnswers(steps: seq<Step>) {
    forall i :: 0 <= i < |steps| && steps[i].Remind? ==> steps[i].reply.Up?
  }

  ghost predicate RemindersClaimed(s: State, id: nat) {
    forall d :: 0 <= d < |s.dispatches| && s.dispatches[d].news == EscalationNews(id) ==> s.dispatches[d].claimed
  }

  lemma AnsweredStepClaims(c: Settings, s: State, step: Step, id: nat)
    requires RemindersClaimed(s, id) && (step.Remind? ==> step.reply.Up?)
    ensures RemindersClaimed(Apply(c, s, step), id)
  {
    hide Assess, DueIds, IsDue, KeyOf;
  }

  lemma {:induction false} AnsweredRunClaims(c: Settings, now: Time, steps: seq<Step>, id: nat)
    requires RedisAnswers(steps)
    ensures RemindersClaimed(Exec(c, Initial(now), steps), id)
    decreases |steps|
  {
    hide Apply, RemindersClaimed;
    if steps == [] {
      NothingSentAtFirst(now, id);
    } else {
      var front := steps[..|steps| - 1];
      AnsweredRunClaims(c, now, front, id);
      AnsweredStepClaims(c, Exec(c, Initial(now), front), steps[|steps| - 1], id);
    }
  }

  lemma NothingSentAtFirst(now: Time, id: nat)
    ensures RemindersClaimed(Initial(now), id)
  {
  }

  lemma {:induction false} ClaimedAreSent(dispatches: seq<Dispatch>, news: News)
    requires forall d :: 0 <= d < |dispatches| && dispatches[d].news == news ==> dispatches[d].claimed
    ensures Sent(dispatches, news) == |ClaimedTimes(dispatches, news)|
    decreases |dispatches|
  {
    if dispatches != [] {
      ClaimedAreSent(dispatches[..|dispatches| - 1], news);
    }
  }

  /** Settings under which a reminder is sent at all. */
  predicate Escalates(c: Settings) {
    c.channels > 0 && 0 < c.escalateAfter < MAX_REMINDER_AGE
  }

  lemma NoRemindersAtAll(c: Settings, now: Time, steps: seq<Step>, id: nat)
    requires !Escalates(c)
    ensures Reminders(Exec(c, Initial(now), steps), id) == 0
  {
    hide Exec, Apply;
    var s := Exec(c, Initial(now), steps);
    NewsAlwaysOk(c, now, steps);
    forall d | 0 <= d < |s.dispatches| ensures s.dispatches[d].news != EscalationNews(id) {
      assert DispatchOk(c, s, s.dispatches[d]);
    }
    NoneSent(s.dispatches, EscalationNews(id));
  }

  lemma {:induction false} NoneSent(dispatches: seq<Dispatch>, news: News)
    requires forall d :: 0 <= d < |dispatches| ==> dispatches[d].news != news
    ensures Sent(dispatches, news) == 0
    decreases |dispatches|
  {
    if dispatches != [] {
      NoneSent(dispatches[..|dispatches| - 1], news);
    }
  }

  // ---------------------------------------------------------------------
  // A run with as many reminders as fit
  // ---------------------------------------------------------------------

  function DepotReport(): Report {
    Report(DetectionKey("VIIRS_SNPP_NRT", 16.2, 47.8, 0), None, None, Conditions(20.0, 30.0), false)
  }

  function DepotSurroundings(): Surroundings {
    Surroundings([Zone(1, "ammunition_depot")], None, None)
  }

  const NEWS: News := EscalationNews(0)

  /** One critical verdict of time zero that nobody has taken. */
  ghost predicate Untaken(s: State) {
    && |s.verdicts| == 1
    && s.verdicts[0].anomalyId == 0 && s.verdicts[0].evaluatedAt == 0
    && IsCritical(s.verdicts[0].judgement.level)
    && !s.verdicts[0].backfilled && s.verdicts[0].acknowledgedAt.None?
  }

  lemma DepotVerdictStored(c: Settings) returns (steps: seq<Step>)
    ensures RedisAnswers(steps)
    ensures var s := Exec(c, Initial(0), steps);
            Untaken(s) && s.now == 0 && s.claims == map[] && s.sweeps == map[] && s.dispatches == []
  {
    hide Exec;
    var job := Detection(DepotReport());
    var around := DepotSurroundings();
    steps := Undisturbed(0, job, around);
    ExecFive(c, Initial(0), Accept(0, job), Record(0), Judge(0, around), AlertProtocol.Store(0), Publish(0));
    var s1 := Apply(c, Initial(0), Accept(0, job));
    assert s1.evaluations[0] == Accepted(job);
    var s2 := Apply(c, s1, Record(0));
    assert s2.evaluations[0] == Recorded(job, 0);
    var s3 := Apply(c, s2, Judge(0, around));
    assert s3.evaluations[0] == Judged(job, 0, Assess(job, around));
    var s4 := Apply(c, s3, AlertProtocol.Store(0));
    assert s4.evaluations[0] == Stored(job, 0, Assess(job, around));
    DecideMeetsTheHazardTable(
      DecisionInput(Some("ammunition_depot"), None, DepotReport().weather, None, None));
  }

  /** One sweep after `wait`, whose claim Redis answers as told. */
  function OneSweep(wait: nat, reply: RedisReply): seq<Step> {
    [Tick(wait), ReadDue(0), Tick(0), Remind(0, 0, reply), Tick(0)]
  }

  lemma SweepReminds(c: Settings, s: State, wait: nat, reply: RedisReply)
    requires Escalates(c) && Untaken(s) && c.escalateAfter < s.now + wait <= MAX_REMINDER_AGE
    requires reply == Up || reply == Down(false)
    requires reply == Up ==> NEWS in s.claims ==> s.claims[NEWS] <= s.now + wait
    ensures var t := Exec(c, s, OneSweep(wait, reply));
            && t.verdicts == s.verdicts
            && t.now == s.now + wait
            && t.claims == (if reply == Up then s.claims[NEWS := t.now + DEDUPE_TTL] else s.claims)
            && Reminders(t, 0) == Reminders(s, 0) + 1
  {
    hide Exec, Assess, Sent;
    ExecFive(c, s, Tick(wait), ReadDue(0), Tick(0), Remind(0, 0, reply), Tick(0));
    var s1 := Apply(c, s, Tick(wait));
    var s2 := Apply(c, s1, ReadDue(0));
    assert IsDue(c, s1.verdicts[0], s1.now);
    assert s1.verdicts[0].anomalyId in DueIds(c, s1.verdicts, s1.now);
    var s3 := Apply(c, s2, Tick(0));
    SentAppend(s.dispatches, Dispatch(NEWS, s3.now, s2.now, reply.Up?), NEWS);
  }

  /** Replicas 1 to n sweep at the same time. */
  function Reads(n: nat): seq<Step> {
    if n == 0 then [] else Reads(n - 1) + [ReadDue(n)]
  }

  ghost predicate Held(s: State, readAt: Time, n: nat) {
    forall r :: 1 <= r <= n ==> r in s.sweeps && s.sweeps[r].readAt == readAt && 0 in s.sweeps[r].due
  }

  lemma {:induction false} ReadsAreHeld(c: Settings, s: State, n: nat)
    requires Untaken(s) && c.escalateAfter > 0 && IsDue(c, s.verdicts[0], s.now)
    ensures var t := Exec(c, s, Reads(n));
            t == s.(sweeps := t.sweeps) && Held(t, s.now, n)
    decreases n
  {
    hide Exec, IsDue, Untaken;
    if n == 0 {
      ExecNone(c, s);
    } else {
      ReadsAreHeld(c, s, n - 1);
      ExecOne(c, s, Reads(n - 1), ReadDue(n));
      RowZero(s);
      assert s.verdicts[0].anomalyId in DueIds(c, s.verdicts, s.now);
    }
  }

  lemma RowZero(s: State)
    requires Untaken(s)
    ensures |s.verdicts| == 1 && s.verdicts[0].anomalyId == 0
  {
  }

  /** They claim one dedupe period after the other. */
  function Claims(first: nat, n: nat): seq<Step> {
    if n == 0 then []
    else Claims(first, n - 1) + [Tick(if n == 1 then first else DEDUPE_TTL)] + [Remind(n, 0, Up)]
  }

  function ClaimsEnd(start: Time, first: nat, n: nat): Time {
    if n == 0 then start else start + first + (n - 1) * DEDUPE_TTL
  }

  lemma OneClaim(c: Settings, s: State, wait: nat, r: nat)
    requires c.channels > 0 && r in s.sweeps && 0 in s.sweeps[r].due
    requires s.now + wait - s.sweeps[r].readAt <= c.lag
    requires NEWS in s.claims ==> s.claims[NEWS] <= s.now + wait
    ensures var t := Apply(c, Apply(c, s, Tick(wait)), Remind(r, 0, Up));
            && t.sweeps == s.sweeps && t.now == s.now + wait
            && NEWS in t.claims && t.claims[NEWS] == t.now + DEDUPE_TTL
            && Reminders(t, 0) == Reminders(s, 0) + 1
  {
    hide Sent;
    SentAppend(s.dispatches, Dispatch(NEWS, s.now + wait, s.sweeps[r].readAt, true), NEWS);
  }

  lemma {:induction false} ClaimsRemind(c: Settings, s: State, readAt: Time, first: nat, n: nat)
    requires c.channels > 0 && Held(s, readAt, n) && readAt <= s.now
    requires n > 0 ==> ClaimsEnd(s.now, first, n) - readAt <= c.lag
    requires NEWS in s.claims && s.claims[NEWS] <= s.now + first
    ensures var t := Exec(c, s, Claims(first, n));
            && t.sweeps == s.sweeps
            && t.now == ClaimsEnd(s.now, first, n)
            && NEWS in t.claims && (n > 0 ==> t.claims[NEWS] == t.now + DEDUPE_TTL)
            && (n == 0 ==> t.claims == s.claims)
            && Reminders(t, 0) == Reminders(s, 0) + n
    decreases n
  {
    hide Exec, Apply, Sent;
    if n == 0 {
      ExecNone(c, s);
    } else {
      var wait := if n == 1 then first else DEDUPE_TTL;
      ClaimsRemind(c, s, readAt, first, n - 1);
      var before := Exec(c, s, Claims(first, n - 1));
      ExecOne(c, s, Claims(first, n - 1), Tick(wait));
      ExecOne(c, s, Claims(first, n - 1) + [Tick(wait)], Remind(n, 0, Up));
      OneClaim(c, before, wait, n);
    }
  }

  /** From a claimed reminder on whose key outlives the reminder age, `n` more
      replicas read at the last moment and claim whenever the key expires. */
  lemma LateReminders(c: Settings, s: State, n: nat) returns (steps: seq<Step>)
    requires Escalates(c) && Untaken(s) && s.now <= MAX_REMINDER_AGE
    requires NEWS in s.claims && s.claims[NEWS] >= MAX_REMINDER_AGE
    requires n > 0 ==> s.claims[NEWS] + (n - 1) * DEDUPE_TTL - MAX_REMINDER_AGE <= c.lag
    ensures RedisAnswers(steps)
    ensures Reminders(Exec(c, s, steps), 0) == Reminders(s, 0) + n
  {
    hide Exec, Sent;
    var wait := MAX_REMINDER_AGE - s.now;
    var first := s.claims[NEWS] - MAX_REMINDER_AGE;
    ExecNone(c, s);
    ExecOne(c, s, [], Tick(wait));
    var a := [] + [Tick(wait)];
    var t := Exec(c, s, a);
    ReadsAreHeld(c, t, n);
    var u := Exec(c, t, Reads(n));
    ClaimsRemind(c, u, t.now, first, n);
    ExecConcat(c, s, a, Reads(n));
    ExecConcat(c, s, a + Reads(n), Claims(first, n));
    ReadsAndClaimsAnswer(first, n);
    steps := a + Reads(n) + Claims(first, n);
  }

  lemma {:induction false} ReadsAndClaimsAnswer(first: nat, n: nat)
    ensures RedisAnswers(Reads(n)) && RedisAnswers(Claims(first, n))
    decreases n
  {
    if n > 0 {
      ReadsAndClaimsAnswer(first, n - 1);
    }
  }

  lemma NothingSentYet(s: State)
    requires s.dispatches == []
    ensures Reminders(s, 0) == 0
  {
  }

  /** As many reminders happen as the window and the lag leave room for. */
  lemma RemindersHappen(c: Settings, n: nat) returns (steps: seq<Step>)
    requires n >= 1 && Escalates(c) && (n - 1) * DEDUPE_TTL < MAX_REMINDER_AGE - c.escalateAfter + c.lag
    ensures RedisAnswers(steps)
    ensures Reminders(Exec(c, Initial(0), steps), 0) == n
  {
    hide Exec, Sent, Apply;
    var stored := DepotVerdictStored(c);
    var s := Exec(c, Initial(0), stored);
    NothingSentYet(s);
    var one := OneSweep(c.escalateAfter + 1, Up);
    SweepReminds(c, s, c.escalateAfter + 1, Up);
    ExecConcat(c, Initial(0), stored, one);
    var t := Exec(c, s, one);
    if n == 1 {
      return stored + one;
    }
    if t.now + DEDUPE_TTL > MAX_REMINDER_AGE {
      var rest := LateReminders(c, t, n - 1);
      ExecConcat(c, Initial(0), stored + one, rest);
      return stored + one + rest;
    }
    var two := OneSweep(DEDUPE_TTL, Up);
    SweepReminds(c, t, DEDUPE_TTL, Up);
    ExecConcat(c, Initial(0), stored + one, two);
    var rest := LateReminders(c, Exec(c, t, two), n - 2);
    ExecConcat(c, Initial(0), stored + one + two, rest);
    return stored + one + two + rest;
  }

  // ---------------------------------------------------------------------
  // How many reminders an alert can get
  // ---------------------------------------------------------------------

  /** Some run sends at least n reminders for one alert. */
  ghost predicate CanRemind(c: Settings, n: nat) {
    exists now: Time, steps: seq<Step>, id: nat :: Reminders(Exec(c, Initial(now), steps), id) >= n
  }

  /** Some run in which Redis answers does. */
  ghost predicate CanRemindAnswered(c: Settings, n: nat) {
    exists now: Time, steps: seq<Step>, id: nat ::
      RedisAnswers(steps) && Reminders(Exec(c, Initial(now), steps), id) >= n
  }

  /** While Redis answers, exactly as many reminders are possible as there are
      dedupe periods in the eligible life widened by the lag. */
  lemma MostRemindersExactly(c: Settings, n: nat)
    requires n >= 1
    ensures CanRemindAnswered(c, n) <==>
            && c.channels > 0 && 0 < c.escalateAfter < 12 * 3_600_000
            && (n - 1) * (6 * 3_600_000) < 12 * 3_600_000 - c.escalateAfter + c.lag
  {
    hide Exec, Sent, ClaimedTimes, Apply;
    if Escalates(c) && (n - 1) * DEDUPE_TTL < MAX_REMINDER_AGE - c.escalateAfter + c.lag {
      var steps := RemindersHappen(c, n);
      assert Reminders(Exec(c, Initial(0), steps), 0) >= n;
    }
    if CanRemindAnswered(c, n) {
      var now, steps, id :| RedisAnswers(steps) && Reminders(Exec(c, Initial(now), steps), id) >= n;
      AnsweredRemindersFit(c, now, steps, id, n);
    }
  }

  lemma AnsweredRemindersFit(c: Settings, now: Time, steps: seq<Step>, id: nat, n: nat)
    requires n >= 1 && RedisAnswers(steps) && Reminders(Exec(c, Initial(now), steps), id) >= n
    ensures Escalates(c) && (n - 1) * DEDUPE_TTL < MAX_REMINDER_AGE - c.escalateAfter + c.lag
  {
    hide Exec, Sent, ClaimedTimes, Apply;
    if !Escalates(c) {
      NoRemindersAtAll(c, now, steps, id);
    } else {
      AnsweredRunClaims(c, now, steps, id);
      ClaimedAreSent(Exec(c, Initial(now), steps).dispatches, EscalationNews(id));
      RemindersFitTheWindow(c, now, steps, id);
      PeriodsGrow(n, |ClaimedTimes(Exec(c, Initial(now), steps).dispatches, EscalationNews(id))|);
    }
  }

  lemma PeriodsGrow(m: nat, n: nat)
    requires m <= n
    ensures (m - 1) * DEDUPE_TTL <= (n - 1) * DEDUPE_TTL
  {
  }

  /** The promise of the sweep's own comment, one reminder ever. While Redis
      answers it holds iff nothing escalates at all or the delay leaves less than
      one dedupe period of eligible life; over every run, failing Redis
      included, it holds only where nothing escalates at all. The default delay
      of fifteen minutes meets neither. */
  lemma OneReminderEverExactly(c: Settings)
    ensures !CanRemindAnswered(c, 2) <==>
            !Escalates(c) || c.escalateAfter >= 6 * 3_600_000 + c.lag
    ensures !CanRemind(c, 2) <==> !Escalates(c)
    ensures CanRemindAnswered(Settings(1, 15 * 60_000, 0), 2)
  {
    hide Exec, Sent, Apply;
    MostRemindersExactly(c, 2);
    MostRemindersExactly(Settings(1, 15 * 60_000, 0), 2);
    if Escalates(c) {
      FailingRedisSendsTwice(c);
    } else if CanRemind(c, 2) {
      var now, steps, id :| Reminders(Exec(c, Initial(now), steps), id) >= 2;
      NoRemindersAtAll(c, now, steps, id);
    }
  }

  /** Two replicas whose claims both fail send the same reminder at once. */
  lemma FailingRedisSendsTwice(c: Settings)
    requires Escalates(c)
    ensures CanRemind(c, 2)
  {
    hide Exec, Sent, Apply;
    var stored := DepotVerdictStored(c);
    var s := Exec(c, Initial(0), stored);
    var one := OneSweep(c.escalateAfter + 1, Down(false));
    SweepReminds(c, s, c.escalateAfter + 1, Down(false));
    var two := OneSweep(0, Down(false));
    SweepReminds(c, Exec(c, s, one), 0, Down(false));
    ExecConcat(c, Initial(0), stored, one);
    ExecConcat(c, Initial(0), stored + one, two);
    assert Reminders(Exec(c, Initial(0), stored + one + two), 0) >= 2;
  }

  /** Two at most while Redis answers, iff nothing escalates at all or sweeps
      claim within one escalation delay of their read. */
  lemma TwoRemindersAtMostExactly(c: Settings)
    ensures !CanRemindAnswered(c, 3) <==> !Escalates(c) || c.lag <= c.escalateAfter
  {
    MostRemindersExactly(c, 3);
  }

  // ---------------------------------------------------------------------
  // History stays quiet
  // ---------------------------------------------------------------------

  /** No verdict replayed from the archive has been broadcast, dispatched as a
      page or a reminder, can be listed in the live history, or falls due. */
  lemma BackfilledIsNeverTold(c: Settings, now: Time, steps: seq<Step>, i: nat, q: HistoryQuery, t: Time)
    requires var s := Exec(c, Initial(now), steps); i < |s.verdicts| && s.verdicts[i].backfilled
    ensures var s := Exec(c, Initial(now), steps);
            && !OnChannel(s, s.verdicts[i].anomalyId)
            && (forall d :: 0 <= d < |s.dispatches| ==> s.dispatches[d].news.id != s.verdicts[i].anomalyId)
            && s.verdicts[i] !in LiveHistory(q, s.verdicts, s.now, q.limit)
            && s.verdicts[i].anomalyId !in DueIds(c, s.verdicts, t)
  {
    var s := Exec(c, Initial(now), steps);
    var id := s.verdicts[i].anomalyId;
    TablesAlwaysOk(c, now, steps);
    NewsAlwaysOk(c, now, steps);
    forall k | 0 <= k < |s.channel| ensures s.channel[k].id != id {
      assert PayloadOk(s, s.channel[k]);
      var j :| 0 <= j < |s.verdicts| && RowSays(s.verdicts[j], s.channel[k].id, s.channel[k].judgement, false);
      TheRow(s, i, j);
    }
    forall d | 0 <= d < |s.dispatches| ensures s.dispatches[d].news.id != id {
      assert DispatchOk(c, s, s.dispatches[d]);
      if s.dispatches[d].news.EscalationNews? {
        var j :| 0 <= j < |s.verdicts| && WasDue(c, s.verdicts[j], s.dispatches[d].news.id, s.dispatches[d].readAt);
        TheRow(s, i, j);
      }
    }
    LiveHistorySelects(q, s.verdicts, s.now, q.limit);
    forall k | 0 <= k < |s.verdicts| && IsDue(c, s.verdicts[k], t) ensures s.verdicts[k].anomalyId != id {
      TheRow(s, i, k);
    }
  }
}
