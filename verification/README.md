# OpenFireWatch, verified

A Dafny model of the parts of OpenFireWatch in which a mistake is silent: an
alert that is lost or told twice, an archive day nobody asked for, an index
outside its formulas, a box that does not cover its zones. The code is modelled
branch by branch, with its constants, and the properties are proved for all
inputs, all runs and all interleavings. `dafny verify dfyconfig.toml` checks
everything.

## The parts

- **Alert life cycle.** `AlertRule` is the decision, `Rating` reads the confidence
  texts as JavaScript does. `AlertProtocol` is a
  transition system: any number of satellite evaluators and the probe
  alarm share two tables with a unique key, crash and retry at any point, publish
  on one channel, are acknowledged, and are relayed and reminded by replicas
  that race on one SET NX key with expiry. One step is one write; what it
  reads beside that comes in as an argument without conditions. `AlertSafety`, `AlertBroadcast` and `AlertReminders` hold the properties
  of every reachable state; `AlertServices` holds the services as classes, each
  method proved to take exactly the protocol's steps.
- **Archive planner.** `Calendar` counts days as section 21.4.1 of ECMA-262
  does, `BackfillPlan` cuts the tiles and scans the gaps, `Runs` and `Sorting`
  carry the shapes they share with other modules.
- **Fire Weather Index.** `RealMath` states the laws of exp, ln, pow and sqrt
  that the proofs use, `FireWeather` is the chain, `MoistureOrder` and
  `IndexOrder` say which way it answers, `DroughtMemory` how long it remembers
  its start, `NoonInputs` how hours become days.
- **Folds and loops.** `Forecast` (ignition windows), `SensorMerge`,
  `SeasonHistory`, `CsvExport`, `WarningList` (client list and markers),
  `ZoneKey`, `MonitoringBox`.

## Where the code and its own words differ

The model follows the code. Each difference is stated as a lemma, with the exact
condition where there is one.

- "One reminder, ever" (escalation.service.ts:97-99): the dedupe key lives six
  hours and an alert is eligible for twelve. While Redis answers there can be two,
  and never three as long as a sweep claims within one escalation delay of its
  read; when Redis fails every replica sends. `OneReminderEverExactly`,
  `TwoRemindersAtMostExactly` and `MostRemindersExactly` give the settings for one,
  for two and for any number.
- "The single longest continuous window that year" (history.service.ts:43): the code
  keeps the largest number of qualifying hours of one day. `YearFigureExactly` says
  for which years the two agree, and when the figure is too small or too large.
- The starting codes' influence "is gone" after a spin-up of about 90 days
  (fwi.ts:65-71): the drought code loses it altogether iff some day's rain washes the
  drier chain down to zero (`StartForgottenExactly`), and any of it only on days with
  more than 2.8 mm (`OnlyRainForgetsTheStart`).
- Every probe in a zone is merged conservatively (sensor.service.ts:232-235):
  where a field was unmeasured, a second, cooler or wetter probe replaces the
  regional estimate and can withdraw a page that rests on the ignition window.
  See `SafeExactlyWhenFullyMeasured`.
- "A duplicate was already handled" (anomaly-evaluation.service.ts:191-193): after
  a crash between the two inserts it was not, and never will be. See
  `JudgeableExactlyWhileCarried` and `BroadcastableExactlyWhileUnderway`.
- A broadcast need not be in a zone: a probe outside every zone is broadcast as
  critical. See `BroadcastWithoutZoneExactly`.
- Deriving the box "makes that state unrepresentable" (monitoring-area.ts:7-12):
  with a padding under 0.00005 degrees, which the configuration accepts, rounding
  can leave out a vertex. See `PaddingIsSafeExactly`.
- "Exactly the 24 h to noon" (fwi.ts:317-319): only while noons are 24 rows apart,
  which they are not on the days local clocks change. See `EachHourOnceExactly`.
- Only an explicit low rating is suppressed (alert-level.enum.ts:162-169): a rating
  of blanks is, too. See `SuppressesOnlyLowExactly`.

## Model

| member | source | states |
|---|---|---|
| AlertRule.CriticalIsAPrefix | backend/src/evaluation/alert-level.enum.ts:35-37 | the critical levels are exactly those whose stored text starts with `CRITICAL_`, and `LIKE 'CRITICAL%'` selects no other |
| AlertRule.DecideMeetsTheHazardTable | backend/src/evaluation/alert-decision.ts:78-156 | the decision pages exactly when an independent per-hazard statement (phosphorus: open window; forest: credible; contaminated forest: either; depot: always; anything else: credible; persistence: always) says so, under the level of the mechanism (persistence first, then an open phosphorus window, then the hazard's own), is INFO exactly outside every zone, and gives a reason exactly when it stays at ELEVATED |
| AlertRule.DecisionExplainsItself | backend/src/evaluation/alert-decision.ts:78-156 | the reported conditions take each field from the probe where it measured one, the source of the ground values is named, and the one shut gate is the reason |
| AlertRule.HotterAndDrierKeepsCritical | backend/src/evaluation/alert-decision.ts:82-85 | hotter and drier ground never withdraws a page, for any hazard and any mix of regional and local values |
| AlertRule.ContaminatedForestAlarmsNoLess | backend/src/evaluation/alert-level.enum.ts:131-136 | a contaminated forest pages whenever a plain forest would, differs only under an open window with a low rating, and names phosphorus whenever the window is open |
| Rating.TrimmedAwayExactly | backend/src/evaluation/alert-level.enum.ts:172 | trimming leaves nothing iff the text has no visible character |
| Rating.NumeralReadsBack | backend/src/evaluation/alert-level.enum.ts:177 | the decimal numeral of every number is read as that number |
| AlertRule.BlankRatingIsSuppressed | backend/src/evaluation/alert-level.enum.ts:170-179 | every rating made of blanks alone is suppressed, although nothing in it says low |
| AlertRule.RatingNames | backend/src/evaluation/alert-level.enum.ts:172-176 | the names low and l suppress, the names n, h, nominal and high never do, in either case of letters and with any blanks around them |
| AlertRule.SuppressesOnlyLowExactly | backend/src/evaluation/alert-level.enum.ts:162-179 | the documented promise, that exactly an explicitly low rating is suppressed and no missing or unreadable one, holds for every raw text except exactly those of blanks alone |
| AlertRule.PercentageCountsFromThirty | backend/src/evaluation/alert-level.enum.ts:177-178 | a percentage with any blanks around it is credible iff it is at least 30 |
| AlertProtocol.AssessIsSound | backend/src/evaluation/anomaly-evaluation.service.ts:258-275 | a satellite judgement is INFO iff no zone contains the point and never the probe level; a probe's judgement always is, with the probe's own zone |
| AlertProtocol.AssessReadsOnlyWhatCounts | backend/src/evaluation/anomaly-evaluation.service.ts:223-273 | only the first zone counts; a replayed detection ignores the live probe, a strong one ignores persistence, one in no zone ignores both, and a probe's alarm ignores all of them |
| AlertProtocol.SmoulderingExactly | backend/src/evaluation/anomaly-evaluation.service.ts:236-248 | a detection is called smouldering iff it lies in a zone, is itself weak and there is persistence evidence |
| AlertProtocol.AssessJudgesRightly | backend/src/evaluation/anomaly-evaluation.service.ts:223-277 | a detection in a zone is judged under the live probe's value in each field it measured, unless it is a replay, and pages under the right mechanism exactly when the first zone's hazard says so for a window of 30 degrees and 20 percent and for persistence a detection of at most 5 MW confirms |
| AlertProtocol.ProbeKeysDiffer | backend/src/sensors/sensor-alert.service.ts:231-246 | two probe alarms are one detection iff device, place and time agree |
| AlertProtocol.RunExtends | backend/src/alerts/alert-history.service.ts:68-85 | no run takes back an id, a verdict, an acknowledgement time, a message or a dispatch |
| AlertSafety.StepKeepsTables | backend/src/evaluation/anomaly-evaluation.service.ts:194-334 | every step of every worker, crash and retry keeps the joint invariant of tables, evaluations in flight and channel |
| AlertSafety.TablesAlwaysOk | backend/src/evaluation/anomaly-evaluation.service.ts:194-334 | that invariant holds in every reachable state |
| AlertSafety.AtMostOnce | backend/src/evaluation/anomaly-evaluation.service.ts:191-221 | in every interleaving a (source, position, time) has one anomaly, an anomaly at most one verdict and one broadcast, and each broadcast agrees with a stored live verdict |
| AlertSafety.BroadcastsAreInZones | backend/src/evaluation/anomaly-evaluation.service.ts:318-334 | a broadcast is never INFO, and is outside every zone only when a probe raised it |
| AlertSafety.BroadcastWithoutZoneExactly | backend/src/evaluation/anomaly-evaluation.service.ts:318-334 | at every publication of every run: broadcast iff a probe raised it or it is live and in a zone, and without a zone iff it is the alarm of a probe that stands in none |
| AlertSafety.JudgeableExactlyWhileCarried | backend/src/evaluation/anomaly-evaluation.service.ts:215-219 | at most once, exactly: in every reachable state a stored detection can still get a verdict iff it has one or an evaluator holds it between the two inserts |
| AlertSafety.LostStaysLost | backend/src/evaluation/anomaly-evaluation.service.ts:215-219 | once that evaluator is gone, no continuation gives the detection a verdict |
| AlertSafety.RetryOfRecordedIsDuplicate | backend/src/evaluation/anomaly-evaluation.service.ts:215-219 | retrying a recorded detection leaves the whole state as it was |
| AlertBroadcast.BroadcastableExactlyWhileUnderway | backend/src/evaluation/anomaly-evaluation.service.ts:280-334 | a stored detection can still be broadcast iff it has been, or an evaluation that may publish it is in flight; a failed publication is never made good by a retry |
| AlertSafety.EarliestAcknowledgement | backend/src/alerts/alert-history.service.ts:162-167 | the lookup returns the smallest acknowledgement time of the anomaly's rows, and nothing iff no row has one |
| AlertSafety.FirstAcknowledgementIsFinal | backend/src/alerts/alert-history.service.ts:145-172 | whatever the first acknowledgement answers, every later one after any further run answers the same time; not found iff there is no verdict (both statements at once; see the next row) |
| AlertSafety.TwoStatementsActAsOne | backend/src/alerts/alert-history.service.ts:153-172 | whatever runs between the UPDATE and the lookup, the reply is one that a single statement would have given before or after it, and nothing else is written |
| AlertSafety.LiveHistorySelects | backend/src/alerts/alert-history.service.ts:38-66 | the live history lists only matching stored rows, newest first, at most the limit |
| AlertSafety.LiveHistoryOmitsOnlyOlder | backend/src/alerts/alert-history.service.ts:60-65 | a matching row is missing only when the list is full of rows at least as new |
| AlertReminders.ClaimsAlwaysOk | backend/src/notifications/notification.service.ts:168-182 | in every run the store still holds the last claimed dispatch of a key for as long as it counts, and claimed dispatches are spaced by the period |
| AlertReminders.SameNewsAtMostOncePerTtl | backend/src/notifications/notification.service.ts:45-52 | two claimed dispatches of one key are at least six hours apart, across all replicas and whatever Redis failures lie between |
| AlertReminders.NewsAlwaysOk | backend/src/notifications/escalation.service.ts:73-100 | every page has a critical message behind it and every reminder a row that was critical, live, untaken and inside the window when it was read |
| AlertReminders.RemindersFitTheWindow | backend/src/notifications/escalation.service.ts:26-30 | n claimed reminders need n-1 dedupe periods inside the eligible life, widened by the lag between read and claim |
| AlertReminders.MostRemindersExactly | backend/src/notifications/escalation.service.ts:73-100 | over runs in which Redis answers, n reminders for one alert are possible iff a channel is configured, the delay lies between zero and twelve hours, and n-1 dedupe periods fit into the eligible life widened by the lag |
| AlertReminders.TwoRemindersAtMostExactly | backend/src/notifications/escalation.service.ts:73-100 | over those runs never three, iff nothing escalates or sweeps claim within one escalation delay of their read |
| AlertReminders.NoReminderAfterAcknowledgement | backend/src/notifications/escalation.service.ts:82 | no reminder leaves later than the acknowledgement plus that lag |
| AlertReminders.FailingRedisSendsTwice | backend/src/notifications/notification.service.ts:161-181 | wherever anything escalates, two claims that Redis fails send the same reminder twice |
| AlertReminders.OneReminderEverExactly | backend/src/notifications/escalation.service.ts:97-100 | the comment's "one reminder, ever", over all dispatches: while Redis answers it holds iff nothing escalates or the delay leaves less than one dedupe period of eligible life; over every run iff nothing escalates; the default delay meets neither |
| AlertReminders.BackfilledIsNeverTold | backend/src/evaluation/anomaly-evaluation.service.ts:186-189 | in every reachable state a backfilled verdict is on no channel, in no dispatch, in no live history and never due |
| AlertServices.Database.InsertAnomaly | deploy/db/init.sql:53-54 | the unique key: a new id and row iff the key was absent, and nothing changed otherwise |
| AlertServices.Redis.SetIfAbsent | backend/src/notifications/notification.service.ts:171-178 | SET NX with expiry: OK iff no unexpired key stands, and only then a new expiry |
| AlertServices.EvaluationWrites | backend/src/evaluation/anomaly-evaluation.service.ts:191-334 | an evaluation cut off after any number of its five steps, or not at all, leaves exactly what it had written by then |
| AlertServices.AnomalyEvaluationService.Evaluate | backend/src/evaluation/anomaly-evaluation.service.ts:173-337 | the imperative evaluation takes exactly the protocol's steps, with a failure at any point; the rows and the message it adds are stated field by field, the judgement being the right one for the report and what was read around it, and it answers DUPLICATE or that level exactly when it should |
| AlertServices.SensorAlertService.Raise | backend/src/sensors/sensor-alert.service.ts:221-285 | the second writer takes exactly the same protocol's steps, with a failure at any point, and adds exactly the stated rows and message |
| AlertServices.AlertHistoryService.Acknowledge | backend/src/alerts/alert-history.service.ts:153-172 | the two statements together make the protocol's step and give the reply defined on the state before it: now for an open row, and exactly the open rows of the alert are stamped |
| AlertServices.AlertHistoryService.SetOutcome | backend/src/alerts/alert-history.service.ts:179-192 | exactly the alert's rows get the outcome and its time, nothing else changes, and not found is answered iff there is no row |
| AlertServices.SendsMade | backend/src/notifications/notification.service.ts:139-153 | the attempt count is the first success, three at most |
| AlertServices.NotificationService.Deliver | backend/src/notifications/notification.service.ts:135-159 | at most three sends, stopping at the first success, and exactly one delivery row saying whether one succeeded |
| AlertServices.NotificationService.Claim | backend/src/notifications/notification.service.ts:168-182 | won iff no unexpired key stands or Redis fails; the store changes only as the command was applied |
| AlertServices.CriticalNewsIsNeverMuted | backend/src/notifications/notification.service.ts:184-190 | no configured floor mutes an alarm, and only the texts warning and critical mute anything |
| AlertServices.NotificationService.Notify | backend/src/notifications/notification.service.ts:111-132 | the state changes as the protocol says, and each configured channel gets exactly one delivery row iff the news was dispatched, whatever the order in which the channels finish |
| AlertServices.NotificationService.OnAlert | backend/src/notifications/notification.service.ts:193-232 | a message whose level starts with CRITICAL_ is dispatched, with one delivery row on each channel, iff a channel is configured and its key is free or Redis fails; any other changes nothing |
| AlertServices.DuePositionsExactly | backend/src/notifications/escalation.service.ts:73-88 | the query selects exactly the rows that meet its five conditions, in the order of their evaluation |
| AlertServices.SelectDueIsDueIds | backend/src/notifications/escalation.service.ts:73-88 | and their ids are the due ids of the protocol |
| AlertServices.EscalationService.Sweep | backend/src/notifications/escalation.service.ts:59-122 | a sweep is one read step and, for every due row in order, the time its predecessor took and one remind step; every alert the WHERE clause selects is reminded unless its key still stands, and nobody else; nothing happens when escalation is off |
| Calendar.EarlierIsSmaller | workers/src/ingestion/satellite-backfill.plan.ts:43-47 | calendar order is the order of day numbers, and a day number names one date |
| Calendar.DateOfIsInverse | workers/src/ingestion/satellite-backfill.plan.ts:37-41 | from a date to its day number and back is the identity, leap years included |
| Calendar.AddDaysUndoesDaysBetween | workers/src/ingestion/satellite-backfill.plan.ts:36-47 | `addDays` and `daysBetween` undo each other in both directions |
| Calendar.MonthsAreTheTable | workers/src/ingestion/satellite-backfill.plan.ts:37-41 | the days before each month are those of the standard's table, with the leap day where it belongs |
| Calendar.AddOneDay | workers/src/ingestion/satellite-backfill.plan.ts:111 | adding one day is the next day of the paper calendar |
| Calendar.IsoOrderIsDayOrder | workers/src/ingestion/satellite-backfill.plan.ts:75-76 | comparing YYYY-MM-DD texts code unit by code unit is the sign of `daysBetween` |
| Calendar.IsoSpellsTheDate | workers/src/ingestion/satellite-backfill.plan.ts:40 | the text is year, month and day in four, two and two digits with hyphens between them |
| Text.PaddedOrder | workers/src/ingestion/satellite-backfill.plan.ts:75-76 | numerals of one width compare as texts exactly as they do as numbers |
| Sorting.SortIsASortedPermutation | workers/src/ingestion/satellite-backfill.plan.ts:89-91 | the sort returns a sorted permutation for every total preorder |
| Runs.RunsOfAreMaximal | workers/src/ingestion/satellite-backfill.plan.ts:109-119 | the run-length scan yields runs inside the flags, ordered, disjoint, never adjacent, and together every set flag |
| Runs.RunsCannotGrow | workers/src/ingestion/satellite-backfill.plan.ts:109-119 | neither neighbour of such a run is set |
| Runs.MaximalRunsAreUnique | workers/src/ingestion/satellite-backfill.plan.ts:109-119 | no other list has those properties |
| BackfillPlan.TileAt | workers/src/ingestion/satellite-backfill.plan.ts:79-85 | window k starts five k days in; all have five days but the last, which ends on the last day |
| BackfillPlan.TilesPartition | workers/src/ingestion/satellite-backfill.plan.ts:79-85 | a day is asked for iff it lies in the range, and by one window only |
| BackfillPlan.TilesAreFewest | workers/src/ingestion/satellite-backfill.plan.ts:79-85 | no list of requests of at most five days that covers the range is shorter |
| BackfillPlan.Selected | workers/src/ingestion/satellite-backfill.plan.ts:69-72 | the products asked are exactly the listed ones named `_SP` or `_NRT` of a chosen family |
| BackfillPlan.SelectedCounts | workers/src/ingestion/satellite-backfill.plan.ts:69-73 | each as often as it is listed times as often as a chosen family names it |
| BackfillPlan.CutWindows | workers/src/ingestion/satellite-backfill.plan.ts:79-85 | the cursor loop terminates and pushes exactly those windows |
| BackfillPlan.Clip | workers/src/ingestion/satellite-backfill.plan.ts:75-76 | comparing texts clips to the later start and the earlier end |
| BackfillPlan.PlanBackfill | workers/src/ingestion/satellite-backfill.plan.ts:58-92 | an inverted range is refused; otherwise every source is asked for a day exactly as often as the listing and the families say, in requests of one to five days in chronological order: a sorted permutation of the selected products' windows |
| BackfillPlan.AskedOfWhomExactly | workers/src/ingestion/satellite-backfill.plan.ts:69-87 | for any such plan a source is asked for a day iff the day is in the range and the source is a listed `_SP` or `_NRT` product of a chosen family that holds it, and only once when nothing is listed or chosen twice |
| BackfillPlan.PlanAsksForHeldDays | workers/src/ingestion/satellite-backfill.plan.ts:73-86 | a day is asked for iff it lies in the range and a selected product holds it |
| BackfillPlan.CoveredDates | workers/src/ingestion/satellite-backfill.plan.ts:104-107 | the set of dates is exactly the days some request asks for |
| BackfillPlan.CoverageGaps | workers/src/ingestion/satellite-backfill.plan.ts:99-121 | the scan terminates and yields one gap, first to last day, for every maximal run of days nobody asks for |
| BackfillPlan.GapsComplementThePlan | workers/src/ingestion/satellite-backfill.plan.ts:94-121 | for any plan, a day of the range lies in a gap iff no selected product holds it |
| BackfillPlan.GapsAreSeparated | workers/src/ingestion/satellite-backfill.plan.ts:109-119 | gaps ascend, are disjoint, and a day that is asked for lies between any two |
| RealMath.LnOfSixtyFive | workers/src/fire-danger/fwi.ts:145-150 | 3 < ln 65 < 10, which keeps both logarithmic branches of the duff slope positive |
| FireWeather.NoonMoisture | workers/src/fire-danger/fwi.ts:97-123 | fuel dries towards one equilibrium or wets towards the other and never passes it |
| FireWeather.FineFuelMoistureCode | workers/src/fire-danger/fwi.ts:79-127 | for any humidity and rain, temperature to 60 °C and wind not negative, every root, power and quotient is in its domain and the code stays in [0, 101] |
| FireWeather.RainSlope | workers/src/fire-danger/fwi.ts:145-150 | the slope is positive on all three published branches |
| FireWeather.DuffMoisture | workers/src/fire-danger/fwi.ts:143-152 | the wetted duff stays above 20 percent, so its logarithm exists |
| FireWeather.DuffMoistureCode | workers/src/fire-danger/fwi.ts:130-155 | the code is never negative and never below what the rain left |
| FireWeather.DroughtCode | workers/src/fire-danger/fwi.ts:158-174 | the code is never negative |
| FireWeather.InitialSpreadIndex | workers/src/fire-danger/fwi.ts:184-188 | in domain and never negative |
| FireWeather.BuildupIndex | workers/src/fire-danger/fwi.ts:191-198 | in domain, no division by zero, and never negative |
| FireWeather.FireWeatherIndex | workers/src/fire-danger/fwi.ts:201-207 | in domain and never negative |
| FireWeather.Classify | workers/src/fire-danger/fwi.ts:280-286 | the loop over the bounds finds the class whose interval holds the index |
| FireWeather.StepGivesFigures | workers/src/fire-danger/fwi.ts:213-236 | each code is its formula on its own of the day before and this day's weather, each index its formula on this day's codes, all in range |
| FireWeather.ComputeSeries | workers/src/fire-danger/fwi.ts:239-251 | over any number of days every day's codes follow from the codes of the day before, its indices from its own codes, and its class from its index, and all are in range |
| FireWeather.SeasonsConcatenate | workers/src/fire-danger/fwi.ts:239-251 | the series of a concatenation is the first part's series followed by the second's, started from the codes the first leaves |
| MoistureOrder.EquilibriaAreOrdered | workers/src/fire-danger/fwi.ts:98-116 | the wetting equilibrium lies strictly below the drying one at every humidity and temperature |
| MoistureOrder.DryDayKeepsOrder | workers/src/fire-danger/fwi.ts:79-127 | on a day without rain over 0.5 mm, fuel that was drier yesterday is not wetter today |
| MoistureOrder.RainNeverDriesFineFuel | workers/src/fire-danger/fwi.ts:90-95 | more rain never raises the fine fuel code, from any starting code |
| MoistureOrder.RainNeverDriesDuff | workers/src/fire-danger/fwi.ts:141-153 | more rain never raises the duff code, for any two rains, across the threshold and the three slopes |
| MoistureOrder.RainNeverRaisesDuff | workers/src/fire-danger/fwi.ts:142-153 | rain over 1.5 mm leaves the duff no drier than it was, although the formula's 5.6348 exceeds ln 280 |
| MoistureOrder.RainNeverDriesDeepLayers | workers/src/fire-danger/fwi.ts:167-172 | more rain never raises the drought code, for any two rains |
| MoistureOrder.LightRainChangesNothing | workers/src/fire-danger/fwi.ts:90-170 | rain that does not reach a layer (0.5, 1.5 and 2.8 mm) changes nothing in its code |
| MoistureOrder.StillAtTheEnds | workers/src/fire-danger/fwi.ts:105-119 | in saturated air nothing dries and in air without humidity nothing takes up water: each rate belongs to its own direction |
| MoistureOrder.WindSpeedsUp | workers/src/fire-danger/fwi.ts:105-119 | more wind takes fuel further towards the equilibrium it is moving to |
| MoistureOrder.WarmDryAirDriesDuff | workers/src/fire-danger/fwi.ts:137-154 | warmer and drier air never lowers the duff code |
| MoistureOrder.WarmAirDriesDeepLayers | workers/src/fire-danger/fwi.ts:164-173 | warmer air never lowers the drought code |
| IndexOrder.WindNeverLowersSpread | workers/src/fire-danger/fwi.ts:184-188 | more wind never lowers the spread index |
| IndexOrder.BuildupAgainstDuff | workers/src/fire-danger/fwi.ts:193-197 | the buildup is at least the duff code on one published branch, at most it on the other, and equal to it where they meet |
| IndexOrder.DrierDeepLayersNeverLowerBuildup | workers/src/fire-danger/fwi.ts:191-198 | a higher drought code never lowers the buildup, across the branches too |
| IndexOrder.IndexFollowsSpreadAndFuel | workers/src/fire-danger/fwi.ts:201-207 | more spread, and more fuel on one side of 80, never lower the final index |
| IndexOrder.WorkedExample | workers/src/fire-danger/fwi.spec.ts:18-43 | the published day gives a duff code of 8.545, a drought code of 19.014 and a buildup of 8.490, to the published two decimals |
| DroughtMemory.ReliefInClosedForm | workers/src/fire-danger/fwi.ts:168-172 | what rain leaves is -400 ln(exp(-code/400) + rain/800) |
| DroughtMemory.OneDay | workers/src/fire-danger/fwi.ts:158-174 | one day keeps the order of two chains, keeps their distance without rain over 2.8 mm and shrinks it strictly with it |
| DroughtMemory.DistanceNeverGrows | workers/src/fire-danger/fwi.ts:239-251 | over any days two drought chains keep their order and their distance never grows, rain days included |
| DroughtMemory.OnlyRainForgetsTheStart | workers/src/fire-danger/fwi.ts:65-71 | the starting value's influence shrinks at all iff some day has more than 2.8 mm of rain |
| DroughtMemory.WashesOutExactly | workers/src/fire-danger/fwi.ts:167-172 | rain takes a code to zero iff exp(-code/400) + rain/800 reaches one |
| DroughtMemory.StartForgottenExactly | workers/src/fire-danger/fwi.ts:65-71 | the influence of the starting value is gone iff some day's rain washes out the code of the drier chain on that day, however long the spin-up |
| NoonInputs.Noons | workers/src/fire-danger/fwi.ts:313-315 | exactly the 12:00 rows, in order |
| NoonInputs.DailyInputsFromHourly | workers/src/fire-danger/fwi.ts:311-333 | one day for every 12:00 row and no other, each field that of its row and the rain the total of the precipitation column over its window |
| NoonInputs.EachHourOnceExactly | workers/src/fire-danger/fwi.ts:317-321 | every hour from the first window to the last noon is counted exactly once iff successive noons are 24 rows apart |
| NoonInputs.DailyRainAddsUp | workers/src/fire-danger/fwi.ts:317-321 | then the daily totals add up to the rain of the hourly series |
| Forecast.PeaksAreExtremes | backend/src/forecast/forecast.service.ts:251-256 | the peak and the minimum are attained in the run and bound every hour of it |
| Forecast.FindWindows | backend/src/forecast/forecast.service.ts:224-261 | the windows begin and end at the first and last hour of each stretch of hours with at least 30 degrees and under 20 percent, in order and without leaving one out, with the highest temperature and lowest moisture of exactly those hours |
| Forecast.WindowsAreTheLiveRule | backend/src/forecast/forecast.service.ts:216-233 | an hour lies in a window iff the live rule would page CRITICAL_PHOSPHORUS_FIRE on it without probe or persistence |
| Forecast.HoursUntil | backend/src/forecast/forecast.service.ts:206-208 | zero once the window has begun, otherwise within half an hour of the truth |
| Forecast.Evaluate | backend/src/forecast/forecast.service.ts:170-213 | exactly the two phosphorus hazards get windows, and the countdown is to the first hour that meets both thresholds, none iff no hour does |
| SeasonHistory.CountRowIsRight | backend/src/history/history.service.ts:268-278 | counting one more row keeps a year's and its months' figures right |
| SeasonHistory.GroupByYear | backend/src/history/history.service.ts:257-285 | days and hours of every year and month are those of its rows, months add up to years and years to the whole, every row is counted, both lists ascend strictly, and the longest spell is the maximum of the daily hours |
| SeasonHistory.HoursAreOneWindowExactly | backend/src/history/history.service.ts:64-68 | a day's longest continuous window is at most its hours, and equal to them iff they form at most one run |
| SeasonHistory.YearFigureExactly | backend/src/history/history.service.ts:43-44 | over the hours of a whole year, when the figure is the single longest continuous window, when it is too small (iff a run past midnight outlasts every day's count) and when too large, each with its exact condition |
| SeasonHistory.WithoutCrossingsFigureExactly | backend/src/history/history.service.ts:43-44 | where no window runs past midnight the figure is right iff some day with the most hours has them in at most one run |
| SeasonHistory.WindowPastMidnightIsSplit | backend/src/history/history.service.ts:270 | one window past midnight is longer than each of the two figures it is split into |
| CsvExport.FieldReadsBack | backend/src/history/history.service.ts:252-254 | a quoted field is read back by the reader of section 2 of RFC 4180, whatever its text |
| CsvExport.RecordReadsBack | backend/src/history/history.service.ts:209-216 | so is a record of any fields |
| CsvExport.DocumentReadsBack | backend/src/history/history.service.ts:219 | so is a document of any records |
| CsvExport.LineIsJoined | backend/src/history/history.service.ts:210-215 | quoting the name alone is enough: ids, dates and counts never need quotes |
| CsvExport.IgnitionDaysCsv | backend/src/history/history.service.ts:185-220 | the export reads back as the header and, for every phosphorus zone in order, one record of number, name, date and hours for each ignition day, whatever the zone names |
| SensorMerge.CurrentByZone | backend/src/sensors/sensor.service.ts:262-275 | one entry for every zone with a row: its hottest, driest and latest values under the id of a device that measured that temperature |
| SensorMerge.OrderDoesNotMatter | backend/src/sensors/sensor.service.ts:262-275 | the three values do not depend on the order of the rows |
| SensorMerge.AddedSensorKeepsCritical | backend/src/sensors/sensor.service.ts:425-438 | where both fields are measured, one more sensor never turns a critical verdict into another |
| SensorMerge.SafeExactlyWhenFullyMeasured | backend/src/sensors/sensor.service.ts:425-438 | for every detection that pages, any further sensor is harmless iff both fields are measured already or the page does not rest on the ignition window |
| WarningList.ActiveListIsABoundedPrefix | frontend/src/app/features/alerts/data-access/real-time-alert.service.ts:158-184 | after any events the active list has no id twice, at most 50 entries, nothing acknowledged, and is a prefix of the list that is never cut |
| WarningList.NothingIsMissing | frontend/src/app/features/alerts/data-access/real-time-alert.service.ts:178-183 | the two lists are equal as long as no more than 50 were outstanding at a time |
| WarningList.ListedIffOutstanding | frontend/src/app/features/alerts/data-access/real-time-alert.service.ts:158-184 | an id is in the uncut list iff it was pushed unacknowledged and not taken since |
| WarningList.HistoryStaysBounded | frontend/src/app/features/alerts/data-access/real-time-alert.service.ts:162-177 | the retained history never lists an id twice and never grows past 100 entries or its seed |
| WarningList.RealTimeAlertService.PushWarning | frontend/src/app/features/alerts/data-access/real-time-alert.service.ts:170-184 | the alert stands in front of both lists, whatever had its id is gone, and only the oldest entries fall off at 50 and 100; an acknowledged alert changes nothing |
| WarningList.RealTimeAlertService.ApplyAcknowledgement | frontend/src/app/features/alerts/data-access/real-time-alert.service.ts:158-167 | exactly that alert leaves the active list, and exactly its history entries carry the time |
| WarningList.RealTimeAlertService.SeedFromHistory | frontend/src/app/features/alerts/data-access/real-time-alert.service.ts:108-124 | seeding equals pushing the outstanding alerts oldest first |
| WarningList.CriticalMarkers.Sync | frontend/src/app/features/map/overlays/critical-markers.ts:32-46 | the markers' ids become exactly the warnings' ids, a marker that stays wanted is not touched, a new one has its warning's latitude, longitude and level, and what is drawn is what is held |
| WarningList.CriticalMarkers.Clear | frontend/src/app/features/map/overlays/critical-markers.ts:48-51 | nothing is held or drawn afterwards |
| ZoneKey.SlugIsWellFormed | backend/src/risk-zones/risk-zone.service.ts:406-419 | a slug has 1 to 60 characters of a-z, 0-9 and single hyphens, does not start with one, and ends with one only when cut at 60 |
| ZoneKey.SlugKeepsTheLabel | backend/src/risk-zones/risk-zone.service.ts:415-418 | the letters and digits of the slug are those of the label, in order and all unless it was cut at 60; a label without any becomes zone |
| ZoneKey.SlugPatternIsAPrefix | backend/src/risk-zones/risk-zone.service.ts:337 | for a slug the LIKE pattern is a literal prefix |
| ZoneKey.CandidatesDiffer | backend/src/risk-zones/risk-zone.service.ts:343 | different numbers give different candidates |
| ZoneKey.ReserveKey | backend/src/risk-zones/risk-zone.service.ts:335-346 | the search ends within one probe more than there are taken names, with a name no row holds: the base iff no row has it or starts with it and a hyphen, else the first free number from 2 |
| MonitoringBox.RoundedCovers | workers/src/clients/monitoring-area.ts:84-98 | with a padding of at least 0.00005 degrees every point on Earth within the zones' extent is inside the rounded, clamped box |
| MonitoringBox.DerivedBoxCovers | workers/src/clients/monitoring-area.ts:49-98 | so every vertex of an active zone within WGS84 bounds is inside the returned box |
| MonitoringBox.ActiveVertexCounts | workers/src/clients/monitoring-area.ts:62-64 | no vertex of an active zone is left out of the extent |
| MonitoringBox.PaddingIsSafeExactly | workers/src/clients/monitoring-area.ts:91-94 | over all zones the box covers iff the padding is at least 0.00005; the configuration allows less |
| MonitoringBox.DerivedBoxIsTight | workers/src/clients/monitoring-area.ts:56-96 | each side of the box stands off some vertex by the padding, cut at the edge of the world and rounded, and no further |
| MonitoringBox.ParseBbox | workers/src/clients/monitoring-area.ts:101-122 | four finite numbers with west under east and south under north are taken as they are, with the centre halfway; anything else is refused |
| MonitoringBox.OperatorWins | workers/src/clients/monitoring-area.ts:43-47 | an operator's box is taken unchanged whatever the zones are |
| MonitoringBox.BoxAlwaysExistsExactly | workers/src/clients/monitoring-area.ts:69-98 | for all zones with an active vertex on Earth a box is derived iff the padding is more than 0.00005 |
| MonitoringBox.NothingToMonitorExactly | workers/src/clients/monitoring-area.ts:69-82 | the service refuses to poll iff no active zone has a vertex |

## Left out

- IndexOrder.WorkedExample: bounds neither the fine fuel code nor the spread and final index of the published day, which need exp and ln to more digits than the stated laws give.
- IndexOrder.IndexFollowsSpreadAndFuel: does not compare a buildup under 80 with one over it, where the published branches jump.
- FireWeather.FineFuelMoistureCode: does not state that rainy days keep the order of two codes; the published rain term does not.
- AlertServices.EscalationService.Sweep: other replicas do not run between the reminders of one call of the method; in the protocol they do.
- AlertServices.NotificationService.Notify: a delivery row whose own insert fails is not modelled.
- AlertServices.AlertHistoryService.Acknowledge: runs its two statements without interruption; AlertSafety.TwoStatementsActAsOne says what an interruption can change.
- AlertRule.PercentageCountsFromThirty: numerals have their exact value, where JavaScript rounds it to a double.
- BackfillPlan.PlanBackfill: dates are calendar dates with years 0 to 9999, so malformed texts and JavaScript's six-digit years are not modelled; locale order of sources is any total preorder `collate`, and of dates the calendar's.
- NoonInputs.DailyInputsFromHourly: the local time arrives as its parts; slicing them out of the ISO text is not modelled.
- AlertServices.SensorAlertService.Raise: starts from a probe that fired; the thresholds, the median baseline and the cooldown query before it are not modelled.
- AlertServices.AnomalyEvaluationService.Evaluate: starts from a validated report; validation, the dead-letter queue and logging are not modelled, and the three reads around a detection are one step.
- AlertSafety.LiveHistorySelects: rows are stored in the order of `evaluated_at`, since every insert takes the clock of its own step.
- WarningList.RealTimeAlertService.PushWarning: an acknowledgement time that is the empty text, which JavaScript takes for none, is not modelled.
- WarningList.CriticalMarkers.Sync: a marker is its id, position and level; DOM elements, popups and translations are not modelled.
- ZoneKey.ReserveKey: a zone written by someone else between the search and the insert is caught by the database's unique key, which is not part of this model.
- ZoneKey.SlugIsWellFormed: lower-casing, transliteration and Unicode normalisation before the a-z and 0-9 pass are any map of characters.
- SensorMerge.CurrentByZone: starts from the calibrated, fresh rows of its query; observation times are compared as numbers where the code compares ISO texts of one width.
- SeasonHistory.GroupByYear: the grouping of hours into days happens in SQL before it and is not modelled; neither is the average per complete year.
- CsvExport.IgnitionDaysCsv: the rows arrive as the query returns them; the fallback from a German to a plain name happens before.
- MonitoringBox.ParseBbox: the text of an operator's box arrives as the numbers JavaScript makes of it.
- Hazard types named like members every JavaScript object inherits, which a record lookup would find, are not modelled.
- Floating-point rounding: numbers are reals, and only the explicit rounding steps are modelled.
- exp, ln, pow and sqrt are parameters obeying the laws in RealMath; days with a month outside 1 to 12, more than 60 °C, or negative wind or rain are excluded by ValidDay, since some formulas have no value there.
- HTTP, WebSocket, queue, PostGIS and Redis plumbing beyond unique keys, SET NX with expiry and redelivery; guards, signing and configuration parsing.
- Angular components, map rendering, wording and PDF layout; the clients of FIRMS, GeoSphere and Open-Meteo.
- Small classifiers and status flags (watchdog, readiness, compass points), which would only add easy members.
