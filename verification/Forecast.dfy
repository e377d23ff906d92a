/**
 Ignition windows of a zone's hourly forecast, the live rule read forwards
 (backend/src/forecast/forecast.service.ts).
 */
module Forecast {
  import opened Wrappers
  import opened AlertRule
  import opened Runs

  datatype Hour = Hour(at: int, conditions: Conditions)

  datatype IgnitionWindow = IgnitionWindow(from: int, to: int, peakTemperatureC: real, minSoilMoisturePct: real)

  function Qualifying(hours: seq<Hour>): (flags: seq<bool>)
    ensures |flags| == |hours|
    ensures forall i :: 0 <= i < |hours| ==> flags[i] == WindowOpen(hours[i].conditions)
  {
    seq(|hours|, i requires 0 <= i < |hours| => WindowOpen(hours[i].conditions))
  }

  function Max(a: real, b: real): real { if a >= b then a else b }

  function Min(a: real, b: real): real { if a <= b then a else b }

  function PeakTemperature(hours: seq<Hour>, first: nat, last: nat): real
    requires first <= last < |hours|
    decreases last
  {
    if first == last then hours[last].conditions.temperatureC
    else Max(PeakTemperature(hours, first, last - 1), hours[last].conditions.temperatureC)
  }

  function MinMoisture(hours: seq<Hour>, first: nat, last: nat): real
    requires first <= last < |hours|
    decreases last
  {
    if first == last then hours[last].conditions.soilMoisturePct
    else Min(MinMoisture(hours, first, last - 1), hours[last].conditions.soilMoisturePct)
  }

  /** They are the hottest and the driest reading of hours[first..last]. */
  lemma {:induction false} PeaksAreExtremes(hours: seq<Hour>, first: nat, last: nat)
    requires first <= last < |hours|
    ensures forall i :: first <= i <= last ==>
                          && hours[i].conditions.temperatureC <= PeakTemperature(hours, first, last)
                          && MinMoisture(hours, first, last) <= hours[i].conditions.soilMoisturePct
    ensures exists i :: first <= i <= last && hours[i].conditions.temperatureC == PeakTemperature(hours, first, last)
    ensures exists i :: first <= i <= last && hours[i].conditions.soilMoisturePct == MinMoisture(hours, first, last)
    decreases last
  {
    if first < last {
      PeaksAreExtremes(hours, first, last - 1);
      var i :| first <= i <= last - 1 && hours[i].conditions.temperatureC == PeakTemperature(hours, first, last - 1);
      var j :| first <= j <= last - 1 && hours[j].conditions.soilMoisturePct == MinMoisture(hours, first, last - 1);
      assert hours[last].conditions.temperatureC == PeakTemperature(hours, first, last)
          || hours[i].conditions.temperatureC == PeakTemperature(hours, first, last);
      assert hours[last].conditions.soilMoisturePct == MinMoisture(hours, first, last)
          || hours[j].conditions.soilMoisturePct == MinMoisture(hours, first, last);
    }
  }

  /** The window a run of hours amounts to. */
  function WindowOf(hours: seq<Hour>, r: Run): IgnitionWindow
    requires r.first <= r.last < |hours|
  {
    IgnitionWindow(hours[r.first].at, hours[r.last].at,
                   PeakTemperature(hours, r.first, r.last), MinMoisture(hours, r.first, r.last))
  }

  ghost predicate Describe(hours: seq<Hour>, runs: seq<Run>, windows: seq<IgnitionWindow>) {
    && |windows| == |runs|
    && forall k :: 0 <= k < |runs| ==> runs[k].first <= runs[k].last < |hours| && windows[k] == WindowOf(hours, runs[k])
  }

  /** After `i` hours the finished windows, with the open one last when there
      is one, describe the runs so far. */
  ghost predicate Progress(hours: seq<Hour>, runs: seq<Run>, i: nat,
                           windows: seq<IgnitionWindow>, open: Option<IgnitionWindow>) {
    && (open.Some? <==> ReachesEnd(runs, i))
    && Describe(hours, runs, if open.Some? then windows + [open.value] else windows)
  }

  lemma Closes(hours: seq<Hour>, runs: seq<Run>, i: nat, windows: seq<IgnitionWindow>, open: Option<IgnitionWindow>)
    requires Progress(hours, runs, i, windows, open) && InBounds(runs, i)
    ensures Progress(hours, runs, i + 1, if open.Some? then windows + [open.value] else windows, None)
  {
  }

  lemma Opens(hours: seq<Hour>, runs: seq<Run>, i: nat, windows: seq<IgnitionWindow>, w: IgnitionWindow)
    requires Progress(hours, runs, i, windows, None) && InBounds(runs, i) && i < |hours|
    requires w == WindowOf(hours, Run(i, i))
    ensures Progress(hours, runs + [Run(i, i)], i + 1, windows, Some(w))
  {
  }

  lemma Grows(hours: seq<Hour>, runs: seq<Run>, i: nat, windows: seq<IgnitionWindow>, w: IgnitionWindow, v: IgnitionWindow)
    requires Progress(hours, runs, i, windows, Some(w)) && InBounds(runs, i) && i < |hours|
    requires v == w.(to := hours[i].at,
                     peakTemperatureC := Max(w.peakTemperatureC, hours[i].conditions.temperatureC),
                     minSoilMoisturePct := Min(w.minSoilMoisturePct, hours[i].conditions.soilMoisturePct))
    ensures Progress(hours, runs[..|runs| - 1] + [Run(runs[|runs| - 1].first, i)], i + 1, windows, Some(v))
  {
    var m := |runs| - 1;
    var r := runs[m];
    assert (windows + [w])[m] == w == WindowOf(hours, r);
    assert v == WindowOf(hours, Run(r.first, i));
  }

  // ---------------------------------------------------------------------
  // What a window is, hour by hour
  // ---------------------------------------------------------------------

  /** Thirty degrees and under twenty percent in the same hour. */
  predicate Dangerous(hour: Hour) {
    hour.conditions.temperatureC >= 30.0 && hour.conditions.soilMoisturePct < 20.0
  }

  /** The window from hour a to hour b: dangerous throughout, not to be extended at
      either end, and reported with its ends and its extremes. */
  ghost predicate IsWindow(hours: seq<Hour>, w: IgnitionWindow, a: nat, b: nat) {
    && a <= b < |hours|
    && (forall i :: a <= i <= b ==> Dangerous(hours[i]))
    && (a == 0 || !Dangerous(hours[a - 1]))
    && (b + 1 == |hours| || !Dangerous(hours[b + 1]))
    && w.from == hours[a].at && w.to == hours[b].at
    && (forall i :: a <= i <= b ==>
          && hours[i].conditions.temperatureC <= w.peakTemperatureC
          && w.minSoilMoisturePct <= hours[i].conditions.soilMoisturePct)
    && (exists i :: a <= i <= b && hours[i].conditions.temperatureC == w.peakTemperatureC)
    && (exists i :: a <= i <= b && hours[i].conditions.soilMoisturePct == w.minSoilMoisturePct)
  }

  /** One window for each stretch, in order, and every dangerous hour in one. */
  ghost predicate AreTheWindows(hours: seq<Hour>, runs: seq<Run>, windows: seq<IgnitionWindow>) {
    && |windows| == |runs|
    && (forall k :: 0 <= k < |runs| ==> IsWindow(hours, windows[k], runs[k].first, runs[k].last))
    && (forall j, k :: 0 <= j < k < |runs| ==> runs[j].last < runs[k].first)
    && (forall i :: 0 <= i < |hours| && Dangerous(hours[i]) ==>
          exists k :: 0 <= k < |runs| && runs[k].first <= i <= runs[k].last)
  }

  lemma FlagIsDangerous(hours: seq<Hour>, i: nat)
    requires i < |hours|
    ensures Qualifying(hours)[i] <==> Dangerous(hours[i])
  {
  }

  lemma RunIsAWindow(hours: seq<Hour>, r: Run)
    requires r.first <= r.last < |hours|
    requires forall i :: r.first <= i <= r.last ==> Dangerous(hours[i])
    requires r.first == 0 || !Dangerous(hours[r.first - 1])
    requires r.last + 1 == |hours| || !Dangerous(hours[r.last + 1])
    ensures IsWindow(hours, WindowOf(hours, r), r.first, r.last)
  {
    hide PeakTemperature, MinMoisture, Dangerous;
    PeaksAreExtremes(hours, r.first, r.last);
  }

  lemma DescribedIsAWindow(hours: seq<Hour>, windows: seq<IgnitionWindow>, k: nat)
    requires Describe(hours, RunsOf(Qualifying(hours)), windows) && k < |windows|
    ensures var runs := RunsOf(Qualifying(hours));
            IsWindow(hours, windows[k], runs[k].first, runs[k].last)
  {
    hide RunsOf, WindowOf, IsWindow, Dangerous, Qualifying;
    var flags := Qualifying(hours);
    var r := RunsOf(flags)[k];
    RunsOfAreMaximal(flags);
    RunsCannotGrow(flags, RunsOf(flags), k);
    assert Within(flags, r);
    forall i | 0 <= i < |hours| ensures flags[i] <==> Dangerous(hours[i]) {
      FlagIsDangerous(hours, i);
    }
    RunIsAWindow(hours, r);
  }

  lemma DescribedAreTheWindows(hours: seq<Hour>, windows: seq<IgnitionWindow>)
    requires Describe(hours, RunsOf(Qualifying(hours)), windows)
    ensures AreTheWindows(hours, RunsOf(Qualifying(hours)), windows)
  {
    hide RunsOf, IsWindow, Dangerous, Qualifying, WindowOf;
    var flags := Qualifying(hours);
    var runs := RunsOf(flags);
    RunsOfAreMaximal(flags);
    forall k | 0 <= k < |runs| ensures IsWindow(hours, windows[k], runs[k].first, runs[k].last) {
      DescribedIsAWindow(hours, windows, k);
    }
    forall j, k | 0 <= j < k < |runs| ensures runs[j].last < runs[k].first {}
    forall i | 0 <= i < |hours| && Dangerous(hours[i]) ensures exists k :: 0 <= k < |runs| && runs[k].first <= i <= runs[k].last {
      FlagIsDangerous(hours, i);
      assert flags[i] && InSome(runs, i);
      var k :| 0 <= k < |runs| && Contains(runs[k], i);
    }
  }

  /** The first dangerous hour of the forecast. */
  ghost predicate IsFirstDangerous(hours: seq<Hour>, i: nat) {
    i < |hours| && Dangerous(hours[i]) && forall j :: 0 <= j < i ==> !Dangerous(hours[j])
  }

  lemma WindowEnds(hours: seq<Hour>, w: IgnitionWindow, a: nat, b: nat)
    requires IsWindow(hours, w, a, b)
    ensures a <= b < |hours| && w.from == hours[a].at && Dangerous(hours[a])
    ensures forall i :: a <= i <= b ==> Dangerous(hours[i])
  {
  }

  lemma FirstWindowStartsThere(hours: seq<Hour>, runs: seq<Run>, windows: seq<IgnitionWindow>, i: nat)
    requires AreTheWindows(hours, runs, windows) && IsFirstDangerous(hours, i)
    ensures windows != [] && windows[0].from == hours[i].at
  {
    hide IsWindow, Dangerous;
    var k :| 0 <= k < |runs| && runs[k].first <= i <= runs[k].last;
    WindowEnds(hours, windows[0], runs[0].first, runs[0].last);
    WindowEnds(hours, windows[k], runs[k].first, runs[k].last);
    if k > 0 {
      assert false;
    }
  }

  lemma NoWindowYet(hours: seq<Hour>)
    ensures Progress(hours, RunsOf(Qualifying(hours)[..0]), 0, [], None)
  {
  }

  /** The scan of the forecast. Each maximal run of open hours becomes one window,
      in order, from its first to its last hour, with its hottest and its driest
      reading. */
  method FindWindows(hours: seq<Hour>) returns (windows: seq<IgnitionWindow>)
    ensures Describe(hours, RunsOf(Qualifying(hours)), windows)
    ensures AreTheWindows(hours, RunsOf(Qualifying(hours)), windows)
  {
    hide AreTheWindows, Describe;
    NoWindowYet(hours);
    windows := [];
    var open: Option<IgnitionWindow> := None;
    ghost var flags := Qualifying(hours);
    for i := 0 to |hours|
      invariant Progress(hours, RunsOf(flags[..i]), i, windows, open)
    {
      ghost var before := RunsOf(flags[..i]);
      assert flags[..i + 1][..i] == flags[..i];
      LastRunIsOpen(flags[..i]);
      var hour := hours[i];
      var qualifies := hour.conditions.temperatureC >= IGNITION_TEMPERATURE_C
                       && hour.conditions.soilMoisturePct < CRITICAL_SOIL_MOISTURE_PCT;
      if !qualifies {
        Closes(hours, before, i, windows, open);
        if open.Some? {
          windows := windows + [open.value];
          open := None;
        }
      } else if open.None? {
        open := Some(IgnitionWindow(hour.at, hour.at, hour.conditions.temperatureC, hour.conditions.soilMoisturePct));
        Opens(hours, before, i, windows, open.value);
      } else {
        var w := open.value;
        open := Some(w.(to := hour.at,
                        peakTemperatureC := Max(w.peakTemperatureC, hour.conditions.temperatureC),
                        minSoilMoisturePct := Min(w.minSoilMoisturePct, hour.conditions.soilMoisturePct)));
        Grows(hours, before, i, windows, w, open.value);
      }
    }
    assert flags[..|hours|] == flags;
    if open.Some? {
      windows := windows + [open.value];
    }
    DescribedAreTheWindows(hours, windows);
  }

  /** An hour lies in one of the windows exactly when the live rule would page
      for white phosphorus on it, with no probe and no persistence evidence. */
  lemma WindowsAreTheLiveRule(hours: seq<Hour>, i: nat, confidence: Confidence)
    requires i < |hours|
    ensures InSome(RunsOf(Qualifying(hours)), i) <==>
            Decide(DecisionInput(Some("white_phosphorus"), confidence, hours[i].conditions, None, None)).level
            == CriticalPhosphorusFire
  {
    RunsOfAreMaximal(Qualifying(hours));
    InSomeRunIffSet(Qualifying(hours), RunsOf(Qualifying(hours)), i);
  }

  /** What a forecast says of a zone; `None` hours until a window when there is
      none, and nothing at all for a hazard that weather does not gate. */
  datatype ZoneForecast = ZoneForecast(
    weatherGated: bool,
    windows: seq<IgnitionWindow>,
    hoursUntilNextWindow: Option<int>,
    soilAlreadyDry: bool)

  const HOUR_MS: int := 3_600_000

  /** Math.round: the nearest integer, halves upwards. */
  function RoundHours(ms: int): int {
    (ms + HOUR_MS / 2) / HOUR_MS
  }

  /** The first window, when there is one. */
  lemma WindowExists(hours: seq<Hour>, windows: seq<IgnitionWindow>)
    requires Describe(hours, RunsOf(Qualifying(hours)), windows)
    ensures windows == [] <==> forall i :: 0 <= i < |hours| ==> !WindowOpen(hours[i].conditions)
  {
    var flags := Qualifying(hours);
    var runs := RunsOf(flags);
    RunsOfAreMaximal(flags);
    if runs != [] {
      assert Within(flags, runs[0]);
      assert flags[runs[0].first];
    } else {
      forall i | 0 <= i < |hours| ensures !WindowOpen(hours[i].conditions) {
        InSomeRunIffSet(flags, runs, i);
      }
    }
  }

  lemma OnlyPhosphorusTracksTheWindow(hazardType: string)
    ensures ProfileFor(hazardType).tracksIgnitionWindow <==>
            hazardType in {"white_phosphorus", "white_phosphorus_forest"}
  {
    HazardNamesDiffer();
  }

  /** Hours until a window: zero once it has begun, and otherwise within half an
      hour of the truth. */
  function HoursUntil(from: int, now: int): (h: int)
    ensures h >= 0
    ensures from <= now ==> h == 0
    ensures from >= now ==> -HOUR_MS <= 2 * (from - now - h * HOUR_MS) <= HOUR_MS
  {
    var rounded := RoundHours(from - now);
    if rounded > 0 then rounded else 0
  }

  method Evaluate(hazardType: string, hours: seq<Hour>, now: int) returns (f: ZoneForecast)
    ensures f.weatherGated <==> hazardType in {"white_phosphorus", "white_phosphorus_forest"}
    ensures !f.weatherGated ==> f == ZoneForecast(false, [], None, false)
    ensures f.weatherGated ==>
              && Describe(hours, RunsOf(Qualifying(hours)), f.windows)
              && (f.windows == [] <==> forall i :: 0 <= i < |hours| ==> !WindowOpen(hours[i].conditions))
              && f.hoursUntilNextWindow ==
                 (if f.windows == [] then None else Some(HoursUntil(f.windows[0].from, now)))
              && AreTheWindows(hours, RunsOf(Qualifying(hours)), f.windows)
              && (f.hoursUntilNextWindow.None? <==> forall i :: 0 <= i < |hours| ==> !Dangerous(hours[i]))
              && (forall i: nat :: IsFirstDangerous(hours, i) ==>
                    f.hoursUntilNextWindow == Some(HoursUntil(hours[i].at, now)))
              && (f.soilAlreadyDry <==> hours != [] && hours[0].conditions.soilMoisturePct < 20.0)
  {
    OnlyPhosphorusTracksTheWindow(hazardType);
    var profile := ProfileFor(hazardType);
    if !profile.tracksIgnitionWindow {
      return ZoneForecast(false, [], None, false);
    }
    var windows := FindWindows(hours);
    forall i: nat | IsFirstDangerous(hours, i) ensures windows != [] && windows[0].from == hours[i].at {
      FirstWindowStartsThere(hours, RunsOf(Qualifying(hours)), windows, i);
    }
    assert forall h: Hour :: Dangerous(h) <==> WindowOpen(h.conditions);
    WindowExists(hours, windows);
    var until := if |windows| > 0 then Some(HoursUntil(windows[0].from, now)) else None;
    var soilDry := |hours| > 0 && hours[0].conditions.soilMoisturePct < CRITICAL_SOIL_MOISTURE_PCT;
    f := ZoneForecast(true, windows, until, soilDry);
  }
}
