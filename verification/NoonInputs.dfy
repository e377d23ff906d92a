/**
 From an hourly weather series to the daily noon observations of the index
 (the last part of workers/src/fire-danger/fwi.ts).
 */
module NoonInputs {
  import opened FireWeather

  /** The parts of the local ISO time that the code slices out of it. */
  datatype LocalTime = LocalTime(date: string, month: int, hour: nat, minute: nat)

  datatype WeatherHour = WeatherHour(
    at: LocalTime,
    temperatureC: real,
    relativeHumidityPct: real,
    windSpeedKmh: real,
    precipitationMm: real)

  predicate IsNoon(h: WeatherHour) {
    h.at.hour == 12 && h.at.minute == 0
  }

  /** The rain of hours[lo..hi]. */
  function RainSum(hours: seq<WeatherHour>, lo: nat, hi: nat): real
    requires lo <= hi <= |hours|
    decreases hi
  {
    if lo == hi then 0.0 else RainSum(hours, lo, hi - 1) + hours[hi - 1].precipitationMm
  }

  lemma {:induction false} RainSplits(hours: seq<WeatherHour>, lo: nat, mid: nat, hi: nat)
    requires lo <= mid <= hi <= |hours|
    ensures RainSum(hours, lo, hi) == RainSum(hours, lo, mid) + RainSum(hours, mid, hi)
    decreases hi
  {
    if mid < hi {
      RainSplits(hours, lo, mid, hi - 1);
    }
  }

  /** The 24 hourly values up to a noon start here. */
  function WindowStart(noon: nat): nat {
    if noon < 23 then 0 else noon - 23
  }

  function DayAt(hours: seq<WeatherHour>, noon: nat): DailyWeather
    requires noon < |hours|
  {
    var h := hours[noon];
    DailyWeather(h.at.date, h.at.month, h.temperatureC, h.relativeHumidityPct, h.windSpeedKmh,
                 RainSum(hours, WindowStart(noon), noon + 1))
  }

  /** The rows that are a 12:00 reading, in order. */
  function Noons(hours: seq<WeatherHour>, n: nat): (noons: seq<nat>)
    requires n <= |hours|
    ensures forall k :: 0 <= k < |noons| ==> noons[k] < n && IsNoon(hours[noons[k]])
    ensures forall j, k :: 0 <= j < k < |noons| ==> noons[j] < noons[k]
    ensures forall i :: 0 <= i < n && IsNoon(hours[i]) ==> i in noons
  {
    if n == 0 then []
    else if IsNoon(hours[n - 1]) then Noons(hours, n - 1) + [n - 1]
    else Noons(hours, n - 1)
  }

  function Precipitation(hours: seq<WeatherHour>): (rain: seq<real>)
    ensures |rain| == |hours| && forall i :: 0 <= i < |hours| ==> rain[i] == hours[i].precipitationMm
  {
    seq(|hours|, i requires 0 <= i < |hours| => hours[i].precipitationMm)
  }

  function Total(amounts: seq<real>): real {
    if amounts == [] then 0.0 else amounts[0] + Total(amounts[1..])
  }

  lemma {:induction false} TotalSnoc(amounts: seq<real>, x: real)
    ensures Total(amounts + [x]) == Total(amounts) + x
    decreases |amounts|
  {
    if amounts == [] {
      assert [x][1..] == [];
    } else {
      assert (amounts + [x])[1..] == amounts[1..] + [x];
      TotalSnoc(amounts[1..], x);
    }
  }

  /** The running sum of the inner loop is the total of the precipitation column. */
  lemma {:induction false} RainIsTheTotal(hours: seq<WeatherHour>, lo: nat, hi: nat)
    requires lo <= hi <= |hours|
    ensures RainSum(hours, lo, hi) == Total(Precipitation(hours)[lo..hi])
    decreases hi
  {
    if lo < hi {
      var rain := Precipitation(hours);
      RainIsTheTotal(hours, lo, hi - 1);
      assert rain[lo..hi] == rain[lo..hi - 1] + [rain[hi - 1]];
      TotalSnoc(rain[lo..hi - 1], rain[hi - 1]);
    }
  }

  /** One day for every noon row, none invented, with the rain of the 24 rows
      that end there. */
  method DailyInputsFromHourly(hours: seq<WeatherHour>) returns (days: seq<DailyWeather>)
    ensures var noons := Noons(hours, |hours|);
            && |days| == |noons|
            && (forall k :: 0 <= k < |noons| ==> days[k] == DayAt(hours, noons[k]))
            && forall k :: 0 <= k < |noons| ==>
                 var h := hours[noons[k]];
                 && days[k].date == h.at.date && days[k].month == h.at.month
                 && days[k].temperatureC == h.temperatureC
                 && days[k].relativeHumidityPct == h.relativeHumidityPct
                 && days[k].windSpeedKmh == h.windSpeedKmh
                 && days[k].rain24hMm == Total(Precipitation(hours)[WindowStart(noons[k])..noons[k] + 1])
  {
    days := [];
    for i := 0 to |hours|
      invariant var noons := Noons(hours, i);
                && |days| == |noons|
                && forall k :: 0 <= k < |noons| ==> days[k] == DayAt(hours, noons[k])
    {
      var hour := hours[i];
      if !(hour.at.hour == 12 && hour.at.minute == 0) {
        continue;
      }
      var rain := 0.0;
      var start := if i < 23 then 0 else i - 23;
      for j := start to i + 1
        invariant rain == RainSum(hours, start, j)
      {
        rain := rain + hours[j].precipitationMm;
      }
      days := days + [DailyWeather(hour.at.date, hour.at.month, hour.temperatureC, hour.relativeHumidityPct,
                                   hour.windSpeedKmh, rain)];
    }
    forall i | 0 <= i < |hours|
      ensures RainSum(hours, WindowStart(i), i + 1) == Total(Precipitation(hours)[WindowStart(i)..i + 1])
    {
      RainIsTheTotal(hours, WindowStart(i), i + 1);
    }
  }

  // ---------------------------------------------------------------------
  // Is every hour's rain counted once?
  // ---------------------------------------------------------------------

  ghost predicate Ascending(noons: seq<nat>) {
    forall j, k :: 0 <= j < k < |noons| ==> noons[j] < noons[k]
  }

  ghost predicate InWindow(noon: nat, h: nat) {
    WindowStart(noon) <= h <= noon
  }

  ghost predicate DayApart(noons: seq<nat>) {
    forall k :: 0 <= k < |noons| - 1 ==> noons[k + 1] == noons[k] + 24
  }

  ghost predicate Counted(noons: seq<nat>, h: nat) {
    exists k :: 0 <= k < |noons| && InWindow(noons[k], h)
  }

  /** Every hour from the first window to the last noon lies in one daily
      window, and in one only. */
  ghost predicate EachHourOnce(noons: seq<nat>) {
    && (forall h :: |noons| > 0 && WindowStart(noons[0]) <= h <= noons[|noons| - 1] ==> Counted(noons, h))
    && (forall j, k, h :: 0 <= j < k < |noons| ==> !(InWindow(noons[j], h) && InWindow(noons[k], h)))
  }

  lemma {:induction false} NoonAt(noons: seq<nat>, k: nat)
    requires DayApart(noons) && k < |noons|
    ensures noons[k] == noons[0] + 24 * k
    decreases k
  {
    if k > 0 {
      NoonAt(noons, k - 1);
      assert noons[(k - 1) + 1] == noons[k - 1] + 24;
    }
  }

  lemma DayApartCountsOnce(noons: seq<nat>)
    requires DayApart(noons)
    ensures EachHourOnce(noons)
  {
    forall h | |noons| > 0 && WindowStart(noons[0]) <= h <= noons[|noons| - 1] ensures Counted(noons, h) {
      var k := if h <= noons[0] then 0 else (h - noons[0] + 23) / 24;
      NoonAt(noons, |noons| - 1);
      NoonAt(noons, k);
      assert InWindow(noons[k], h);
    }
    forall j, k, h | 0 <= j < k < |noons| ensures !(InWindow(noons[j], h) && InWindow(noons[k], h)) {
      NoonAt(noons, j);
      NoonAt(noons, k);
    }
  }

  lemma CountedOnceIsDayApart(noons: seq<nat>, k: nat)
    requires Ascending(noons) && EachHourOnce(noons) && k + 1 < |noons|
    ensures noons[k + 1] == noons[k] + 24
  {
    if noons[k + 1] < noons[k] + 24 {
      // The rain of the earlier noon hour falls into both windows.
      assert InWindow(noons[k], noons[k]) && InWindow(noons[k + 1], noons[k]);
    } else if noons[k + 1] > noons[k] + 24 {
      LostHour(noons, k);
      assert false;
    }
  }

  /** With more than 24 rows between two noons an hour falls into no window. */
  lemma LostHour(noons: seq<nat>, k: nat)
    requires Ascending(noons) && k + 1 < |noons| && noons[k + 1] > noons[k] + 24
    ensures WindowStart(noons[0]) <= noons[k + 1] - 24 <= noons[|noons| - 1]
    ensures !Counted(noons, noons[k + 1] - 24)
  {
    assert k > 0 ==> noons[0] < noons[k];
    assert k + 1 < |noons| - 1 ==> noons[k + 1] < noons[|noons| - 1];
    forall j | 0 <= j < |noons| ensures !InWindow(noons[j], noons[k + 1] - 24) {
      assert j < k ==> noons[j] < noons[k];
      assert k + 1 < j ==> noons[k + 1] < noons[j];
    }
  }

  /** Every hour is counted exactly once iff successive noons are 24 rows apart;
      on the two days a year when local clocks change they are not. */
  lemma EachHourOnceExactly(noons: seq<nat>)
    requires Ascending(noons)
    ensures EachHourOnce(noons) <==> DayApart(noons)
  {
    if DayApart(noons) {
      DayApartCountsOnce(noons);
    }
    if EachHourOnce(noons) {
      forall k | 0 <= k < |noons| - 1 ensures noons[k + 1] == noons[k] + 24 {
        CountedOnceIsDayApart(noons, k);
      }
    }
  }

  function TotalRain(days: seq<DailyWeather>): real {
    if days == [] then 0.0 else TotalRain(days[..|days| - 1]) + days[|days| - 1].rain24hMm
  }

  /** Then the daily totals add up to the rain of the hourly series. */
  lemma {:induction false} DailyRainAddsUp(hours: seq<WeatherHour>, noons: seq<nat>, days: seq<DailyWeather>)
    requires |days| == |noons| > 0 && DayApart(noons)
    requires forall k :: 0 <= k < |noons| ==> noons[k] < |hours| && days[k] == DayAt(hours, noons[k])
    ensures WindowStart(noons[0]) <= noons[|noons| - 1]
    ensures TotalRain(days) == RainSum(hours, WindowStart(noons[0]), noons[|noons| - 1] + 1)
    decreases |days|
  {
    var n := |noons| - 1;
    var last := noons[n];
    if n == 0 {
      assert TotalRain(days) == TotalRain(days[..0]) + days[0].rain24hMm;
    } else {
      var before := noons[..n];
      forall k | 0 <= k < |before| - 1 ensures before[k + 1] == before[k] + 24 {
        assert noons[k + 1] == noons[k] + 24;
      }
      DailyRainAddsUp(hours, before, days[..n]);
      assert noons[(n - 1) + 1] == noons[n - 1] + 24;
      assert before[n - 1] == noons[n - 1];
      assert WindowStart(last) == noons[n - 1] + 1;
      RainSplits(hours, WindowStart(noons[0]), noons[n - 1] + 1, last + 1);
    }
  }
}
