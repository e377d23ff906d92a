/**
 How long the drought code remembers its starting value. Two chains fed the
 same days keep their order and never drift apart, and it takes rain to bring
 them closer at all.
 */
module DroughtMemory {
  import opened RealMath
  import opened FireWeather

  /** The fuel's dryness as the formulas see it: exp(-code/400). */
  function Store(m: Elementary, code: real): real {
    Exp(m, -code / 400.0)
  }

  function Rainfall(rainMm: real): real {
    (0.83 * rainMm - 1.27) * 3.937
  }

  lemma DryerCodeStoresLess(m: Elementary, p: real, q: real)
    requires Lawful(m) && p < q
    ensures 0.0 < Store(m, q) < Store(m, p)
  {
    hide Lawful, Exp;
    ExpPositive(m, -q / 400.0);
    ExpMonotone(m, -q / 400.0, -p / 400.0);
  }

  lemma SmallerDivisor(a: real, b: real, c: real)
    requires a > 0.0 && 0.0 < b < c
    ensures a / c < a / b
  {
    assert a / b * b == a && a / c * c == a;
    if a / b <= a / c {
      ProductSign(a / c - a / b, b);
      ProductSign(a / c, c - b);
      DividePositive(a, c);
    }
  }

  /** Rain takes more off a drier code. */
  lemma ReliefGrows(m: Elementary, p: real, q: real, rainMm: real)
    requires Lawful(m) && p < q && rainMm > DROUGHT_RAIN_MM
    ensures DroughtRelief(m, p, rainMm) < DroughtRelief(m, q, rainMm)
  {
    hide Lawful, Exp, Ln;
    DryerCodeStoresLess(m, p, q);
    var c := 3.937 * (0.83 * rainMm - 1.27);
    SmallerDivisor(c, 800.0 * Exp(m, -q / 400.0), 800.0 * Exp(m, -p / 400.0));
    DividePositive(c, 800.0 * Exp(m, -p / 400.0));
    LnMonotone(m, 1.0 + c / (800.0 * Exp(m, -p / 400.0)), 1.0 + c / (800.0 * Exp(m, -q / 400.0)));
  }

  lemma QuotientTimes(e: real, c: real)
    requires e > 0.0
    ensures (1.0 + c / (800.0 * e)) * e == e + c / 800.0
  {
    assert c / (800.0 * e) * e == c / 800.0;
  }

  /** The code that rain leaves, before it is cut off at zero, in closed form. */
  lemma ReliefInClosedForm(m: Elementary, p: real, rainMm: real)
    requires Lawful(m) && rainMm > DROUGHT_RAIN_MM
    ensures Store(m, p) > 0.0
    ensures p - DroughtRelief(m, p, rainMm) == -400.0 * Ln(m, Store(m, p) + Rainfall(rainMm) / 800.0)
  {
    hide Lawful, Exp, Ln;
    var e := Exp(m, -p / 400.0);
    var c := 3.937 * (0.83 * rainMm - 1.27);
    ExpPositive(m, -p / 400.0);
    DividePositive(c, 800.0 * e);
    QuotientTimes(e, c);
    var x := 1.0 + c / (800.0 * e);
    LnProduct(m, x, e);
    LnOfExp(m, -p / 400.0);
    SameLn(m, x * e, Store(m, p) + Rainfall(rainMm) / 800.0);
    assert Ln(m, e) == -p / 400.0;
    ReliefIs(m, p, rainMm, x);
  }

  lemma ReliefIs(m: Elementary, p: real, rainMm: real, x: real)
    requires Lawful(m) && rainMm > DROUGHT_RAIN_MM && Exp(m, -p / 400.0) > 0.0
    requires x == 1.0 + (3.937 * (0.83 * rainMm - 1.27)) / (800.0 * Exp(m, -p / 400.0)) && x > 0.0
    ensures DroughtRelief(m, p, rainMm) == 400.0 * Ln(m, x)
  {
    hide Lawful, Exp;
  }

  lemma SameLn(m: Elementary, x: real, y: real)
    requires x == y && x > 0.0
    ensures Ln(m, x) == Ln(m, y)
  {
  }

  /** Rain keeps the order of two codes. */
  lemma RainKeepsOrder(m: Elementary, p: real, q: real, rainMm: real)
    requires Lawful(m) && p < q && rainMm > DROUGHT_RAIN_MM
    ensures p - DroughtRelief(m, p, rainMm) < q - DroughtRelief(m, q, rainMm)
  {
    hide Lawful, Ln, Store, DroughtRelief;
    ReliefInClosedForm(m, p, rainMm);
    ReliefInClosedForm(m, q, rainMm);
    DryerCodeStoresLess(m, p, q);
    LnMonotone(m, Store(m, q) + Rainfall(rainMm) / 800.0, Store(m, p) + Rainfall(rainMm) / 800.0);
  }

  /** One day keeps the order and never widens the distance; it keeps the
      distance exactly on a day without rain over 2.8 mm. */
  lemma OneDay(m: Elementary, p: real, q: real, temperatureC: real, rainMm: real, month: int)
    requires Lawful(m) && 0.0 <= p < q && 1 <= month <= 12
    ensures var a := DroughtCode(m, p, temperatureC, rainMm, month);
            var b := DroughtCode(m, q, temperatureC, rainMm, month);
            && a <= b
            && (rainMm <= DROUGHT_RAIN_MM ==> b - a == q - p)
            && (rainMm > DROUGHT_RAIN_MM ==> b - a < q - p)
  {
    hide Lawful, DroughtRelief, Evaporation;
    if rainMm > DROUGHT_RAIN_MM {
      ReliefGrows(m, p, q, rainMm);
      RainKeepsOrder(m, p, q, rainMm);
    }
  }

  function Gap(m: Elementary, s: MoistureCodes, t: MoistureCodes, days: seq<DailyWeather>): real
    requires Lawful(m) && ValidCodes(s) && ValidCodes(t) && ValidDays(days)
  {
    CodesAfter(m, t, days).dc - CodesAfter(m, s, days).dc
  }

  lemma NextGap(m: Elementary, s: MoistureCodes, t: MoistureCodes, days: seq<DailyWeather>, day: DailyWeather)
    requires Lawful(m) && ValidCodes(s) && ValidCodes(t) && ValidDays(days) && ValidDay(day)
    requires Gap(m, s, t, days) >= 0.0
    ensures 0.0 <= Gap(m, s, t, days + [day]) <= Gap(m, s, t, days)
    ensures day.rain24hMm <= DROUGHT_RAIN_MM ==> Gap(m, s, t, days + [day]) == Gap(m, s, t, days)
    ensures day.rain24hMm > DROUGHT_RAIN_MM && Gap(m, s, t, days) > 0.0 ==>
              Gap(m, s, t, days + [day]) < Gap(m, s, t, days)
  {
    hide Lawful, FineFuelMoistureCode, DuffMoistureCode, DroughtCode, InitialSpreadIndex, BuildupIndex, FireWeatherIndex;
    assert (days + [day])[..|days|] == days;
    var p := CodesAfter(m, s, days).dc;
    var q := CodesAfter(m, t, days).dc;
    if p < q {
      OneDay(m, p, q, day.temperatureC, day.rain24hMm, day.month);
    }
  }

  /** Over any days the chain that starts drier stays drier, and the distance
      between the two never grows, from any day on. */
  lemma {:induction false} DistanceNeverGrows(m: Elementary, s: MoistureCodes, t: MoistureCodes,
                                              days: seq<DailyWeather>, more: seq<DailyWeather>)
    requires Lawful(m) && ValidCodes(s) && ValidCodes(t) && s.dc <= t.dc
    requires ValidDays(days) && ValidDays(more)
    ensures 0.0 <= Gap(m, s, t, days + more) <= Gap(m, s, t, days) <= t.dc - s.dc
    decreases |days| + |more|
  {
    hide Lawful, Gap;
    if more != [] {
      var front := more[..|more| - 1];
      DistanceNeverGrows(m, s, t, days, front);
      assert days + more == (days + front) + [more[|more| - 1]];
      NextGap(m, s, t, days + front, more[|more| - 1]);
    } else if days != [] {
      var front := days[..|days| - 1];
      DistanceNeverGrows(m, s, t, front, []);
      assert front + [] == front;
      assert days + more == days && days == front + [days[|days| - 1]];
      NextGap(m, s, t, front, days[|days| - 1]);
    } else {
      assert days + more == [];
      NoDays(m, s, t);
    }
  }

  lemma NoDays(m: Elementary, s: MoistureCodes, t: MoistureCodes)
    requires Lawful(m) && ValidCodes(s) && ValidCodes(t)
    ensures Gap(m, s, t, []) == t.dc - s.dc
  {
  }

  ghost predicate HasDroughtRain(days: seq<DailyWeather>) {
    exists i :: 0 <= i < |days| && days[i].rain24hMm > DROUGHT_RAIN_MM
  }

  /** The influence of the starting value shrinks exactly by rain: over days
      without more than 2.8 mm it stays whole, however many they are, so a
      spin-up period alone does not remove it. */
  lemma {:induction false} OnlyRainForgetsTheStart(m: Elementary, s: MoistureCodes, t: MoistureCodes, days: seq<DailyWeather>)
    requires Lawful(m) && ValidCodes(s) && ValidCodes(t) && s.dc < t.dc && ValidDays(days)
    ensures Gap(m, s, t, days) < t.dc - s.dc <==> HasDroughtRain(days)
    decreases |days|
  {
    hide Lawful, Gap;
    NoDays(m, s, t);
    if days != [] {
      var front := days[..|days| - 1];
      var last := days[|days| - 1];
      OnlyRainForgetsTheStart(m, s, t, front);
      DistanceNeverGrows(m, s, t, front, []);
      assert front + [] == front && days == front + [last];
      NextGap(m, s, t, front, last);
      assert HasDroughtRain(days) <==> HasDroughtRain(front) || last.rain24hMm > DROUGHT_RAIN_MM by {
        if HasDroughtRain(front) {
          var i :| 0 <= i < |front| && front[i].rain24hMm > DROUGHT_RAIN_MM;
          assert days[i] == front[i];
        }
      }
    }
  }

  // ---------------------------------------------------------------------
  // When the start is forgotten altogether
  // ---------------------------------------------------------------------

  /** Rain heavy enough to take a code down to zero. */
  ghost predicate WashesOut(m: Elementary, code: real, rainMm: real) {
    rainMm > DROUGHT_RAIN_MM && Store(m, code) + Rainfall(rainMm) / 800.0 >= 1.0
  }

  /** Which is rain whose relief is the whole code. */
  lemma WashesOutExactly(m: Elementary, code: real, rainMm: real)
    requires Lawful(m) && rainMm > DROUGHT_RAIN_MM
    ensures WashesOut(m, code, rainMm) <==> code <= DroughtRelief(m, code, rainMm)
  {
    hide Lawful, Ln, Store, DroughtRelief;
    ReliefInClosedForm(m, code, rainMm);
    var x := Store(m, code) + Rainfall(rainMm) / 800.0;
    LnOfOne(m);
    if x >= 1.0 {
      LnMonotone(m, 1.0, x);
    } else {
      LnMonotone(m, x, 1.0);
    }
  }

  /** Two chains meet in one day iff that day's rain washes out the drier one. */
  lemma OneDayForgets(m: Elementary, p: real, q: real, temperatureC: real, rainMm: real, month: int)
    requires Lawful(m) && 0.0 <= p < q && 1 <= month <= 12
    ensures DroughtCode(m, p, temperatureC, rainMm, month) == DroughtCode(m, q, temperatureC, rainMm, month)
       <==> WashesOut(m, q, rainMm)
  {
    hide Lawful, DroughtRelief, Evaporation, Store;
    if rainMm > DROUGHT_RAIN_MM {
      RainKeepsOrder(m, p, q, rainMm);
      WashesOutExactly(m, q, rainMm);
    }
  }

  /** Some day's rain washes out the code that the days before it leave. */
  ghost predicate WashedOut(m: Elementary, t: MoistureCodes, days: seq<DailyWeather>)
    requires Lawful(m) && ValidCodes(t) && ValidDays(days)
  {
    exists i :: 0 <= i < |days| && WashesOut(m, CodesAfter(m, t, days[..i]).dc, days[i].rain24hMm)
  }

  lemma WashedOutNext(m: Elementary, t: MoistureCodes, days: seq<DailyWeather>, day: DailyWeather)
    requires Lawful(m) && ValidCodes(t) && ValidDays(days) && ValidDay(day)
    ensures WashedOut(m, t, days + [day]) <==>
            WashedOut(m, t, days) || WashesOut(m, CodesAfter(m, t, days).dc, day.rain24hMm)
  {
    hide Lawful, CodesAfter, WashesOut;
    var all := days + [day];
    assert all[..|days|] == days && all[|days|] == day;
    forall i | 0 <= i < |days| ensures all[..i] == days[..i] && all[i] == days[i] {}
    if WashedOut(m, t, days) {
      var i :| 0 <= i < |days| && WashesOut(m, CodesAfter(m, t, days[..i]).dc, days[i].rain24hMm);
      assert WashesOut(m, CodesAfter(m, t, all[..i]).dc, all[i].rain24hMm);
    }
    if WashesOut(m, CodesAfter(m, t, days).dc, day.rain24hMm) {
      assert WashesOut(m, CodesAfter(m, t, all[..|days|]).dc, all[|days|].rain24hMm);
    }
    if WashedOut(m, t, all) {
      var i :| 0 <= i < |all| && WashesOut(m, CodesAfter(m, t, all[..i]).dc, all[i].rain24hMm);
      assert i < |days| || i == |days|;
    }
  }

  lemma GapCloses(m: Elementary, s: MoistureCodes, t: MoistureCodes, days: seq<DailyWeather>, day: DailyWeather)
    requires Lawful(m) && ValidCodes(s) && ValidCodes(t) && ValidDays(days) && ValidDay(day)
    requires Gap(m, s, t, days) > 0.0
    ensures Gap(m, s, t, days + [day]) == 0.0 <==> WashesOut(m, CodesAfter(m, t, days).dc, day.rain24hMm)
  {
    hide Lawful, FineFuelMoistureCode, DuffMoistureCode, DroughtCode, InitialSpreadIndex, BuildupIndex, FireWeatherIndex, WashesOut;
    assert (days + [day])[..|days|] == days;
    OneDayForgets(m, CodesAfter(m, s, days).dc, CodesAfter(m, t, days).dc, day.temperatureC, day.rain24hMm, day.month);
  }

  /** The starting value is forgotten for good iff some day's rain washes out
      the drier chain: no number of days without such rain removes it. */
  lemma {:induction false} StartForgottenExactly(m: Elementary, s: MoistureCodes, t: MoistureCodes, days: seq<DailyWeather>)
    requires Lawful(m) && ValidCodes(s) && ValidCodes(t) && s.dc < t.dc && ValidDays(days)
    ensures Gap(m, s, t, days) == 0.0 <==> WashedOut(m, t, days)
    decreases |days|
  {
    hide Lawful, Gap, CodesAfter, WashesOut;
    NoDays(m, s, t);
    if days != [] {
      var front := days[..|days| - 1];
      var last := days[|days| - 1];
      assert days == front + [last];
      StartForgottenExactly(m, s, t, front);
      DistanceNeverGrows(m, s, t, front, []);
      assert front + [] == front;
      WashedOutNext(m, t, front, last);
      if Gap(m, s, t, front) == 0.0 {
        NextGap(m, s, t, front, last);
      } else {
        GapCloses(m, s, t, front, last);
      }
    }
  }
}
