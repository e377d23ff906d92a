/**
 The Canadian Forest Fire Weather Index chain (workers/src/fire-danger/fwi.ts,
 after Van Wagner 1987), over real arithmetic. Every function states in its
 preconditions what the formulas need, so a step that type-checks is a step in
 which every division, logarithm, root and power is inside its domain.
 */
module FireWeather {
  import opened RealMath

  datatype MoistureCodes = MoistureCodes(ffmc: real, dmc: real, dc: real)

  datatype DailyWeather = DailyWeather(
    date: string,
    month: int,
    temperatureC: real,
    relativeHumidityPct: real,
    windSpeedKmh: real,
    rain24hMm: real)

  const INITIAL_CODES := MoistureCodes(85.0, 6.0, 15.0)

  predicate ValidCodes(codes: MoistureCodes) {
    0.0 <= codes.ffmc <= 101.0 && codes.dmc >= 0.0 && codes.dc >= 0.0
  }

  predicate ValidDay(day: DailyWeather) {
    1 <= day.month <= 12 && day.temperatureC <= 60.0 && day.windSpeedKmh >= 0.0 && day.rain24hMm >= 0.0
  }

  function Max(a: real, b: real): real { if a >= b then a else b }

  function Min(a: real, b: real): real { if a <= b then a else b }

  function Clamp(x: real, lo: real, hi: real): (r: real)
    requires lo <= hi
    ensures lo <= r <= hi && (lo <= x <= hi ==> r == x)
  {
    Min(hi, Max(lo, x))
  }

  // ---------------------------------------------------------------------
  // Arithmetic
  // ---------------------------------------------------------------------

  lemma DivideBounds(a: real, b: real, lo: real, hi: real)
    requires b > 0.0 && lo * b <= a <= hi * b
    ensures lo <= a / b <= hi
  {
  }

  lemma DividePositive(a: real, b: real)
    requires a >= 0.0 && b > 0.0
    ensures a / b >= 0.0
    ensures a > 0.0 ==> a / b > 0.0
  {
  }

  // ---------------------------------------------------------------------
  // Fine fuel moisture
  // ---------------------------------------------------------------------

  /** The moisture content that a code stands for. */
  function MoistureOf(ffmc: real): (mo: real)
    requires 0.0 <= ffmc <= 101.0
    ensures 0.0 <= mo <= 249.9
  {
    DivideBounds(147.2 * (101.0 - ffmc), 59.5 + ffmc, 0.0, 249.9);
    (147.2 * (101.0 - ffmc)) / (59.5 + ffmc)
  }

  /** What effective rain adds to the moisture of the litter. */
  function Wetting(m: Elementary, mo: real, rf: real): (w: real)
    requires Lawful(m) && 0.0 <= mo <= 249.9 && rf > 0.0
    ensures w >= 0.0
  {
    hide Lawful, Exp;
    var held := Exp(m, -100.0 / (251.0 - mo));
    var reached := 1.0 - Exp(m, -6.93 / rf);
    ExpPositive(m, -100.0 / (251.0 - mo));
    DividePositive(6.93, rf);
    ExpSign(m, -6.93 / rf);
    ProductSign(42.5 * rf, held);
    ProductSign(42.5 * rf * held, reached);
    42.5 * rf * held * reached
  }

  /** What it adds beyond that where the litter is already soaked. */
  function Soaking(m: Elementary, mo: real, rf: real): (w: real)
    requires Lawful(m) && rf > 0.0
    ensures w >= 0.0
  {
    hide Lawful, Sqrt;
    SqrtNonNegative(m, rf);
    ProductSign(mo - 150.0, mo - 150.0);
    ProductSign(0.0015 * ((mo - 150.0) * (mo - 150.0)), Sqrt(m, rf));
    if mo > 150.0 then 0.0015 * ((mo - 150.0) * (mo - 150.0)) * Sqrt(m, rf) else 0.0
  }

  /** Rain over half a millimetre wets the litter, never beyond 250 percent. */
  function AfterRain(m: Elementary, mo: real, rainMm: real): (r: real)
    requires Lawful(m) && 0.0 <= mo <= 249.9
    ensures mo <= r <= 250.0
    ensures rainMm <= 0.5 ==> r == mo
  {
    hide Lawful, Wetting, Soaking;
    if rainMm > 0.5 then Min(250.0, mo + (Wetting(m, mo, rainMm - 0.5) + Soaking(m, mo, rainMm - 0.5))) else mo
  }

  function HumidityTerm(m: Elementary, rh: real, temperatureC: real): (r: real)
    requires Lawful(m) && rh >= 0.0 && temperatureC <= 60.0
    ensures r >= -7.1
  {
    hide Lawful, Exp;
    var fraction := 1.0 - Exp(m, -0.115 * rh);
    ExpSign(m, -0.115 * rh);
    assert 0.18 * (21.1 - temperatureC) * fraction >= -7.1 by {
      ProductSign(0.18 * (21.1 - temperatureC) + 7.002, fraction);
      ProductSign(7.002, fraction);
    }
    0.18 * (21.1 - temperatureC) * fraction
  }

  /** Equilibrium moisture content for drying. */
  function DryingEquilibrium(m: Elementary, rh: real, temperatureC: real): (ed: real)
    requires Lawful(m) && 0.0 <= rh <= 100.0 && temperatureC <= 60.0
    ensures ed >= -7.1
  {
    hide Lawful, Exp, Pow;
    PowNonNegative(m, rh, 0.679);
    ExpPositive(m, (rh - 100.0) / 10.0);
    0.942 * Pow(m, rh, 0.679) + 11.0 * Exp(m, (rh - 100.0) / 10.0) + HumidityTerm(m, rh, temperatureC)
  }

  /** Equilibrium moisture content for wetting. */
  function WettingEquilibrium(m: Elementary, rh: real, temperatureC: real): real
    requires Lawful(m) && 0.0 <= rh <= 100.0 && temperatureC <= 60.0
  {
    0.618 * Pow(m, rh, 0.753) + 10.0 * Exp(m, (rh - 100.0) / 10.0) + HumidityTerm(m, rh, temperatureC)
  }

  /** The log rate of drying (x = rh/100) or wetting (x = 1 - rh/100). */
  function LogRate(m: Elementary, x: real, windSpeedKmh: real, temperatureC: real): (k: real)
    requires Lawful(m) && 0.0 <= x <= 1.0 && windSpeedKmh >= 0.0
    ensures k >= 0.0
  {
    hide Lawful, Exp, Pow, Sqrt;
    PowOfFraction(m, x, 1.7);
    PowOfFraction(m, x, 8.0);
    SqrtNonNegative(m, windSpeedKmh);
    ExpPositive(m, 0.0365 * temperatureC);
    ProductSign(0.0694 * Sqrt(m, windSpeedKmh), 1.0 - Pow(m, x, 8.0));
    var k0 := 0.424 * (1.0 - Pow(m, x, 1.7)) + 0.0694 * Sqrt(m, windSpeedKmh) * (1.0 - Pow(m, x, 8.0));
    ProductSign(k0 * 0.581, Exp(m, 0.0365 * temperatureC));
    k0 * 0.581 * Exp(m, 0.0365 * temperatureC)
  }

  /** A share of a distance stays within the distance. */
  function ShareOf(distance: real, share: real): (moved: real)
    requires distance > 0.0 && 0.0 < share <= 1.0
    ensures 0.0 < moved <= distance
  {
    ProductSign(distance, share);
    ProductSign(distance, 1.0 - share);
    distance * share
  }

  function DriedTowards(m: Elementary, ed: real, mo: real, k: real): (r: real)
    requires Lawful(m) && mo > ed && k >= 0.0
    ensures ed < r <= mo
  {
    hide Lawful, Pow, ShareOf;
    PowOfTen(m, -k);
    ed + ShareOf(mo - ed, Pow(m, 10.0, -k))
  }

  function WettedTowards(m: Elementary, ew: real, mo: real, k: real): (r: real)
    requires Lawful(m) && mo < ew && k >= 0.0
    ensures mo <= r < ew
  {
    hide Lawful, Pow, ShareOf;
    PowOfTen(m, -k);
    ew - ShareOf(ew - mo, Pow(m, 10.0, -k))
  }

  /** Noon moisture: wetter than the drying equilibrium it dries towards it,
      drier than the wetting equilibrium it wets towards that, and it never
      passes either. */
  function NoonMoisture(m: Elementary, mo: real, rh: real, temperatureC: real, windSpeedKmh: real): (r: real)
    requires Lawful(m) && 0.0 <= mo <= 250.0
    requires 0.0 <= rh <= 100.0 && temperatureC <= 60.0 && windSpeedKmh >= 0.0
    ensures var ed := DryingEquilibrium(m, rh, temperatureC);
            var ew := WettingEquilibrium(m, rh, temperatureC);
            if mo > ed then ed < r <= mo else if mo < ew then mo <= r < ew else r == mo
    ensures r >= -7.1
  {
    hide Lawful, DryingEquilibrium, WettingEquilibrium, LogRate, DriedTowards, WettedTowards;
    var ed := DryingEquilibrium(m, rh, temperatureC);
    if mo > ed then
      DriedTowards(m, ed, mo, LogRate(m, rh / 100.0, windSpeedKmh, temperatureC))
    else
      var ew := WettingEquilibrium(m, rh, temperatureC);
      if mo < ew then
        WettedTowards(m, ew, mo, LogRate(m, (100.0 - rh) / 100.0, windSpeedKmh, temperatureC))
      else mo
  }

  function FineFuelMoistureCode(m: Elementary, previous: real, temperatureC: real, relativeHumidityPct: real,
                                windSpeedKmh: real, rainMm: real): (ffmc: real)
    requires Lawful(m) && 0.0 <= previous <= 101.0 && temperatureC <= 60.0 && windSpeedKmh >= 0.0
    ensures 0.0 <= ffmc <= 101.0
  {
    hide Lawful;
    var rh := Clamp(relativeHumidityPct, 0.0, 100.0);
    var mo := AfterRain(m, MoistureOf(previous), rainMm);
    var r := NoonMoisture(m, mo, rh, temperatureC, windSpeedKmh);
    Clamp((59.5 * (250.0 - r)) / (147.2 + r), 0.0, 101.0)
  }

  // ---------------------------------------------------------------------
  // Duff moisture
  // ---------------------------------------------------------------------

  const DMC_DAY_LENGTH: seq<real> := [6.5, 7.5, 9.0, 12.8, 13.9, 13.9, 12.4, 10.9, 9.4, 8.0, 7.0, 6.0]

  /** The slope of the duff's response to rain: positive on each of its three
      published branches. */
  function RainSlope(m: Elementary, previous: real): (b: real)
    requires Lawful(m) && previous >= 0.0
    ensures b > 0.0
  {
    hide Lawful, Ln;
    LnOfSixtyFive(m);
    if previous <= 33.0 then
      DividePositive(100.0, 0.5 + 0.3 * previous);
      100.0 / (0.5 + 0.3 * previous)
    else if previous <= 65.0 then
      LnMonotone(m, previous, 65.0);
      14.0 - 1.3 * Ln(m, previous)
    else
      LnMonotone(m, 65.0, previous);
      6.2 * Ln(m, previous) - 17.2
  }

  /** The moisture content of the duff after effective rain: above twenty
      percent, so that its logarithm below exists. */
  function DuffMoisture(m: Elementary, previous: real, rw: real): (wmr: real)
    requires Lawful(m) && previous >= 0.0 && rw > 0.0
    ensures wmr > 20.0
  {
    hide Lawful, Exp, RainSlope;
    ExpPositive(m, 0.023 * previous);
    DividePositive(280.0, Exp(m, 0.023 * previous));
    var wmi := 20.0 + 280.0 / Exp(m, 0.023 * previous);
    var b := RainSlope(m, previous);
    ProductSign(b, rw);
    DividePositive(1000.0 * rw, 48.77 + b * rw);
    wmi + (1000.0 * rw) / (48.77 + b * rw)
  }

  /** The code that rain over one and a half millimetres leaves. */
  function DuffAfterRain(m: Elementary, previous: real, rainMm: real): real
    requires Lawful(m) && previous >= 0.0
  {
    hide Lawful, DuffMoisture;
    if rainMm > 1.5 then 43.43 * (5.6348 - Ln(m, DuffMoisture(m, previous, 0.92 * rainMm - 1.27) - 20.0))
    else previous
  }

  function DuffMoistureCode(m: Elementary, previous: real, temperatureC: real, relativeHumidityPct: real,
                            rainMm: real, month: int): (dmc: real)
    requires Lawful(m) && previous >= 0.0 && 1 <= month <= 12
    ensures dmc >= 0.0
    ensures dmc >= DuffAfterRain(m, previous, rainMm)
  {
    hide Lawful, DuffAfterRain;
    var t := Max(temperatureC, -1.1);
    var rh := Clamp(relativeHumidityPct, 0.0, 100.0);
    var rk := 1.894 * (t + 1.1) * (100.0 - rh) * DMC_DAY_LENGTH[month - 1] * 0.0001;
    assert rk >= 0.0 by {
      ProductSign(1.894 * (t + 1.1), 100.0 - rh);
      ProductSign(1.894 * (t + 1.1) * (100.0 - rh), DMC_DAY_LENGTH[month - 1]);
    }
    Max(0.0, DuffAfterRain(m, previous, rainMm)) + rk
  }

  // ---------------------------------------------------------------------
  // Drought
  // ---------------------------------------------------------------------

  const DC_DAY_LENGTH: seq<real> := [-1.6, -1.6, -1.6, 0.9, 3.8, 5.8, 6.4, 5.0, 2.4, 0.4, -1.6, -1.6]

  const DROUGHT_RAIN_MM: real := 2.8

  function Evaporation(temperatureC: real, month: int): (pe: real)
    requires 1 <= month <= 12
    ensures pe >= 0.0
  {
    var t := Max(temperatureC, -2.8);
    Max(0.0, (0.36 * (t + 2.8) + DC_DAY_LENGTH[month - 1]) / 2.0)
  }

  /** How far rain over 2.8 mm takes the code down. */
  function DroughtRelief(m: Elementary, previous: real, rainMm: real): (d: real)
    requires Lawful(m) && rainMm > DROUGHT_RAIN_MM
  {
    hide Lawful, Exp;
    var rw := 0.83 * rainMm - 1.27;
    ExpPositive(m, -previous / 400.0);
    var smi := 800.0 * Exp(m, -previous / 400.0);
    DividePositive(3.937 * rw, smi);
    400.0 * Ln(m, 1.0 + (3.937 * rw) / smi)
  }

  function DroughtAfterRain(m: Elementary, previous: real, rainMm: real): real
    requires Lawful(m)
  {
    if rainMm > DROUGHT_RAIN_MM then Max(0.0, previous - DroughtRelief(m, previous, rainMm)) else previous
  }

  function DroughtCode(m: Elementary, previous: real, temperatureC: real, rainMm: real, month: int): (dc: real)
    requires Lawful(m) && 1 <= month <= 12
    ensures dc >= 0.0
  {
    Max(0.0, DroughtAfterRain(m, previous, rainMm) + Evaporation(temperatureC, month))
  }

  // ---------------------------------------------------------------------
  // Indices
  // ---------------------------------------------------------------------

  function InitialSpreadIndex(m: Elementary, ffmc: real, windSpeedKmh: real): (isi: real)
    requires Lawful(m) && 0.0 <= ffmc <= 101.0
    ensures isi >= 0.0
  {
    hide Lawful, Exp, Pow;
    var fm := MoistureOf(ffmc);
    PowNonNegative(m, fm, 5.31);
    ExpPositive(m, -0.1386 * fm);
    ExpPositive(m, 0.05039 * windSpeedKmh);
    ProductSign(91.9 * Exp(m, -0.1386 * fm), 1.0 + Pow(m, fm, 5.31) / 49_300_000.0);
    var ff := 91.9 * Exp(m, -0.1386 * fm) * (1.0 + Pow(m, fm, 5.31) / 49_300_000.0);
    ProductSign(0.208 * Exp(m, 0.05039 * windSpeedKmh), ff);
    0.208 * Exp(m, 0.05039 * windSpeedKmh) * ff
  }

  function BuildupIndex(m: Elementary, dmc: real, dc: real): (bui: real)
    requires dmc >= 0.0 && dc >= 0.0
    ensures bui >= 0.0
  {
    if dmc == 0.0 && dc == 0.0 then 0.0
    else
      var bui :=
        if dmc <= 0.4 * dc then (0.8 * dmc * dc) / (dmc + 0.4 * dc)
        else dmc - (1.0 - (0.8 * dc) / (dmc + 0.4 * dc)) * (0.92 + Pow(m, 0.0114 * dmc, 1.7));
      Max(0.0, bui)
  }

  /** The intensity before the final logarithmic stretch. */
  function Intensity(m: Elementary, isi: real, bui: real): (bb: real)
    requires Lawful(m) && isi >= 0.0 && bui >= 0.0
    ensures bb >= 0.0
  {
    hide Lawful, Exp, Pow;
    if bui > 80.0 then
      ExpPositive(m, 0.023 * bui);
      DividePositive(108.64, Exp(m, 0.023 * bui));
      DividePositive(1000.0, 25.0 + 108.64 / Exp(m, 0.023 * bui));
      ProductSign(0.1 * isi, 1000.0 / (25.0 + 108.64 / Exp(m, 0.023 * bui)));
      0.1 * isi * (1000.0 / (25.0 + 108.64 / Exp(m, 0.023 * bui)))
    else
      PowNonNegative(m, bui, 0.809);
      ProductSign(0.1 * isi, 0.626 * Pow(m, bui, 0.809) + 2.0);
      0.1 * isi * (0.626 * Pow(m, bui, 0.809) + 2.0)
  }

  function FireWeatherIndex(m: Elementary, isi: real, bui: real): (fwi: real)
    requires Lawful(m) && isi >= 0.0 && bui >= 0.0
    ensures fwi >= 0.0
  {
    hide Lawful, Exp, Pow, Ln, Intensity;
    var bb := Intensity(m, isi, bui);
    if bb <= 1.0 then bb
    else
      LnOfOne(m);
      LnMonotone(m, 1.0, bb);
      ExpPositive(m, 2.72 * Pow(m, 0.434 * Ln(m, bb), 0.647));
      Exp(m, 2.72 * Pow(m, 0.434 * Ln(m, bb), 0.647))
  }

  // ---------------------------------------------------------------------
  // Danger classes
  // ---------------------------------------------------------------------

  datatype DangerClass = VeryLow | Low | Moderate | High | VeryHigh | Extreme

  const DANGER_CLASS_LOWER_BOUNDS: seq<(DangerClass, real)> :=
    [(VeryLow, 0.0), (Low, 5.2), (Moderate, 11.2), (High, 21.3), (VeryHigh, 38.0), (Extreme, 50.0)]

  /** The EFFIS class of an index, lower bounds inclusive. */
  function ClassOf(fwi: real): DangerClass {
    if fwi < 5.2 then VeryLow
    else if fwi < 11.2 then Low
    else if fwi < 21.3 then Moderate
    else if fwi < 38.0 then High
    else if fwi < 50.0 then VeryHigh
    else Extreme
  }

  /** The loop keeps the last class whose bound is reached; the bounds ascend,
      so that is the class whose interval holds the index. */
  method Classify(fwi: real) returns (result: DangerClass)
    ensures result == ClassOf(fwi) && IsClassOf(result, fwi)
  {
    result := VeryLow;
    for i := 0 to |DANGER_CLASS_LOWER_BOUNDS|
      invariant result == if i == 0 then VeryLow
                          else if fwi < DANGER_CLASS_LOWER_BOUNDS[i - 1].1 then ClassOf(fwi)
                          else DANGER_CLASS_LOWER_BOUNDS[i - 1].0
    {
      var (name, lower) := DANGER_CLASS_LOWER_BOUNDS[i];
      if fwi >= lower {
        result := name;
      }
    }
  }

  // ---------------------------------------------------------------------
  // The chain
  // ---------------------------------------------------------------------

  datatype Indices = Indices(date: string, codes: MoistureCodes, isi: real, bui: real, fwi: real, dangerClass: DangerClass)

  /** One day: yesterday's codes and today's noon weather. The preconditions
      are kept by the result, so the chain runs on for ever. */
  function Step(m: Elementary, previous: MoistureCodes, day: DailyWeather): (today: Indices)
    requires Lawful(m) && ValidCodes(previous) && ValidDay(day)
    ensures today.date == day.date
    ensures ValidCodes(today.codes) && today.isi >= 0.0 && today.bui >= 0.0 && today.fwi >= 0.0
  {
    hide Lawful;
    var ffmc := FineFuelMoistureCode(m, previous.ffmc, day.temperatureC, day.relativeHumidityPct,
                                     day.windSpeedKmh, day.rain24hMm);
    var dmc := DuffMoistureCode(m, previous.dmc, day.temperatureC, day.relativeHumidityPct, day.rain24hMm, day.month);
    var dc := DroughtCode(m, previous.dc, day.temperatureC, day.rain24hMm, day.month);
    var isi := InitialSpreadIndex(m, ffmc, day.windSpeedKmh);
    var bui := BuildupIndex(m, dmc, dc);
    var fwi := FireWeatherIndex(m, isi, bui);
    Indices(day.date, MoistureCodes(ffmc, dmc, dc), isi, bui, fwi, ClassOf(fwi))
  }

  ghost predicate ValidDays(days: seq<DailyWeather>) {
    forall i :: 0 <= i < |days| ==> ValidDay(days[i])
  }

  /** The codes after a run of days. */
  function CodesAfter(m: Elementary, start: MoistureCodes, days: seq<DailyWeather>): (codes: MoistureCodes)
    requires Lawful(m) && ValidCodes(start) && ValidDays(days)
    ensures ValidCodes(codes)
  {
    if days == [] then start
    else Step(m, CodesAfter(m, start, days[..|days| - 1]), days[|days| - 1]).codes
  }

  /** The index series of consecutive days. */
  function Series(m: Elementary, start: MoistureCodes, days: seq<DailyWeather>): (series: seq<Indices>)
    requires Lawful(m) && ValidCodes(start) && ValidDays(days)
    ensures |series| == |days|
  {
    if days == [] then []
    else
      var before := days[..|days| - 1];
      Series(m, start, before) + [Step(m, CodesAfter(m, start, before), days[|days| - 1])]
  }

  /** The class whose interval holds the index. */
  ghost predicate IsClassOf(c: DangerClass, fwi: real) {
    match c
    case VeryLow => fwi < 5.2
    case Low => 5.2 <= fwi < 11.2
    case Moderate => 11.2 <= fwi < 21.3
    case High => 21.3 <= fwi < 38.0
    case VeryHigh => 38.0 <= fwi < 50.0
    case Extreme => 50.0 <= fwi
  }

  /** A day's figures: each code from its own of the day before and the weather of
      this day, each index from this day's codes. */
  ghost predicate FiguresOf(m: Elementary, previous: MoistureCodes, day: DailyWeather, today: Indices)
    requires Lawful(m) && ValidCodes(previous) && ValidDay(day)
  {
    && today.date == day.date
    && ValidCodes(today.codes) && today.isi >= 0.0 && today.bui >= 0.0 && today.fwi >= 0.0
    && today.codes.ffmc == FineFuelMoistureCode(m, previous.ffmc, day.temperatureC, day.relativeHumidityPct,
                                                day.windSpeedKmh, day.rain24hMm)
    && today.codes.dmc == DuffMoistureCode(m, previous.dmc, day.temperatureC, day.relativeHumidityPct,
                                           day.rain24hMm, day.month)
    && today.codes.dc == DroughtCode(m, previous.dc, day.temperatureC, day.rain24hMm, day.month)
    && today.isi == InitialSpreadIndex(m, today.codes.ffmc, day.windSpeedKmh)
    && today.bui == BuildupIndex(m, today.codes.dmc, today.codes.dc)
    && today.fwi == FireWeatherIndex(m, today.isi, today.bui)
    && IsClassOf(today.dangerClass, today.fwi)
  }

  lemma StepGivesFigures(m: Elementary, previous: MoistureCodes, day: DailyWeather)
    requires Lawful(m) && ValidCodes(previous) && ValidDay(day)
    ensures FiguresOf(m, previous, day, Step(m, previous, day))
  {
    hide Lawful, FineFuelMoistureCode, DuffMoistureCode, DroughtCode, InitialSpreadIndex, BuildupIndex, FireWeatherIndex;
  }

  /** Whose codes day k starts from. */
  function CodesBefore(out: seq<Indices>, start: MoistureCodes, k: nat): MoistureCodes
    requires k <= |out|
  {
    if k == 0 then start else out[k - 1].codes
  }

  /** The figures of a whole series. */
  ghost predicate FiguresFollow(m: Elementary, start: MoistureCodes, days: seq<DailyWeather>, out: seq<Indices>)
    requires Lawful(m) && ValidCodes(start) && ValidDays(days)
  {
    && |out| == |days|
    && forall k :: 0 <= k < |days| ==>
         && ValidCodes(CodesBefore(out, start, k))
         && FiguresOf(m, CodesBefore(out, start, k), days[k], out[k])
  }

  lemma FiguresNext(m: Elementary, start: MoistureCodes, days: seq<DailyWeather>, out: seq<Indices>, day: DailyWeather, today: Indices)
    requires Lawful(m) && ValidCodes(start) && ValidDays(days) && ValidDay(day)
    requires FiguresFollow(m, start, days, out)
    requires ValidCodes(CodesBefore(out, start, |out|)) && FiguresOf(m, CodesBefore(out, start, |out|), day, today)
    ensures FiguresFollow(m, start, days + [day], out + [today])
  {
    hide Lawful, FiguresOf, ValidCodes, ValidDay;
    var all, more := days + [day], out + [today];
    forall k | 0 <= k < |all|
      ensures ValidCodes(CodesBefore(more, start, k)) && FiguresOf(m, CodesBefore(more, start, k), all[k], more[k])
    {
      assert CodesBefore(more, start, k) == CodesBefore(out, start, k);
    }
  }

  lemma {:induction false} SeriesFollows(m: Elementary, start: MoistureCodes, days: seq<DailyWeather>)
    requires Lawful(m) && ValidCodes(start) && ValidDays(days)
    ensures FiguresFollow(m, start, days, Series(m, start, days))
    ensures CodesAfter(m, start, days) == CodesBefore(Series(m, start, days), start, |days|)
    decreases |days|
  {
    hide Lawful, Step, FiguresOf, FiguresFollow;
    if days == [] {
      NoFigures(m, start);
    } else {
      var n := |days| - 1;
      SeriesFollows(m, start, days[..n]);
      StepGivesFigures(m, CodesAfter(m, start, days[..n]), days[n]);
      FiguresNext(m, start, days[..n], Series(m, start, days[..n]), days[n], Step(m, CodesAfter(m, start, days[..n]), days[n]));
      assert days == days[..n] + [days[n]];
    }
  }

  lemma NoFigures(m: Elementary, start: MoistureCodes)
    requires Lawful(m) && ValidCodes(start)
    ensures FiguresFollow(m, start, [], [])
  {
  }

  /** The loop computes the series: every day's figures follow from the codes of
      the day before, and the chain never leaves the domain of its formulas. */
  method ComputeSeries(m: Elementary, days: seq<DailyWeather>, start: MoistureCodes := INITIAL_CODES) returns (out: seq<Indices>)
    requires Lawful(m) && ValidCodes(start) && ValidDays(days)
    ensures out == Series(m, start, days)
    ensures FiguresFollow(m, start, days, out)
  {
    hide Lawful, Step, FiguresFollow;
    out := [];
    var codes := start;
    for i := 0 to |days|
      invariant ValidCodes(codes) && codes == CodesAfter(m, start, days[..i])
      invariant out == Series(m, start, days[..i])
    {
      assert days[..i + 1][..i] == days[..i];
      var today := Step(m, codes, days[i]);
      out := out + [today];
      codes := today.codes;
    }
    assert days[..|days|] == days;
    SeriesFollows(m, start, days);
  }

  /** A season can be cut anywhere: its series is that of the first part followed
      by that of the second, started from the codes the first part leaves. */
  lemma {:induction false} SeasonsConcatenate(m: Elementary, start: MoistureCodes, a: seq<DailyWeather>, b: seq<DailyWeather>)
    requires Lawful(m) && ValidCodes(start) && ValidDays(a) && ValidDays(b)
    ensures CodesAfter(m, start, a + b) == CodesAfter(m, CodesAfter(m, start, a), b)
    ensures Series(m, start, a + b) == Series(m, start, a) + Series(m, CodesAfter(m, start, a), b)
    decreases |b|
  {
    hide Lawful, Step;
    if b == [] {
      assert a + b == a;
    } else {
      assert (a + b)[..|a + b| - 1] == a + b[..|b| - 1];
      SeasonsConcatenate(m, start, a, b[..|b| - 1]);
    }
  }
}
