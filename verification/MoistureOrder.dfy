/**
 Which way the moisture codes answer: the two equilibria never cross, so fine
 fuel that was drier yesterday is not wetter today, and more rain never leaves a
 fuel drier.
 */
module MoistureOrder {
  import opened RealMath
  import opened FireWeather

  // ---------------------------------------------------------------------
  // The wetting equilibrium lies below the drying one
  // ---------------------------------------------------------------------

  /** exp(3/8) is at most 3/2, since its eighth power is exp(3). */
  lemma ExpOfThreeEighths(m: Elementary)
    requires Lawful(m)
    ensures Exp(m, 0.375) <= 1.5
  {
    hide Lawful, Exp;
    EulerBounds(m);
    ExpSum(m, 0.375, 0.375);
    ExpSum(m, 0.75, 0.75);
    ExpSum(m, 1.5, 1.5);
    ExpSum(m, 1.0, 1.0);
    ExpSum(m, 2.0, 1.0);
    EighthPower(Exp(m, 0.375), Exp(m, 0.75), Exp(m, 1.5), Exp(m, 3.0), Exp(m, 1.0), Exp(m, 2.0));
  }

  lemma EighthPower(x: real, x2: real, x4: real, x8: real, e: real, e2: real)
    requires x2 == x * x && x4 == x2 * x2 && x8 == x4 * x4
    requires 2.7 <= e <= 2.7183 && e2 == e * e && x8 == e2 * e
    ensures x <= 1.5
  {
    ProductBounds(e, e, 2.7, 2.7183, 2.7, 2.7183);
    ProductBounds(e2, e, 7.29, 7.39, 2.7, 2.7183);
    if x > 1.5 {
      ProductBounds(x, x, 1.5, x, 1.5, x);
      ProductBounds(x2, x2, 2.25, x2, 2.25, x2);
      ProductBounds(x4, x4, 5.0, x4, 5.0, x4);
      assert false;
    }
  }

  /** exp(5) is more than a hundred. */
  lemma LnOfHundred(m: Elementary, x: real)
    requires Lawful(m) && 0.0 < x <= 100.0
    ensures Ln(m, x) <= 5.0
  {
    hide Lawful, Exp, Ln;
    EulerBounds(m);
    ExpSum(m, 1.0, 1.0);
    ExpSum(m, 2.0, 1.0);
    ExpSum(m, 3.0, 2.0);
    var e, e2, e3 := Exp(m, 1.0), Exp(m, 2.0), Exp(m, 3.0);
    ProductBounds(e, e, 2.7, 2.7183, 2.7, 2.7183);
    ProductBounds(e2, e, 7.2, e2, 2.7, e);
    ProductBounds(e3, e2, 19.0, e3, 7.2, e2);
    LnOfExp(m, 5.0);
    LnMonotone(m, x, Exp(m, 5.0));
  }

  lemma PowSum(m: Elementary, x: real, a: real, b: real, c: real)
    requires Lawful(m) && x > 0.0 && c == a + b
    ensures Pow(m, x, c) == Pow(m, x, a) * Pow(m, x, b)
  {
    hide Lawful, Exp, Ln, Pow;
    PowIsExp(m, x, a);
    PowIsExp(m, x, b);
    PowIsExp(m, x, c);
    ExpSum(m, a * Ln(m, x), b * Ln(m, x));
    SameExp(m, c * Ln(m, x), a * Ln(m, x) + b * Ln(m, x));
    SameProduct(Pow(m, x, a), Pow(m, x, b), Exp(m, a * Ln(m, x)), Exp(m, b * Ln(m, x)));
  }

  /** The two humidity powers stay close enough: rh^0.753 exceeds rh^0.679 by no
      more than half on the whole scale. */
  lemma HumidityPowers(m: Elementary, rh: real)
    requires Lawful(m) && 0.0 <= rh <= 100.0
    ensures Pow(m, rh, 0.753) <= 1.5 * Pow(m, rh, 0.679)
  {
    hide Lawful, Exp, Ln, Pow;
    if rh == 0.0 {
      PowOfZero(m, 0.753);
      PowOfZero(m, 0.679);
    } else {
      PowSum(m, rh, 0.679, 0.074, 0.753);
      PowNonNegative(m, rh, 0.679);
      PowNonNegative(m, rh, 0.074);
      PowIsExp(m, rh, 0.074);
      LnOfHundred(m, rh);
      ExpMonotone(m, 0.074 * Ln(m, rh), 0.375);
      ExpOfThreeEighths(m);
      ProductBounds(Pow(m, rh, 0.679), Pow(m, rh, 0.074), Pow(m, rh, 0.679), Pow(m, rh, 0.679), 0.0, 1.5);
    }
  }

  /** Between the equilibria there is always a band in which fuel keeps its
      moisture. */
  lemma EquilibriaAreOrdered(m: Elementary, rh: real, temperatureC: real)
    requires Lawful(m) && 0.0 <= rh <= 100.0 && temperatureC <= 60.0
    ensures WettingEquilibrium(m, rh, temperatureC) < DryingEquilibrium(m, rh, temperatureC)
  {
    hide Lawful, Exp, Pow, HumidityTerm;
    HumidityPowers(m, rh);
    PowNonNegative(m, rh, 0.679);
    ExpPositive(m, (rh - 100.0) / 10.0);
  }

  // ---------------------------------------------------------------------
  // Fine fuel
  // ---------------------------------------------------------------------

  lemma ProductMonotone(a: real, b: real, s: real)
    requires a <= b && s >= 0.0
    ensures a * s <= b * s
  {
    assert (b - a) * s >= 0.0;
  }

  lemma DryingKeepsOrder(m: Elementary, ed: real, mo: real, wetter: real, k: real)
    requires Lawful(m) && ed < mo <= wetter && k >= 0.0
    ensures DriedTowards(m, ed, mo, k) <= DriedTowards(m, ed, wetter, k)
  {
    hide Lawful, Pow;
    PowOfTen(m, -k);
    var s := Pow(m, 10.0, -k);
    ProductMonotone(mo - ed, wetter - ed, s);
    assert ShareOf(mo - ed, s) == (mo - ed) * s;
    assert ShareOf(wetter - ed, s) == (wetter - ed) * s;
    assert DriedTowards(m, ed, mo, k) == ed + ShareOf(mo - ed, s);
    assert DriedTowards(m, ed, wetter, k) == ed + ShareOf(wetter - ed, s);
  }

  lemma WettingKeepsOrder(m: Elementary, ew: real, mo: real, wetter: real, k: real)
    requires Lawful(m) && mo <= wetter < ew && k >= 0.0
    ensures WettedTowards(m, ew, mo, k) <= WettedTowards(m, ew, wetter, k)
  {
    hide Lawful, Pow;
    PowOfTen(m, -k);
    var s := Pow(m, 10.0, -k);
    ProductMonotone(ew - wetter, ew - mo, s);
    assert ShareOf(ew - mo, s) == (ew - mo) * s;
    assert ShareOf(ew - wetter, s) == (ew - wetter) * s;
    assert WettedTowards(m, ew, mo, k) == ew - ShareOf(ew - mo, s);
    assert WettedTowards(m, ew, wetter, k) == ew - ShareOf(ew - wetter, s);
  }

  lemma NoonKeepsOrder(m: Elementary, mo: real, wetter: real, rh: real, temperatureC: real, windSpeedKmh: real)
    requires Lawful(m) && 0.0 <= mo <= wetter <= 250.0
    requires 0.0 <= rh <= 100.0 && temperatureC <= 60.0 && windSpeedKmh >= 0.0
    ensures NoonMoisture(m, mo, rh, temperatureC, windSpeedKmh) <= NoonMoisture(m, wetter, rh, temperatureC, windSpeedKmh)
  {
    hide Lawful, DryingEquilibrium, WettingEquilibrium, LogRate, DriedTowards, WettedTowards;
    var ed := DryingEquilibrium(m, rh, temperatureC);
    var ew := WettingEquilibrium(m, rh, temperatureC);
    EquilibriaAreOrdered(m, rh, temperatureC);
    if mo > ed {
      DryingKeepsOrder(m, ed, mo, wetter, LogRate(m, rh / 100.0, windSpeedKmh, temperatureC));
    } else if wetter < ew {
      WettingKeepsOrder(m, ew, mo, wetter, LogRate(m, (100.0 - rh) / 100.0, windSpeedKmh, temperatureC));
    }
  }

  lemma CancelFactor(x: real, y: real, p: real)
    requires p > 0.0 && x * p <= y * p
    ensures x <= y
  {
    if x > y {
      ProductSign(x - y, p);
    }
  }

  lemma QuotientsCompare(a: real, b: real, c: real, d: real)
    requires b > 0.0 && d > 0.0 && a * d <= c * b
    ensures a / b <= c / d
  {
    var x, y := a / b, c / d;
    ProductSign(b, d);
    assert x * (b * d) == (x * b) * d == a * d;
    assert y * (b * d) == (y * d) * b == c * b;
    CancelFactor(x, y, b * d);
  }

  lemma DrierCodeHoldsLess(p: real, q: real)
    requires 0.0 <= p <= q <= 101.0
    ensures MoistureOf(q) <= MoistureOf(p)
  {
    QuotientsCompare(147.2 * (101.0 - q), 59.5 + q, 147.2 * (101.0 - p), 59.5 + p);
  }

  lemma WetterCodeIsLower(r: real, s: real)
    requires -7.1 <= r <= s
    ensures (59.5 * (250.0 - s)) / (147.2 + s) <= (59.5 * (250.0 - r)) / (147.2 + r)
  {
    QuotientsCompare(59.5 * (250.0 - s), 147.2 + s, 59.5 * (250.0 - r), 147.2 + r);
  }

  /** The code that noon weather makes of a moisture content. */
  function CodeAtNoon(m: Elementary, mo: real, temperatureC: real, relativeHumidityPct: real, windSpeedKmh: real): real
    requires Lawful(m) && 0.0 <= mo <= 250.0 && temperatureC <= 60.0 && windSpeedKmh >= 0.0
  {
    hide Lawful;
    var r := NoonMoisture(m, mo, Clamp(relativeHumidityPct, 0.0, 100.0), temperatureC, windSpeedKmh);
    Clamp((59.5 * (250.0 - r)) / (147.2 + r), 0.0, 101.0)
  }

  lemma WetterFuelHasALowerCode(m: Elementary, mo: real, wetter: real, temperatureC: real, relativeHumidityPct: real, windSpeedKmh: real)
    requires Lawful(m) && 0.0 <= mo <= wetter <= 250.0 && temperatureC <= 60.0 && windSpeedKmh >= 0.0
    ensures CodeAtNoon(m, wetter, temperatureC, relativeHumidityPct, windSpeedKmh)
         <= CodeAtNoon(m, mo, temperatureC, relativeHumidityPct, windSpeedKmh)
  {
    hide Lawful, NoonMoisture;
    var rh := Clamp(relativeHumidityPct, 0.0, 100.0);
    NoonKeepsOrder(m, mo, wetter, rh, temperatureC, windSpeedKmh);
    WetterCodeIsLower(NoonMoisture(m, mo, rh, temperatureC, windSpeedKmh),
                      NoonMoisture(m, wetter, rh, temperatureC, windSpeedKmh));
  }

  lemma FineFuelIsCodeAtNoon(m: Elementary, previous: real, temperatureC: real, relativeHumidityPct: real, windSpeedKmh: real, rainMm: real)
    requires Lawful(m) && 0.0 <= previous <= 101.0 && temperatureC <= 60.0 && windSpeedKmh >= 0.0
    ensures FineFuelMoistureCode(m, previous, temperatureC, relativeHumidityPct, windSpeedKmh, rainMm)
         == CodeAtNoon(m, AfterRain(m, MoistureOf(previous), rainMm), temperatureC, relativeHumidityPct, windSpeedKmh)
  {
    hide Lawful, NoonMoisture, AfterRain, MoistureOf;
  }

  /** On a day without rain over half a millimetre, fuel that was drier
      yesterday is not wetter today. */
  lemma DryDayKeepsOrder(m: Elementary, p: real, q: real, temperatureC: real, relativeHumidityPct: real, windSpeedKmh: real, rainMm: real)
    requires Lawful(m) && 0.0 <= p <= q <= 101.0 && temperatureC <= 60.0 && windSpeedKmh >= 0.0 && rainMm <= 0.5
    ensures FineFuelMoistureCode(m, p, temperatureC, relativeHumidityPct, windSpeedKmh, rainMm)
         <= FineFuelMoistureCode(m, q, temperatureC, relativeHumidityPct, windSpeedKmh, rainMm)
  {
    hide Lawful, FineFuelMoistureCode, CodeAtNoon, MoistureOf;
    DrierCodeHoldsLess(p, q);
    FineFuelIsCodeAtNoon(m, p, temperatureC, relativeHumidityPct, windSpeedKmh, rainMm);
    FineFuelIsCodeAtNoon(m, q, temperatureC, relativeHumidityPct, windSpeedKmh, rainMm);
    WetterFuelHasALowerCode(m, MoistureOf(q), MoistureOf(p), temperatureC, relativeHumidityPct, windSpeedKmh);
  }

  // ---------------------------------------------------------------------
  // More rain
  // ---------------------------------------------------------------------

  lemma SqrtMonotone(m: Elementary, x: real, y: real)
    requires Lawful(m) && 0.0 <= x <= y
    ensures Sqrt(m, x) <= Sqrt(m, y)
  {
    SqrtNonNegative(m, x);
    SqrtNonNegative(m, y);
    SquareRootsCompare(x, y, Sqrt(m, x), Sqrt(m, y));
  }

  lemma SquareRootsCompare(x: real, y: real, r: real, s: real)
    requires r >= 0.0 && s >= 0.0 && r * r == x && s * s == y && x <= y
    ensures r <= s
  {
    if r > s {
      ProductSign(r - s, r + s);
    }
  }

  /** exp lies above its tangent at -u, wherever else it is taken. */
  lemma TangentAt(m: Elementary, u: real, v: real)
    requires Lawful(m)
    ensures Exp(m, -v) >= Exp(m, -u) * (1.0 + (u - v))
  {
    hide Lawful, Exp;
    ExpSum(m, -u, u - v);
    SameExp(m, -u + (u - v), -v);
    ExpAboveTangent(m, u - v);
    ExpPositive(m, -u);
    ProductMonotone(1.0 + (u - v), Exp(m, u - v), Exp(m, -u));
  }

  /** The chord of a convex function: u (1 - exp(-v)) <= v (1 - exp(-u)). */
  lemma ShareOfRain(m: Elementary, u: real, v: real)
    requires Lawful(m) && 0.0 < u <= v
    ensures u * (1.0 - Exp(m, -v)) <= v * (1.0 - Exp(m, -u))
  {
    hide Lawful, Exp;
    TangentAt(m, u, 0.0);
    ExpZero(m, -0.0);
    TangentAt(m, u, v);
    ChordFromTangents(u, v, Exp(m, -u), Exp(m, -v));
  }

  lemma ChordFromTangents(u: real, v: real, e: real, f: real)
    requires 0.0 < u <= v && 1.0 >= e * (1.0 + u) && f >= e * (1.0 + (u - v))
    ensures u * (1.0 - f) <= v * (1.0 - e)
  {
    ProductMonotone(e * (1.0 + u), 1.0, v - u);
    ProductMonotone(e * (1.0 + (u - v)), f, u);
    assert e * (1.0 + u) * (v - u) + e * (1.0 + (u - v)) * u == e * v;
  }

  /** Twice the rain does not reach the litter twice, but it never reaches less:
      rf (1 - exp(-c/rf)) grows with rf. */
  lemma ReachedGrows(m: Elementary, r: real, s: real)
    requires Lawful(m) && 0.0 < r <= s
    ensures r * (1.0 - Exp(m, -6.93 / r)) <= s * (1.0 - Exp(m, -6.93 / s))
  {
    hide Lawful, Exp;
    var u, v := 6.93 / s, 6.93 / r;
    DividePositive(6.93, s);
    DividePositive(6.93, r);
    QuotientsCompare(6.93, s, 6.93, r);
    ShareOfRain(m, u, v);
    assert -6.93 / r == -v && -6.93 / s == -u;
    assert r * v == 6.93 && s * u == 6.93;
    ScaledShares(r, s, u, v, 1.0 - Exp(m, -v), 1.0 - Exp(m, -u));
  }

  lemma ScaledShares(r: real, s: real, u: real, v: real, f: real, e: real)
    requires u > 0.0 && v > 0.0 && r * v == 6.93 && s * u == 6.93 && u * f <= v * e
    ensures r * f <= s * e
  {
    ProductSign(u, v);
    assert (r * f) * (u * v) == (r * v) * (u * f) == 6.93 * (u * f);
    assert (s * e) * (u * v) == (s * u) * (v * e) == 6.93 * (v * e);
    CancelFactor(r * f, s * e, u * v);
  }

  lemma WettingGrows(m: Elementary, mo: real, r: real, s: real)
    requires Lawful(m) && 0.0 <= mo <= 249.9 && 0.0 < r <= s
    ensures Wetting(m, mo, r) <= Wetting(m, mo, s)
  {
    hide Lawful, Exp;
    var held := Exp(m, -100.0 / (251.0 - mo));
    var x, y := 1.0 - Exp(m, -6.93 / r), 1.0 - Exp(m, -6.93 / s);
    ExpPositive(m, -100.0 / (251.0 - mo));
    ReachedGrows(m, r, s);
    ProductMonotone(r * x, s * y, 42.5 * held);
    Regroup(r, held, x);
    Regroup(s, held, y);
  }

  lemma Regroup(r: real, held: real, x: real)
    ensures 42.5 * r * held * x == (r * x) * (42.5 * held)
  {
  }

  lemma SoakingGrows(m: Elementary, mo: real, r: real, s: real)
    requires Lawful(m) && 0.0 < r <= s
    ensures Soaking(m, mo, r) <= Soaking(m, mo, s)
  {
    hide Lawful, Sqrt;
    SqrtMonotone(m, r, s);
    ProductSign(mo - 150.0, mo - 150.0);
    var soaked := 0.0015 * ((mo - 150.0) * (mo - 150.0));
    ProductMonotone(Sqrt(m, r), Sqrt(m, s), soaked);
  }

  lemma MoreRainWetsMore(m: Elementary, mo: real, rainMm: real, more: real)
    requires Lawful(m) && 0.0 <= mo <= 249.9 && rainMm <= more
    ensures AfterRain(m, mo, rainMm) <= AfterRain(m, mo, more)
  {
    hide Lawful, Wetting, Soaking;
    if rainMm > 0.5 {
      WettingGrows(m, mo, rainMm - 0.5, more - 0.5);
      SoakingGrows(m, mo, rainMm - 0.5, more - 0.5);
    }
  }

  /** More rain never leaves the fine fuel drier. */
  lemma RainNeverDriesFineFuel(m: Elementary, previous: real, temperatureC: real, relativeHumidityPct: real, windSpeedKmh: real,
                               rainMm: real, more: real)
    requires Lawful(m) && 0.0 <= previous <= 101.0 && temperatureC <= 60.0 && windSpeedKmh >= 0.0 && rainMm <= more
    ensures FineFuelMoistureCode(m, previous, temperatureC, relativeHumidityPct, windSpeedKmh, more)
         <= FineFuelMoistureCode(m, previous, temperatureC, relativeHumidityPct, windSpeedKmh, rainMm)
  {
    hide Lawful, FineFuelMoistureCode, CodeAtNoon, MoistureOf, AfterRain;
    var mo := MoistureOf(previous);
    MoreRainWetsMore(m, mo, rainMm, more);
    FineFuelIsCodeAtNoon(m, previous, temperatureC, relativeHumidityPct, windSpeedKmh, rainMm);
    FineFuelIsCodeAtNoon(m, previous, temperatureC, relativeHumidityPct, windSpeedKmh, more);
    WetterFuelHasALowerCode(m, AfterRain(m, mo, rainMm), AfterRain(m, mo, more),
                            temperatureC, relativeHumidityPct, windSpeedKmh);
  }

  lemma SaturatingGrows(b: real, r: real, s: real)
    requires b > 0.0 && 0.0 < r <= s
    ensures 0.0 < (1000.0 * r) / (48.77 + b * r) <= (1000.0 * s) / (48.77 + b * s)
  {
    ProductSign(b, r);
    ProductSign(b, s);
    DividePositive(1000.0 * r, 48.77 + b * r);
    assert (1000.0 * r) * (48.77 + b * s) == 48_770.0 * r + 1000.0 * (r * (b * s));
    assert (1000.0 * s) * (48.77 + b * r) == 48_770.0 * s + 1000.0 * (s * (b * r));
    assert r * (b * s) == s * (b * r);
    QuotientsCompare(1000.0 * r, 48.77 + b * r, 1000.0 * s, 48.77 + b * s);
  }

  lemma DuffMoistureGrows(m: Elementary, previous: real, r: real, s: real)
    requires Lawful(m) && previous >= 0.0 && 0.0 < r <= s
    ensures DuffMoisture(m, previous, r) <= DuffMoisture(m, previous, s)
  {
    hide Lawful, Exp, RainSlope;
    ExpPositive(m, 0.023 * previous);
    SaturatingGrows(RainSlope(m, previous), r, s);
  }

  lemma MoreRainWetsDuffMore(m: Elementary, previous: real, rainMm: real, more: real)
    requires Lawful(m) && previous >= 0.0 && 1.5 < rainMm <= more
    ensures DuffAfterRain(m, previous, more) <= DuffAfterRain(m, previous, rainMm)
  {
    hide Lawful, Ln, DuffMoisture;
    var r, s := 0.92 * rainMm - 1.27, 0.92 * more - 1.27;
    DuffMoistureGrows(m, previous, r, s);
    LnMonotone(m, DuffMoisture(m, previous, r) - 20.0, DuffMoisture(m, previous, s) - 20.0);
  }

  // Rain that only just counts does not raise the duff code either. The formula
  // inverts 280 as 5.6348, a little more than its logarithm, and the rain itself
  // must make up for the difference.

  lemma EighthRoot(y: real, y2: real, y4: real, e: real)
    requires y > 0.0 && y2 == y * y && y4 == y2 * y2 && e == y4 * y4 && e <= 2.7183
    ensures y <= 1.1332
  {
    if y > 1.1332 {
      ProductBounds(y, y, 1.1332, y, 1.1332, y);
      ProductBounds(y2, y2, 1.2841, y2, 1.2841, y2);
      ProductBounds(y4, y4, 1.6489, y4, 1.6489, y4);
    }
  }

  lemma ExpOfFive(m: Elementary)
    requires Lawful(m)
    ensures 0.0 < Exp(m, 5.0) <= 148.5
  {
    hide Lawful, Exp;
    EulerBounds(m);
    ExpSum(m, 1.0, 1.0);
    ExpSum(m, 2.0, 1.0);
    ExpSum(m, 3.0, 2.0);
    ExpPositive(m, 5.0);
    var e, e2, e3 := Exp(m, 1.0), Exp(m, 2.0), Exp(m, 3.0);
    ProductBounds(e, e, 2.7, 2.7183, 2.7, 2.7183);
    ProductBounds(e2, e, 7.0, 7.3892, 2.7, 2.7183);
    ProductBounds(e3, e2, 18.0, 20.0861, 7.0, 7.3892);
  }

  lemma ExpOfFiveEighths(m: Elementary)
    requires Lawful(m)
    ensures 0.0 < Exp(m, 0.625) <= 1.869
  {
    hide Lawful, Exp;
    EulerBounds(m);
    ExpSum(m, 0.125, 0.125);
    ExpSum(m, 0.25, 0.25);
    ExpSum(m, 0.5, 0.5);
    ExpSum(m, 0.5, 0.125);
    var y, y2, y4 := Exp(m, 0.125), Exp(m, 0.25), Exp(m, 0.5);
    ExpPositive(m, 0.125);
    ExpPositive(m, 0.625);
    EighthRoot(y, y2, y4, Exp(m, 1.0));
    ProductBounds(y, y, 0.0, 1.1332, 0.0, 1.1332);
    ProductBounds(y2, y2, 0.0, 1.28415, 0.0, 1.28415);
    ProductBounds(y4, y, 0.0, 1.64905, 0.0, 1.1332);
  }

  lemma ExpOfASmallNumber(m: Elementary)
    requires Lawful(m)
    ensures 0.0 < Exp(m, 0.0098) <= 1.01
  {
    hide Lawful, Exp;
    ExpSum(m, -0.0098, 0.0098);
    ExpZero(m, -0.0098 + 0.0098);
    ExpAboveTangent(m, -0.0098);
    ExpPositive(m, 0.0098);
    var x, y := Exp(m, -0.0098), Exp(m, 0.0098);
    ProductMonotone(0.9902, x, y);
  }

  lemma LnOf281(m: Elementary)
    requires Lawful(m)
    ensures Ln(m, 281.0) >= 5.6348
  {
    hide Lawful, Exp, Ln;
    ExpOfFive(m);
    ExpOfFiveEighths(m);
    ExpOfASmallNumber(m);
    ExpSum(m, 5.0, 0.625);
    ExpSum(m, 5.625, 0.0098);
    ProductBounds(Exp(m, 5.0), Exp(m, 0.625), 0.0, 148.5, 0.0, 1.869);
    ProductBounds(Exp(m, 5.625), Exp(m, 0.0098), 0.0, 277.55, 0.0, 1.01);
    LnOfExp(m, 5.6348);
    LnMonotone(m, Exp(m, 5.6348), 281.0);
  }

  lemma SlopeBound(m: Elementary, previous: real)
    requires Lawful(m) && previous >= 0.0
    ensures 0.0 < RainSlope(m, previous) <= 200.0 + 6.2 * previous
  {
    hide Lawful, Exp, Ln;
    if previous <= 33.0 {
      QuotientsCompare(100.0, 0.5 + 0.3 * previous, 200.0, 1.0);
    } else {
      LnOfOne(m);
      LnMonotone(m, 1.0, previous);
      ExpAboveTangent(m, previous - 1.0);
      LnOfExp(m, previous - 1.0);
      LnMonotone(m, previous, Exp(m, previous - 1.0));
    }
  }

  lemma RainMakesUp(b: real, rw: real, previous: real, e: real)
    requires 0.0 < b <= 200.0 + 6.2 * previous && rw >= 0.11 && previous >= 0.0 && e >= 1.0 + 0.023 * previous
    ensures (1000.0 * rw) / (48.77 + b * rw) * e >= 1.0
  {
    SaturatingGrows(b, 0.11, rw);
    var least := (1000.0 * 0.11) / (48.77 + b * 0.11);
    var x := (1000.0 * rw) / (48.77 + b * rw);
    QuotientsCompare(110.0, 70.77 + 0.682 * previous, 110.0, 48.77 + b * 0.11);
    QuotientsCompare(1.0, 1.0 + 0.023 * previous, 110.0, 70.77 + 0.682 * previous);
    var f := 1.0 + 0.023 * previous;
    assert 1.0 / f * f == 1.0;
    ProductMonotone(1.0 / f, x, f);
    ProductBounds(x, e, x, x, f, e);
  }

  /** Rain that reaches the duff never leaves it drier than it was. */
  lemma RainNeverRaisesDuff(m: Elementary, previous: real, rainMm: real)
    requires Lawful(m) && previous >= 0.0
    ensures DuffAfterRain(m, previous, rainMm) <= previous
  {
    hide Lawful, Exp, Ln, DuffMoisture;
    if rainMm > 1.5 {
      var rw := 0.92 * rainMm - 1.27;
      DuffHolds281(m, previous, rw);
      var wet := DuffMoisture(m, previous, rw) - 20.0;
      var e := Exp(m, 0.023 * previous);
      LnOf281(m);
      LnMonotone(m, 281.0, wet * e);
      LnProduct(m, wet, e);
      LnOfExp(m, 0.023 * previous);
      assert Ln(m, wet) + 0.023 * previous >= 5.6348;
    }
  }

  lemma DuffHolds281(m: Elementary, previous: real, rw: real)
    requires Lawful(m) && previous >= 0.0 && rw >= 0.11
    ensures Exp(m, 0.023 * previous) > 0.0
    ensures (DuffMoisture(m, previous, rw) - 20.0) * Exp(m, 0.023 * previous) >= 281.0
  {
    hide Lawful, Exp, RainSlope;
    var e := Exp(m, 0.023 * previous);
    var b := RainSlope(m, previous);
    ExpPositive(m, 0.023 * previous);
    ExpAboveTangent(m, 0.023 * previous);
    SlopeBound(m, previous);
    RainMakesUp(b, rw, previous, e);
    var x := (1000.0 * rw) / (48.77 + b * rw);
    assert DuffMoisture(m, previous, rw) - 20.0 == 280.0 / e + x;
    assert (280.0 / e + x) * e == 280.0 + x * e;
  }

  /** Nor the duff, whatever the two rains are. */
  lemma RainNeverDriesDuff(m: Elementary, previous: real, temperatureC: real, relativeHumidityPct: real, month: int, rainMm: real, more: real)
    requires Lawful(m) && previous >= 0.0 && 1 <= month <= 12 && rainMm <= more
    ensures DuffMoistureCode(m, previous, temperatureC, relativeHumidityPct, more, month)
         <= DuffMoistureCode(m, previous, temperatureC, relativeHumidityPct, rainMm, month)
  {
    hide Lawful, Ln, DuffMoisture;
    if rainMm > 1.5 {
      MoreRainWetsDuffMore(m, previous, rainMm, more);
    } else {
      RainNeverRaisesDuff(m, previous, more);
    }
  }

  lemma ReliefGrowsWithRain(m: Elementary, previous: real, rainMm: real, more: real)
    requires Lawful(m) && DROUGHT_RAIN_MM < rainMm <= more
    ensures 0.0 < DroughtRelief(m, previous, rainMm) <= DroughtRelief(m, previous, more)
  {
    hide Lawful, Exp, Ln;
    var smi := 800.0 * Exp(m, -previous / 400.0);
    ExpPositive(m, -previous / 400.0);
    var c, d := 3.937 * (0.83 * rainMm - 1.27), 3.937 * (0.83 * more - 1.27);
    DividePositive(c, smi);
    ProductMonotone(c, d, smi);
    QuotientsCompare(c, smi, d, smi);
    LnOfOne(m);
    LnMonotone(m, 1.0, 1.0 + c / smi);
    LnMonotone(m, 1.0 + c / smi, 1.0 + d / smi);
  }

  /** Nor the deep layers, whatever the two rains are. */
  lemma RainNeverDriesDeepLayers(m: Elementary, previous: real, temperatureC: real, month: int, rainMm: real, more: real)
    requires Lawful(m) && previous >= 0.0 && 1 <= month <= 12 && rainMm <= more
    ensures DroughtCode(m, previous, temperatureC, more, month) <= DroughtCode(m, previous, temperatureC, rainMm, month)
  {
    hide Lawful, DroughtRelief;
    if rainMm > DROUGHT_RAIN_MM {
      ReliefGrowsWithRain(m, previous, rainMm, more);
    } else if more > DROUGHT_RAIN_MM {
      ReliefGrowsWithRain(m, previous, more, more);
    }
  }

  /** Rain that does not reach a layer changes nothing but the day's drying. */
  lemma LightRainChangesNothing(m: Elementary, previous: real, temperatureC: real, relativeHumidityPct: real,
                                windSpeedKmh: real, rainMm: real, month: int)
    requires Lawful(m) && previous >= 0.0 && temperatureC <= 60.0 && windSpeedKmh >= 0.0 && 0.0 <= rainMm && 1 <= month <= 12
    ensures previous <= 101.0 && rainMm <= 0.5 ==>
              FineFuelMoistureCode(m, previous, temperatureC, relativeHumidityPct, windSpeedKmh, rainMm) ==
              FineFuelMoistureCode(m, previous, temperatureC, relativeHumidityPct, windSpeedKmh, 0.0)
    ensures rainMm <= 1.5 ==>
              DuffMoistureCode(m, previous, temperatureC, relativeHumidityPct, rainMm, month) ==
              DuffMoistureCode(m, previous, temperatureC, relativeHumidityPct, 0.0, month)
    ensures rainMm <= 2.8 ==>
              DroughtCode(m, previous, temperatureC, rainMm, month) == DroughtCode(m, previous, temperatureC, 0.0, month)
  {
    hide Lawful, NoonMoisture, MoistureOf, DuffMoisture, DroughtRelief, Wetting, Soaking;
  }

  // ---------------------------------------------------------------------
  // Air, wind and heat
  // ---------------------------------------------------------------------

  lemma PowOfOne(m: Elementary, y: real)
    requires Lawful(m)
    ensures Pow(m, 1.0, y) == 1.0
  {
    hide Lawful, Exp, Ln, Pow;
    PowIsExp(m, 1.0, y);
    LnOfOne(m);
    ExpZero(m, y * Ln(m, 1.0));
  }

  lemma TenToNothing(m: Elementary, y: real)
    requires Lawful(m) && y == 0.0
    ensures Pow(m, 10.0, y) == 1.0
  {
    hide Lawful, Exp, Ln, Pow;
    PowIsExp(m, 10.0, y);
    ExpZero(m, y * Ln(m, 10.0));
  }

  lemma NoRateAtOne(m: Elementary, x: real, windSpeedKmh: real, temperatureC: real)
    requires Lawful(m) && x == 1.0 && windSpeedKmh >= 0.0
    ensures LogRate(m, x, windSpeedKmh, temperatureC) == 0.0
  {
    hide Lawful, Exp, Pow, Sqrt;
    PowOfOne(m, 1.7);
    PowOfOne(m, 8.0);
    assert Pow(m, x, 1.7) == 1.0 && Pow(m, x, 8.0) == 1.0;
  }

  /** In saturated air nothing dries, and in air without any humidity nothing
      takes up water: each rate is the one for its own direction. */
  lemma StillAtTheEnds(m: Elementary, mo: real, temperatureC: real, windSpeedKmh: real)
    requires Lawful(m) && 0.0 <= mo <= 250.0 && temperatureC <= 60.0 && windSpeedKmh >= 0.0
    ensures mo > DryingEquilibrium(m, 100.0, temperatureC) ==> NoonMoisture(m, mo, 100.0, temperatureC, windSpeedKmh) == mo
    ensures mo <= DryingEquilibrium(m, 0.0, temperatureC) ==> NoonMoisture(m, mo, 0.0, temperatureC, windSpeedKmh) == mo
  {
    hide Lawful, Pow, DryingEquilibrium, WettingEquilibrium, LogRate;
    NoRateAtOne(m, 100.0 / 100.0, windSpeedKmh, temperatureC);
    NoRateAtOne(m, (100.0 - 0.0) / 100.0, windSpeedKmh, temperatureC);
    TenToNothing(m, -LogRate(m, 100.0 / 100.0, windSpeedKmh, temperatureC));
    TenToNothing(m, -LogRate(m, (100.0 - 0.0) / 100.0, windSpeedKmh, temperatureC));
  }

  lemma RateGrowsWithWind(m: Elementary, x: real, windSpeedKmh: real, more: real, temperatureC: real)
    requires Lawful(m) && 0.0 <= x <= 1.0 && 0.0 <= windSpeedKmh <= more
    ensures LogRate(m, x, windSpeedKmh, temperatureC) <= LogRate(m, x, more, temperatureC)
  {
    hide Lawful, Exp, Pow, Sqrt;
    PowOfFraction(m, x, 1.7);
    PowOfFraction(m, x, 8.0);
    SqrtMonotone(m, windSpeedKmh, more);
    var dry := 1.0 - Pow(m, x, 8.0);
    var a := 0.424 * (1.0 - Pow(m, x, 1.7)) + 0.0694 * Sqrt(m, windSpeedKmh) * dry;
    var b := 0.424 * (1.0 - Pow(m, x, 1.7)) + 0.0694 * Sqrt(m, more) * dry;
    ProductMonotone(0.0694 * Sqrt(m, windSpeedKmh), 0.0694 * Sqrt(m, more), dry);
    ExpPositive(m, 0.0365 * temperatureC);
    ProductMonotone(a * 0.581, b * 0.581, Exp(m, 0.0365 * temperatureC));
    assert LogRate(m, x, windSpeedKmh, temperatureC) == a * 0.581 * Exp(m, 0.0365 * temperatureC);
    assert LogRate(m, x, more, temperatureC) == b * 0.581 * Exp(m, 0.0365 * temperatureC);
  }

  lemma TenToLess(m: Elementary, k: real, more: real)
    requires Lawful(m) && 0.0 <= k <= more
    ensures 0.0 < Pow(m, 10.0, -more) <= Pow(m, 10.0, -k)
  {
    TenToOrder(m, -more, -k);
  }

  lemma TenToOrder(m: Elementary, a: real, b: real)
    requires Lawful(m) && a <= b
    ensures 0.0 < Pow(m, 10.0, a) <= Pow(m, 10.0, b)
  {
    hide Lawful, Ln, Pow;
    PowNonNegative(m, 10.0, a);
    LnOfOne(m);
    LnMonotone(m, 1.0, 10.0);
    LargerExponent(m, 10.0, a, b);
  }

  lemma LargerExponent(m: Elementary, x: real, a: real, b: real)
    requires Lawful(m) && x > 0.0 && Ln(m, x) >= 0.0 && a <= b
    ensures Pow(m, x, a) <= Pow(m, x, b)
  {
    hide Lawful, Exp, Ln, Pow;
    PowIsExp(m, x, a);
    PowIsExp(m, x, b);
    ProductMonotone(a, b, Ln(m, x));
    ExpMonotone(m, a * Ln(m, x), b * Ln(m, x));
  }

  lemma MoreOfADistance(distance: real, share: real, more: real)
    requires distance > 0.0 && 0.0 < share <= more <= 1.0
    ensures ShareOf(distance, share) <= ShareOf(distance, more)
  {
    ProductMonotone(share, more, distance);
  }

  lemma FasterDriesFurther(m: Elementary, ed: real, mo: real, k: real, more: real)
    requires Lawful(m) && mo > ed && 0.0 <= k <= more
    ensures DriedTowards(m, ed, mo, more) <= DriedTowards(m, ed, mo, k)
  {
    hide Lawful, Pow;
    TenToLess(m, k, more);
    PowOfTen(m, -k);
    PowOfTen(m, -more);
    var p, q := Pow(m, 10.0, -more), Pow(m, 10.0, -k);
    MoreOfADistance(mo - ed, p, q);
    hide ShareOf;
    assert DriedTowards(m, ed, mo, more) == ed + ShareOf(mo - ed, p);
    assert DriedTowards(m, ed, mo, k) == ed + ShareOf(mo - ed, q);
  }

  lemma FasterWetsFurther(m: Elementary, ew: real, mo: real, k: real, more: real)
    requires Lawful(m) && mo < ew && 0.0 <= k <= more
    ensures WettedTowards(m, ew, mo, k) <= WettedTowards(m, ew, mo, more)
  {
    hide Lawful, Pow;
    TenToLess(m, k, more);
    PowOfTen(m, -k);
    PowOfTen(m, -more);
    var p, q := Pow(m, 10.0, -more), Pow(m, 10.0, -k);
    MoreOfADistance(ew - mo, p, q);
    hide ShareOf;
    assert WettedTowards(m, ew, mo, more) == ew - ShareOf(ew - mo, p);
    assert WettedTowards(m, ew, mo, k) == ew - ShareOf(ew - mo, q);
  }

  /** More wind takes fuel further on its way: drier where it dries, wetter where it
      takes up water. */
  lemma WindSpeedsUp(m: Elementary, mo: real, rh: real, temperatureC: real, windSpeedKmh: real, more: real)
    requires Lawful(m) && 0.0 <= mo <= 250.0 && 0.0 <= rh <= 100.0 && temperatureC <= 60.0 && 0.0 <= windSpeedKmh <= more
    ensures var r := NoonMoisture(m, mo, rh, temperatureC, windSpeedKmh);
            var s := NoonMoisture(m, mo, rh, temperatureC, more);
            if mo > DryingEquilibrium(m, rh, temperatureC) then s <= r else r <= s
  {
    hide Lawful, DryingEquilibrium, WettingEquilibrium, LogRate, DriedTowards, WettedTowards;
    var ed := DryingEquilibrium(m, rh, temperatureC);
    var ew := WettingEquilibrium(m, rh, temperatureC);
    var x, y := rh / 100.0, (100.0 - rh) / 100.0;
    if mo > ed {
      RateGrowsWithWind(m, x, windSpeedKmh, more, temperatureC);
      FasterDriesFurther(m, ed, mo, LogRate(m, x, windSpeedKmh, temperatureC), LogRate(m, x, more, temperatureC));
    } else if mo < ew {
      RateGrowsWithWind(m, y, windSpeedKmh, more, temperatureC);
      FasterWetsFurther(m, ew, mo, LogRate(m, y, windSpeedKmh, temperatureC), LogRate(m, y, more, temperatureC));
    }
  }

  lemma DryingGrows(a: real, b: real, dry: real, drier: real, day: real)
    requires 0.0 <= a <= b && 0.0 <= dry <= drier && day >= 0.0
    ensures a * dry * day <= b * drier * day
  {
    ProductBounds(a, dry, a, b, dry, drier);
    ProductMonotone(a * dry, b * drier, day);
  }

  /** Duff dries faster in warmer and in drier air. */
  lemma WarmDryAirDriesDuff(m: Elementary, previous: real, cooler: real, temperatureC: real, drier: real, relativeHumidityPct: real,
                            rainMm: real, month: int)
    requires Lawful(m) && previous >= 0.0 && 1 <= month <= 12
    requires cooler <= temperatureC && drier <= relativeHumidityPct
    ensures DuffMoistureCode(m, previous, cooler, relativeHumidityPct, rainMm, month)
         <= DuffMoistureCode(m, previous, temperatureC, drier, rainMm, month)
  {
    hide Lawful, DuffAfterRain;
    var t, u := Max(cooler, -1.1), Max(temperatureC, -1.1);
    var rh, sh := Clamp(relativeHumidityPct, 0.0, 100.0), Clamp(drier, 0.0, 100.0);
    hide Max, Clamp;
    DryingGrows(1.894 * (t + 1.1), 1.894 * (u + 1.1), 100.0 - rh, 100.0 - sh, DMC_DAY_LENGTH[month - 1]);
  }

  /** And the deep layers in warmer air. */
  lemma WarmAirDriesDeepLayers(m: Elementary, previous: real, cooler: real, temperatureC: real, rainMm: real, month: int)
    requires Lawful(m) && 1 <= month <= 12 && cooler <= temperatureC
    ensures DroughtCode(m, previous, cooler, rainMm, month) <= DroughtCode(m, previous, temperatureC, rainMm, month)
  {
    hide Lawful, DroughtRelief;
  }
}
