/**
 Which way the indices answer: wind raises the spread, drier deep layers raise
 the fuel available, and both raise the final index.
 */
module IndexOrder {
  import opened RealMath
  import opened FireWeather
  import opened MoistureOrder

  lemma PowMonotone(m: Elementary, x: real, y: real, e: real)
    requires Lawful(m) && 0.0 <= x <= y && e > 0.0
    ensures Pow(m, x, e) <= Pow(m, y, e)
  {
    hide Lawful, Exp, Ln, Pow;
    if x == 0.0 {
      PowOfZero(m, e);
      PowNonNegative(m, y, e);
    } else {
      PowIsExp(m, x, e);
      PowIsExp(m, y, e);
      LnMonotone(m, x, y);
      ProductMonotone(Ln(m, x), Ln(m, y), e);
      ExpMonotone(m, e * Ln(m, x), e * Ln(m, y));
    }
  }

  /** More wind never lowers the spread index. */
  lemma WindNeverLowersSpread(m: Elementary, ffmc: real, windSpeedKmh: real, more: real)
    requires Lawful(m) && 0.0 <= ffmc <= 101.0 && windSpeedKmh <= more
    ensures InitialSpreadIndex(m, ffmc, windSpeedKmh) <= InitialSpreadIndex(m, ffmc, more)
  {
    hide Lawful, Exp, Pow, MoistureOf;
    var fm := MoistureOf(ffmc);
    PowNonNegative(m, fm, 5.31);
    ExpPositive(m, -0.1386 * fm);
    ProductSign(91.9 * Exp(m, -0.1386 * fm), 1.0 + Pow(m, fm, 5.31) / 49_300_000.0);
    ExpMonotone(m, 0.05039 * windSpeedKmh, 0.05039 * more);
    var ff := 91.9 * Exp(m, -0.1386 * fm) * (1.0 + Pow(m, fm, 5.31) / 49_300_000.0);
    ProductMonotone(0.208 * Exp(m, 0.05039 * windSpeedKmh), 0.208 * Exp(m, 0.05039 * more), ff);
  }

  // ---------------------------------------------------------------------
  // Buildup
  // ---------------------------------------------------------------------

  /** The share of the deep layers in the buildup. */
  function DeepShareOf(dmc: real, dc: real): real
    requires dmc > 0.0 && dc >= 0.0
  {
    (0.8 * dc) / (dmc + 0.4 * dc)
  }

  lemma DryBranch(m: Elementary, dmc: real, dc: real)
    requires 0.0 < dmc <= 0.4 * dc
    ensures BuildupIndex(m, dmc, dc) == Max(0.0, DeepShareOf(dmc, dc) * dmc)
  {
    ShallowBranch(dmc, dc);
  }

  lemma MoistBranch(m: Elementary, dmc: real, dc: real)
    requires dmc > 0.4 * dc && dc >= 0.0
    ensures BuildupIndex(m, dmc, dc)
         == Max(0.0, dmc - (1.0 - DeepShareOf(dmc, dc)) * (0.92 + Pow(m, 0.0114 * dmc, 1.7)))
  {
    hide Pow;
  }

  lemma NoDuffNoBuildup(m: Elementary, dmc: real, dc: real)
    requires dmc == 0.0 && dc >= 0.0
    ensures BuildupIndex(m, dmc, dc) == 0.0
  {
    hide Pow;
    if dc > 0.0 {
      DivideBounds(0.0, 0.4 * dc, 0.0, 0.0);
    }
  }

  lemma DryBranchBounds(m: Elementary, dmc: real, dc: real)
    requires 0.0 < dmc <= 0.4 * dc
    ensures dmc <= BuildupIndex(m, dmc, dc) <= 2.0 * dmc
    ensures dmc == 0.4 * dc ==> BuildupIndex(m, dmc, dc) <= dmc
  {
    hide BuildupIndex, DeepShareOf;
    DryBranch(m, dmc, dc);
    ShareAgainstOne(dmc, dc);
    var share := DeepShareOf(dmc, dc);
    var product := share * dmc;
    assert dmc <= product <= 2.0 * dmc && (share <= 1.0 ==> product <= dmc) by {
      ShareBounds(share, dmc);
    }
    assert BuildupIndex(m, dmc, dc) == Max(0.0, product);
    if dmc == 0.4 * dc {
      assert share <= 1.0;
    }
  }

  lemma MoistBranchBound(m: Elementary, dmc: real, dc: real)
    requires Lawful(m) && dmc > 0.4 * dc && dc >= 0.0
    ensures BuildupIndex(m, dmc, dc) <= dmc
  {
    hide Lawful, Pow, BuildupIndex, DeepShareOf;
    MoistBranch(m, dmc, dc);
    ShareAgainstOne(dmc, dc);
    PowNonNegative(m, 0.0114 * dmc, 1.7);
    ProductSign(1.0 - DeepShareOf(dmc, dc), 0.92 + Pow(m, 0.0114 * dmc, 1.7));
  }

  /** The index leans on the duff code: at least that where the deep layers are
      dry by comparison, at most that where they are not, and equal to it where
      the two published branches meet. */
  lemma BuildupAgainstDuff(m: Elementary, dmc: real, dc: real)
    requires Lawful(m) && dmc >= 0.0 && dc >= 0.0
    ensures dmc <= 0.4 * dc ==> dmc <= BuildupIndex(m, dmc, dc) <= 2.0 * dmc
    ensures dmc >= 0.4 * dc ==> BuildupIndex(m, dmc, dc) <= dmc
  {
    hide Lawful, BuildupIndex;
    if dmc == 0.0 {
      NoDuffNoBuildup(m, dmc, dc);
    } else if dmc <= 0.4 * dc {
      DryBranchBounds(m, dmc, dc);
    } else {
      MoistBranchBound(m, dmc, dc);
    }
  }

  lemma ShareBounds(share: real, dmc: real)
    requires dmc > 0.0
    ensures share >= 1.0 ==> share * dmc >= dmc
    ensures share <= 1.0 ==> share * dmc <= dmc
    ensures share <= 2.0 ==> share * dmc <= 2.0 * dmc
  {
    if share >= 1.0 {
      ProductMonotone(1.0, share, dmc);
    }
    if share <= 1.0 {
      ProductMonotone(share, 1.0, dmc);
    }
    if share <= 2.0 {
      ProductMonotone(share, 2.0, dmc);
    }
  }

  lemma ShareAgainstOne(dmc: real, dc: real)
    requires dmc > 0.0 && dc >= 0.0
    ensures DeepShareOf(dmc, dc) <= 2.0
    ensures dmc <= 0.4 * dc ==> DeepShareOf(dmc, dc) >= 1.0
    ensures dmc >= 0.4 * dc ==> DeepShareOf(dmc, dc) <= 1.0
  {
    var d := dmc + 0.4 * dc;
    QuotientsCompare(0.8 * dc, d, 2.0, 1.0);
    if dmc <= 0.4 * dc {
      QuotientsCompare(1.0, 1.0, 0.8 * dc, d);
    }
    if dmc >= 0.4 * dc {
      QuotientsCompare(0.8 * dc, d, 1.0, 1.0);
    }
  }

  lemma DeepShareGrows(dmc: real, dc: real, drier: real)
    requires 0.0 <= dc <= drier && dmc > 0.0
    ensures DeepShareOf(dmc, dc) <= DeepShareOf(dmc, drier)
  {
    ProductMonotone(dc, drier, dmc);
    assert (0.8 * dc) * (dmc + 0.4 * drier) == 0.8 * (dc * dmc) + 0.32 * (dc * drier);
    assert (0.8 * drier) * (dmc + 0.4 * dc) == 0.8 * (drier * dmc) + 0.32 * (dc * drier);
    QuotientsCompare(0.8 * dc, dmc + 0.4 * dc, 0.8 * drier, dmc + 0.4 * drier);
  }

  lemma BothDry(m: Elementary, dmc: real, dc: real, drier: real)
    requires 0.0 < dmc <= 0.4 * dc && dc <= drier
    ensures BuildupIndex(m, dmc, dc) <= BuildupIndex(m, dmc, drier)
  {
    hide BuildupIndex, DeepShareOf;
    DryBranch(m, dmc, dc);
    DryBranch(m, dmc, drier);
    DeepShareGrows(dmc, dc, drier);
    var a, b := DeepShareOf(dmc, dc), DeepShareOf(dmc, drier);
    ProductMonotone(a, b, dmc);
  }

  lemma BothMoist(m: Elementary, dmc: real, dc: real, drier: real)
    requires Lawful(m) && dmc > 0.4 * drier && 0.0 <= dc <= drier
    ensures BuildupIndex(m, dmc, dc) <= BuildupIndex(m, dmc, drier)
  {
    hide Lawful, Pow, BuildupIndex, DeepShareOf;
    MoistBranch(m, dmc, dc);
    MoistBranch(m, dmc, drier);
    DeepShareGrows(dmc, dc, drier);
    PowNonNegative(m, 0.0114 * dmc, 1.7);
    var p := 0.92 + Pow(m, 0.0114 * dmc, 1.7);
    ProductMonotone(1.0 - DeepShareOf(dmc, drier), 1.0 - DeepShareOf(dmc, dc), p);
  }

  /** Drier deep layers never lower the buildup, across the branches too. */
  lemma DrierDeepLayersNeverLowerBuildup(m: Elementary, dmc: real, dc: real, drier: real)
    requires Lawful(m) && dmc >= 0.0 && 0.0 <= dc <= drier
    ensures BuildupIndex(m, dmc, dc) <= BuildupIndex(m, dmc, drier)
  {
    hide Lawful, BuildupIndex;
    if dmc == 0.0 {
      NoDuffNoBuildup(m, dmc, dc);
      NoDuffNoBuildup(m, dmc, drier);
    } else if dmc <= 0.4 * dc {
      BothDry(m, dmc, dc, drier);
    } else if dmc <= 0.4 * drier {
      BuildupAgainstDuff(m, dmc, dc);
      BuildupAgainstDuff(m, dmc, drier);
    } else {
      BothMoist(m, dmc, dc, drier);
    }
  }

  lemma ShallowBranch(dmc: real, dc: real)
    requires dmc > 0.0 && dc >= 0.0
    ensures (0.8 * dmc * dc) / (dmc + 0.4 * dc) == DeepShareOf(dmc, dc) * dmc
  {
    var d := dmc + 0.4 * dc;
    var q := (0.8 * dc) / d;
    assert q * d == 0.8 * dc;
    assert (q * dmc) * d == 0.8 * dmc * dc;
    var r := (0.8 * dmc * dc) / d;
    assert r * d == 0.8 * dmc * dc;
    CancelFactor(r, q * dmc, d);
    CancelFactor(q * dmc, r, d);
  }

  // ---------------------------------------------------------------------
  // The final index
  // ---------------------------------------------------------------------

  /** The logarithmic stretch starts at one, where it meets the identity. */
  function Stretch(m: Elementary, bb: real): real
    requires Lawful(m) && bb >= 0.0
  {
    hide Lawful;
    if bb <= 1.0 then bb
    else
      LnOfOne(m);
      LnMonotone(m, 1.0, bb);
      Exp(m, 2.72 * Pow(m, 0.434 * Ln(m, bb), 0.647))
  }

  lemma IndexIsStretched(m: Elementary, isi: real, bui: real)
    requires Lawful(m) && isi >= 0.0 && bui >= 0.0
    ensures FireWeatherIndex(m, isi, bui) == Stretch(m, Intensity(m, isi, bui))
  {
    hide Lawful, Exp, Ln, Pow, Intensity;
  }

  lemma StretchKeepsOrder(m: Elementary, a: real, b: real)
    requires Lawful(m) && 0.0 <= a <= b
    ensures Stretch(m, a) <= Stretch(m, b)
  {
    hide Lawful, Exp, Ln, Pow;
    if b > 1.0 {
      LnOfOne(m);
      LnMonotone(m, 1.0, b);
      PowNonNegative(m, 0.434 * Ln(m, b), 0.647);
      if a <= 1.0 {
        ExpSign(m, 2.72 * Pow(m, 0.434 * Ln(m, b), 0.647));
      } else {
        LnMonotone(m, 1.0, a);
        LnMonotone(m, a, b);
        PowMonotone(m, 0.434 * Ln(m, a), 0.434 * Ln(m, b), 0.647);
        ExpMonotone(m, 2.72 * Pow(m, 0.434 * Ln(m, a), 0.647), 2.72 * Pow(m, 0.434 * Ln(m, b), 0.647));
      }
    }
  }

  /** What the fuel available contributes to the intensity. */
  function FuelFactor(m: Elementary, bui: real): (f: real)
    requires Lawful(m) && bui >= 0.0
    ensures f >= 0.0
  {
    hide Lawful, Exp, Pow;
    if bui > 80.0 then
      ExpPositive(m, 0.023 * bui);
      DividePositive(108.64, Exp(m, 0.023 * bui));
      DividePositive(1000.0, 25.0 + 108.64 / Exp(m, 0.023 * bui));
      1000.0 / (25.0 + 108.64 / Exp(m, 0.023 * bui))
    else
      PowNonNegative(m, bui, 0.809);
      0.626 * Pow(m, bui, 0.809) + 2.0
  }

  lemma IntensityIsAProduct(m: Elementary, isi: real, bui: real)
    requires Lawful(m) && isi >= 0.0 && bui >= 0.0
    ensures Intensity(m, isi, bui) == 0.1 * isi * FuelFactor(m, bui)
  {
    hide Lawful, Exp, Pow;
    ExpPositive(m, 0.023 * bui);
    DividePositive(108.64, Exp(m, 0.023 * bui));
  }

  lemma FuelFactorGrows(m: Elementary, bui: real, more: real)
    requires Lawful(m) && 0.0 <= bui <= more && (bui > 80.0 || more <= 80.0)
    ensures FuelFactor(m, bui) <= FuelFactor(m, more)
  {
    hide Lawful, Exp, Pow;
    if bui > 80.0 {
      var e, f := Exp(m, 0.023 * bui), Exp(m, 0.023 * more);
      ExpPositive(m, 0.023 * bui);
      ExpMonotone(m, 0.023 * bui, 0.023 * more);
      QuotientsCompare(108.64, f, 108.64, e);
      DividePositive(108.64, e);
      DividePositive(108.64, f);
      QuotientsCompare(1000.0, 25.0 + 108.64 / e, 1000.0, 25.0 + 108.64 / f);
    } else {
      PowMonotone(m, bui, more, 0.809);
    }
  }

  /** More spread never lowers the index, and neither does more fuel, as long as
      the fuel stays on one side of the branch at eighty. */
  lemma IndexFollowsSpreadAndFuel(m: Elementary, isi: real, faster: real, bui: real, more: real)
    requires Lawful(m) && 0.0 <= isi <= faster && 0.0 <= bui <= more && (bui > 80.0 || more <= 80.0)
    ensures FireWeatherIndex(m, isi, bui) <= FireWeatherIndex(m, faster, more)
  {
    hide Lawful, FireWeatherIndex, Intensity, FuelFactor, Stretch;
    FuelFactorGrows(m, bui, more);
    IntensityIsAProduct(m, isi, bui);
    IntensityIsAProduct(m, faster, more);
    ProductBounds(0.1 * isi, FuelFactor(m, bui), 0.1 * isi, 0.1 * isi, FuelFactor(m, bui), FuelFactor(m, more));
    ProductMonotone(0.1 * isi, 0.1 * faster, FuelFactor(m, more));
    IndexIsStretched(m, isi, bui);
    IndexIsStretched(m, faster, more);
    StretchKeepsOrder(m, Intensity(m, isi, bui), Intensity(m, faster, more));
  }

  // ---------------------------------------------------------------------
  // The published worked example
  // ---------------------------------------------------------------------

  lemma PowBetween(m: Elementary, x: real)
    requires Lawful(m) && 0.0 < x <= 1.0
    ensures 0.0 < Pow(m, x, 1.7) <= x
  {
    hide Lawful, Exp, Ln, Pow;
    PowIsExp(m, x, 1.7);
    PowNonNegative(m, x, 1.7);
    ExpOfLn(m, x);
    LnOfOne(m);
    LnMonotone(m, x, 1.0);
    ExpMonotone(m, 1.7 * Ln(m, x), Ln(m, x));
  }

  /** On the thirteenth of April of the worked example, with 17 degrees, 42 percent
      and no rain, the standard codes lead to a duff code of 8.545, a drought code
      of 19.014 and a buildup of 8.490, to the published two decimals. */
  lemma WorkedExample(m: Elementary)
    requires Lawful(m)
    ensures var dmc := DuffMoistureCode(m, INITIAL_CODES.dmc, 17.0, 42.0, 0.0, 4);
            var dc := DroughtCode(m, INITIAL_CODES.dc, 17.0, 0.0, 4);
            && 8.540 < dmc < 8.550
            && dc == 19.014
            && 8.485 < BuildupIndex(m, dmc, dc) < 8.495
  {
    hide Lawful, Pow;
    var dmc := DuffMoistureCode(m, INITIAL_CODES.dmc, 17.0, 42.0, 0.0, 4);
    assert dmc == 8.545051136;
    var dc := 19.014;
    assert DroughtCode(m, INITIAL_CODES.dc, 17.0, 0.0, 4) == dc;
    PowBetween(m, 0.0114 * dmc);
    var p := Pow(m, 0.0114 * dmc, 1.7);
    var share := (0.8 * dc) / (dmc + 0.4 * dc);
    DivideBounds(0.8 * dc, dmc + 0.4 * dc, 0.9418, 0.9419);
    ProductBounds(1.0 - share, 0.92 + p, 0.0581, 0.0582, 0.92, 1.0175);
    assert BuildupIndex(m, dmc, dc) == dmc - (1.0 - share) * (0.92 + p);
  }
}
