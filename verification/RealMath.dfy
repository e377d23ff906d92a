/**
 The elementary functions of the fire-weather formulas. They are parameters:
 any `Elementary` that obeys the stated laws will do, and the real exponential,
 logarithm, power and root obey them.
 */
module RealMath {
  datatype Elementary = Elementary(
    exp: real -> real,
    ln: real -> real,
    pow: (real, real) -> real,
    sqrt: real -> real)

  /** Marks the pairs for which the sum law is wanted, to keep the solver from
      adding up every two numbers it sees. */
  predicate Sums(x: real, y: real) {
    true
  }

  ghost predicate ExpLaws(m: Elementary) {
    && (forall x :: m.exp(x) > 0.0)
    && (forall x, y :: x < y ==> m.exp(x) < m.exp(y))
    && (forall x, y {:trigger Sums(x, y)} :: m.exp(x + y) == m.exp(x) * m.exp(y))
    && 2.7 <= m.exp(1.0) <= 2.7183
  }

  /** exp lies above its tangent at zero, and so above every tangent. */
  ghost predicate TangentLaw(m: Elementary) {
    forall x :: m.exp(x) >= 1.0 + x
  }

  ghost predicate LnLaws(m: Elementary) {
    && (forall x {:trigger m.exp(m.ln(x))} :: x > 0.0 ==> m.exp(m.ln(x)) == x)
    && (forall x {:trigger m.ln(m.exp(x))} :: m.ln(m.exp(x)) == x)
  }

  ghost predicate PowLaws(m: Elementary) {
    && (forall x, y, z :: x > 0.0 && z == y * m.ln(x) ==> m.pow(x, y) == m.exp(z))
    && (forall y :: y > 0.0 ==> m.pow(0.0, y) == 0.0)
  }

  ghost predicate SqrtLaws(m: Elementary) {
    forall x :: x >= 0.0 ==> m.sqrt(x) >= 0.0 && m.sqrt(x) * m.sqrt(x) == x
  }

  ghost predicate Lawful(m: Elementary) {
    ExpLaws(m) && TangentLaw(m) && LnLaws(m) && PowLaws(m) && SqrtLaws(m)
  }

  // The functions on their domains: every call proves that it stays inside.

  function Ln(m: Elementary, x: real): real
    requires x > 0.0
  {
    m.ln(x)
  }

  function Sqrt(m: Elementary, x: real): real
    requires x >= 0.0
  {
    m.sqrt(x)
  }

  function Pow(m: Elementary, x: real, y: real): real
    requires x > 0.0 || (x == 0.0 && y > 0.0)
  {
    m.pow(x, y)
  }

  function Exp(m: Elementary, x: real): real {
    m.exp(x)
  }

  // The laws, one by one.

  lemma ExpPositive(m: Elementary, x: real)
    requires Lawful(m)
    ensures Exp(m, x) > 0.0
  {
  }

  lemma ExpMonotone(m: Elementary, x: real, y: real)
    requires Lawful(m) && x <= y
    ensures Exp(m, x) <= Exp(m, y)
    ensures x < y ==> Exp(m, x) < Exp(m, y)
  {
  }

  lemma ExpSum(m: Elementary, x: real, y: real)
    requires Lawful(m)
    ensures Exp(m, x + y) == Exp(m, x) * Exp(m, y)
  {
    hide TangentLaw, LnLaws, PowLaws, SqrtLaws;
    assert Sums(x, y);
  }

  lemma ExpAboveTangent(m: Elementary, x: real)
    requires Lawful(m)
    ensures Exp(m, x) >= 1.0 + x
  {
  }

  lemma ExpOfLn(m: Elementary, x: real)
    requires Lawful(m) && x > 0.0
    ensures Exp(m, Ln(m, x)) == x
  {
  }

  lemma LnOfExp(m: Elementary, x: real)
    requires Lawful(m)
    ensures Exp(m, x) > 0.0 && Ln(m, Exp(m, x)) == x
  {
  }

  lemma PowIsExp(m: Elementary, x: real, y: real)
    requires Lawful(m) && x > 0.0
    ensures Pow(m, x, y) == Exp(m, y * Ln(m, x))
  {
    hide ExpLaws, TangentLaw, LnLaws, SqrtLaws;
  }

  lemma PowOfZero(m: Elementary, y: real)
    requires Lawful(m) && y > 0.0
    ensures Pow(m, 0.0, y) == 0.0
  {
  }

  lemma SqrtNonNegative(m: Elementary, x: real)
    requires Lawful(m) && x >= 0.0
    ensures Sqrt(m, x) >= 0.0
  {
  }

  lemma EulerBounds(m: Elementary)
    requires Lawful(m)
    ensures 2.7 <= Exp(m, 1.0) <= 2.7183
  {
  }

  // What follows from them.

  lemma ProductSign(a: real, b: real)
    ensures a >= 0.0 && b <= 0.0 ==> a * b <= 0.0
    ensures a <= 0.0 && b >= 0.0 ==> a * b <= 0.0
    ensures a >= 0.0 && b >= 0.0 ==> a * b >= 0.0
    ensures a > 0.0 && b > 0.0 ==> a * b > 0.0
  {
  }

  lemma SameExp(m: Elementary, x: real, y: real)
    requires x == y
    ensures Exp(m, x) == Exp(m, y)
  {
  }

  lemma SameProduct(a: real, b: real, x: real, y: real)
    requires a == x && b == y
    ensures a * b == x * y
  {
  }

  lemma OneIsIdempotent(e: real, f: real)
    requires e > 0.0 && f == e * e && f == e
    ensures e == 1.0
  {
    assert (e - 1.0) * e == 0.0;
  }

  lemma ExpZero(m: Elementary, zero: real)
    requires Lawful(m) && zero == 0.0
    ensures Exp(m, zero) == 1.0
  {
    hide Lawful;
    var e, f := Exp(m, zero), Exp(m, zero + zero);
    SameExp(m, zero + zero, zero);
    assert f == e;
    ExpSum(m, zero, zero);
    assert f == e * e;
    ExpPositive(m, zero);
    OneIsIdempotent(e, f);
  }

  /** At most one on the negative half, at least one on the other. */
  lemma ExpSign(m: Elementary, x: real)
    requires Lawful(m)
    ensures Exp(m, x) > 0.0
    ensures x <= 0.0 ==> Exp(m, x) <= 1.0
    ensures x >= 0.0 ==> Exp(m, x) >= 1.0
  {
    hide Lawful, Exp;
    ExpZero(m, 0.0);
    ExpPositive(m, x);
    if x <= 0.0 {
      ExpMonotone(m, x, 0.0);
    } else {
      ExpMonotone(m, 0.0, x);
    }
  }

  lemma LnMonotone(m: Elementary, x: real, y: real)
    requires Lawful(m) && 0.0 < x <= y
    ensures Ln(m, x) <= Ln(m, y)
    ensures x < y ==> Ln(m, x) < Ln(m, y)
  {
    hide Lawful, Exp, Ln;
    ExpOfLn(m, x);
    ExpOfLn(m, y);
    if Ln(m, y) <= Ln(m, x) {
      ExpMonotone(m, Ln(m, y), Ln(m, x));
    }
  }

  lemma LnProduct(m: Elementary, x: real, y: real)
    requires Lawful(m) && x > 0.0 && y > 0.0
    ensures x * y > 0.0 && Ln(m, x * y) == Ln(m, x) + Ln(m, y)
  {
    hide Lawful, Exp, Ln;
    ProductSign(x, y);
    ExpOfLn(m, x);
    ExpOfLn(m, y);
    ExpSum(m, Ln(m, x), Ln(m, y));
    SameProduct(Exp(m, Ln(m, x)), Exp(m, Ln(m, y)), x, y);
    assert Exp(m, Ln(m, x) + Ln(m, y)) == x * y;
    LnOfExp(m, Ln(m, x) + Ln(m, y));
  }

  lemma LnOfOne(m: Elementary)
    requires Lawful(m)
    ensures Ln(m, 1.0) == 0.0
  {
    hide Lawful, Exp, Ln;
    ExpZero(m, 0.0);
    LnOfExp(m, 0.0);
  }

  /** exp(3) <= 27 and exp(10) >= 1024 enclose sixty-five: the numbers that the
      branches of the duff formula need. */
  lemma LnOfSixtyFive(m: Elementary)
    requires Lawful(m)
    ensures 3.0 < Ln(m, 65.0) < 10.0
  {
    hide Lawful, Exp, Ln;
    EulerBounds(m);
    ExpSum(m, 1.0, 1.0);
    ExpSum(m, 2.0, 1.0);
    ExpSum(m, 3.0, 2.0);
    ExpSum(m, 5.0, 5.0);
    PowersOfE(Exp(m, 1.0), Exp(m, 2.0), Exp(m, 3.0), Exp(m, 5.0), Exp(m, 10.0));
    LnOfExp(m, 3.0);
    LnOfExp(m, 10.0);
    LnMonotone(m, Exp(m, 3.0), 65.0);
    LnMonotone(m, 65.0, Exp(m, 10.0));
  }

  lemma ProductBounds(a: real, b: real, lo: real, hi: real, low: real, high: real)
    requires 0.0 <= lo <= a <= hi && 0.0 <= low <= b <= high
    ensures lo * low <= a * b <= hi * high
  {
    assert (a - lo) * b >= 0.0 && lo * (b - low) >= 0.0;
    assert (hi - a) * b >= 0.0 && hi * (high - b) >= 0.0;
  }

  lemma PowersOfE(e: real, e2: real, e3: real, e5: real, e10: real)
    requires 2.0 <= e <= 3.0 && e2 == e * e && e3 == e2 * e && e5 == e3 * e2 && e10 == e5 * e5
    ensures e3 < 65.0 < e10
    ensures e2 > 0.0 && e3 > 0.0 && e5 > 0.0
  {
    ProductBounds(e, e, 2.0, 3.0, 2.0, 3.0);
    ProductBounds(e2, e, 4.0, 9.0, 2.0, 3.0);
    ProductBounds(e3, e2, 8.0, 27.0, 4.0, 9.0);
    ProductBounds(e5, e5, 32.0, 243.0, 32.0, 243.0);
  }

  lemma PowNonNegative(m: Elementary, x: real, y: real)
    requires Lawful(m) && (x > 0.0 || (x == 0.0 && y > 0.0))
    ensures Pow(m, x, y) >= 0.0
    ensures x > 0.0 ==> Pow(m, x, y) > 0.0
  {
    hide Lawful, Exp, Ln, Pow;
    if x > 0.0 {
      PowIsExp(m, x, y);
      ExpPositive(m, y * Ln(m, x));
    } else {
      PowOfZero(m, y);
    }
  }

  /** A fraction to a positive power is a fraction. */
  lemma PowOfFraction(m: Elementary, x: real, y: real)
    requires Lawful(m) && 0.0 <= x <= 1.0 && y > 0.0
    ensures 0.0 <= Pow(m, x, y) <= 1.0
  {
    hide Lawful, Exp, Ln, Pow;
    PowNonNegative(m, x, y);
    if x > 0.0 {
      PowIsExp(m, x, y);
      LnOfOne(m);
      LnMonotone(m, x, 1.0);
      ProductSign(y, Ln(m, x));
      ExpSign(m, y * Ln(m, x));
    } else {
      PowOfZero(m, y);
    }
  }

  /** Ten to a power that is not positive lies in (0, 1]. */
  lemma PowOfTen(m: Elementary, y: real)
    requires Lawful(m) && y <= 0.0
    ensures 0.0 < Pow(m, 10.0, y) <= 1.0
  {
    hide Lawful, Exp, Ln, Pow;
    PowNonNegative(m, 10.0, y);
    PowIsExp(m, 10.0, y);
    LnOfOne(m);
    LnMonotone(m, 1.0, 10.0);
    assert Ln(m, 10.0) > 0.0;
    ProductSign(y, Ln(m, 10.0));
    assert y * Ln(m, 10.0) <= 0.0;
    ExpSign(m, y * Ln(m, 10.0));
  }
}
