/** dbcalc.c above 0 dB: which volumes overflow, and how exact the others are. */
module VolumeLoud {
  import opened Words
  import opened VolumeGain
  import opened VolumeOrder
  import opened VolumeAccuracy

  // ---------------------------------------------------------------- up to 8.0

  /** One step above, the last one does not. */
  lemma TooLoud()
    ensures ExactHorner(242430768, TERMS) >= 0x8000_0000
  {
    hide ExactHorner;
    var x := 242430768;
    ExactHornerStep(x, 0);
    assert ExactHorner(x, 1) == 2407;
    ExactHornerStep(x, 1);
    assert ExactHorner(x, 2) == 15951;
    ExactHornerStep(x, 2);
    assert ExactHorner(x, 3) == 78993;
    ExactHornerStep(x, 3);
    assert ExactHorner(x, 4) == 379391;
    ExactHornerStep(x, 4);
    assert ExactHorner(x, 5) == 1688747;
    ExactHornerStep(x, 5);
    assert ExactHorner(x, 6) == 6787140;
    ExactHornerStep(x, 6);
    assert ExactHorner(x, 7) == 24407166;
    ExactHornerStep(x, 7);
    assert ExactHorner(x, 8) == 77607297;
    ExactHornerStep(x, 8);
    assert ExactHorner(x, 9) == 214878602;
    ExactHornerStep(x, 9);
    assert ExactHorner(x, 10) == 508468718;
    ExactHornerStep(x, 10);
    assert ExactHorner(x, 11) == 1005390679;
    ExactHornerStep(x, 11);
    assert ExactHorner(x, 12) == 1619602157;
    ExactHornerStep(x, 12);
    assert ExactHorner(x, 13) == 2080798657;
    ExactHornerStep(x, 13);
    assert ExactHorner(x, 14) == 2147656718;
  }

  lemma {:induction false} PositiveHorner(x: int, n: nat)
    requires 0 <= x <= TOP && n <= TERMS
    ensures Horner(x, n) == ExactHorner(x, n)
  {
    hide ToInt32, ExactHorner;
    ExactHornerStep(x, if n > 0 then n - 1 else 0);
    if n > 0 {
      PositiveHorner(x, n - 1);
      SumRange(x, n - 1);
      SumRange(x, n);
      TopsAre(n - 1);
      MulMono(0, 0, x, ExactHorner(x, n - 1));
      FloorOrder(0, x * ExactHorner(x, n - 1));
      KeptInt32(x * ExactHorner(x, n - 1) / ONE);
      KeptInt32(x * ExactHorner(x, n - 1) / ONE + COEFFICIENTS[n - 1]);
    }
  }

  lemma PositiveExponent(d: nat)
    requires 0 < d < 5120
    ensures Exponent(d, 8) == 16 * (d * 32768 / 10)
    ensures var x := Exponent(d, 8); 0 < x < ONE && WholePart(x) == 0 && Fraction(x) == x
  {
    hide ToInt32;
    assert Pow2(5) == 32 && Pow2(10) == 1024;
    assert Pow2(15) == 32768;
    KeptInt32(d * 32768);
    KeptInt32(d * 32768 / 10 * 16);
  }

  /** Up to 20 dB the gain of a volume of `d` / 256 dB above 0 dB is the exact polynomial, without any
      overflow, if and only if `d` is at most 4623: below 8.0. */
  lemma LouderExactly(d: nat)
    requires 0 < d < 5120
    ensures Gain(Exponent(d, 8)) == ExactHorner(16 * (d * 32768 / 10), TERMS) <==> d <= 4623
    ensures d <= 4623 ==> Multiplier(d, 8, 29) == 2 * ExactHorner(16 * (d * 32768 / 10), TERMS)
  {
    hide ExactHorner, Horner, Exponent, WholePart, Fraction, TenPower, TenthPower;
    PositiveExponent(d);
    var x := 16 * (d * 32768 / 10);
    if d <= 4623 {
      PositiveHorner(x, TERMS);
      SumRange(x, TERMS);
      TopsAre(13);
      DoubledWord(Gain(Exponent(d, 8)));
    } else {
      PositiveOrder(242430768, x, TERMS);
      TooLoud();
    }
  }

  lemma DoubledWord(gain: int32)
    requires gain >= 0
    ensures Rescaled(gain, 29) == 2 * gain
  {
    hide Wrap32;
    assert Pow2(0) == 1;
    assert Pow2(1) == 2;
    KeptWord32(gain);
    KeptWord32(gain * 2);
  }

  /** From 20 dB on the integer power itself no longer fits: 10.0 is read as -6.0. */
  lemma PowerWraps()
    ensures TenPower(1) == 10 * ONE - 0x1_0000_0000 < 0
  {
    assert TenPower(0) == ONE;
  }

  // ---------------------------------------------------------------- the error above 0 dB

  /** From the error `e` at one exponent to the error `d` at a higher one, where the power `p` has
      become `q`. */
  lemma Climb(u: real, v: real, a: real, b: real, t: real, p: real, q: real, d: real, err: real, kappa: real)
    requires a >= 0.0 && q >= 0.0 && err >= 0.0 && kappa >= 0.0
    requires p == Times(q, t) && d == v - ONE_REAL * q
    requires Within(Times(a, u) - Times(b, v), 159.0) && Within(u - ONE_REAL * p, err)
    requires Within(b - Times(t, a), kappa)
    ensures Within(Times(b, d), Times(a, err) + ONE_REAL * Times(q, kappa) + 159.0)
  {
    hide Times, Within;
    var e, g := u - ONE_REAL * p, b - Times(t, a);
    ClimbAlgebra(u, v, a, b, t, p, q, d, e, g);
    Scaled(a, e, err);
    Scaled(q, g, kappa);
    ThreeTerms(Times(b, d), Times(a, u) - Times(b, v), Times(a, e), Times(q, g), Times(a, err), Times(q, kappa));
  }

  lemma ClimbAlgebra(u: real, v: real, a: real, b: real, t: real, p: real, q: real, d: real, e: real, g: real)
    requires p == Times(q, t) && d == v - ONE_REAL * q && e == u - ONE_REAL * p && g == b - Times(t, a)
    ensures Times(b, d) == Times(a, e) - (Times(a, u) - Times(b, v)) - ONE_REAL * Times(q, g)
  {
    assert b * d == b * v - ONE_REAL * (b * q);
    assert a * p == q * (t * a);
    assert a * e == a * u - ONE_REAL * (a * p);
    assert q * g == q * b - q * (t * a);
  }

  lemma ThreeTerms(total: real, r: real, s: real, q: real, most: real, scaled: real)
    requires total == s - r - ONE_REAL * q
    requires Within(r, 159.0) && Within(s, most) && Within(q, scaled)
    ensures Within(total, most + ONE_REAL * scaled + 159.0)
  {
  }

  /** With the slope of five units an error of 48000 (p - 1) stays one. */
  lemma StaysBelow(a: real, b: real, t: real, p: real, q: real, d: real)
    requires Within(a - 2.0022486182533612, 0.0000000000000002) && a + b == 4.0
    requires Within(b - Times(t, a), 0.00000002) && p == Times(q, t) && 0.0 <= q <= 8.1
    requires Within(Times(b, d), Times(a, 48000.0 * (p - 1.0)) + ONE_REAL * Times(q, 0.00000002) + 159.0)
    ensures Within(d, 48000.0 * (q - 1.0))
  {
    hide Within, Times;
    Scaled(q, b - Times(t, a), 0.00000002);
    Regrouped(a, b, t, p, q);
    OneStep(a, b, p, q, Times(a, p), Times(b, q), Times(q, b - Times(t, a)), Times(q, 0.00000002),
            Times(a, 48000.0 * (p - 1.0)), Times(b, 48000.0 * (q - 1.0)), Times(b, d));
    Divided(b, d, 48000.0 * (q - 1.0));
  }

  lemma Regrouped(a: real, b: real, t: real, p: real, q: real)
    requires p == Times(q, t)
    ensures Times(a, p) == Times(b, q) - Times(q, b - Times(t, a))
    ensures Times(a, 48000.0 * (p - 1.0)) == 48000.0 * (Times(a, p) - a)
    ensures Times(b, 48000.0 * (q - 1.0)) == 48000.0 * (Times(b, q) - b)
    ensures Times(q, 0.00000002) == 0.00000002 * q && Times(q, 0.0000005) == 0.0000005 * q
    ensures Times(b, 48000.0 * (q - 1.0) + 800.0) == 48000.0 * (Times(b, q) - b) + 800.0 * b
  {
    assert q * (b - t * a) == q * b - q * (t * a);
    assert a * (q * t) == q * (t * a);
  }

  lemma OneStep(a: real, b: real, p: real, q: real, ap: real, bq: real, qg: real, kappa: real, last: real, next: real,
                bd: real)
    requires Within(a - 2.0022486182533612, 0.0000000000000002) && a + b == 4.0
    requires 0.0 <= q <= 8.1 && kappa == 0.00000002 * q && Within(qg, kappa) && ap == bq - qg
    requires last == 48000.0 * (ap - a) && next == 48000.0 * (bq - b)
    requires Within(bd, last + ONE_REAL * kappa + 159.0)
    ensures Within(bd, next) && b > 1.0
  {
  }

  lemma FiveUp(c: real, x: int, y: int, p: real, q: real)
    requires Attenuation(c) && Neighbours(x, y) && y - x == 0x4_0000 && 1.0 <= p && 0.0 <= q <= 8.1
    requires p == Times(q, Power(c, 5))
    requires Within(ExactHorner(x, TERMS) as real - ONE_REAL * p, 48000.0 * (p - 1.0))
    ensures Within(ExactHorner(y, TERMS) as real - ONE_REAL * q, 48000.0 * (q - 1.0))
  {
    hide ExactHorner, Power, Slope, Attenuation, Times, Within;
    var u, v, t := ExactHorner(x, TERMS) as real, ExactHorner(y, TERMS) as real, Power(c, 5);
    var a, b := 2.0 + Slope(0x4_0000), 2.0 - Slope(0x4_0000);
    var d := v - ONE_REAL * q;
    SlopeReal(x, y, u, v, a, b);
    FactorsOfFive(a, b);
    FiveUnits(c);
    FiveSlope(t, a, b);
    FactorPositive(a, b);
    Climb(u, v, a, b, t, p, q, d, 48000.0 * (p - 1.0), 0.00000002);
    StaysBelow(a, b, t, p, q, d);
  }

  lemma FactorPositive(a: real, b: real)
    requires Within(a - 2.0022486182533612, 0.0000000000000002)
    ensures a >= 0.0
  {
  }

  /** The power is not above 8.01 where the polynomial fits 32 bits. */
  lemma PowerBelowEight(v: int, p: real)
    requires v < 0x8000_0000 && Within(v as real - ONE_REAL * p, 48000.0 * (p - 1.0))
    ensures p <= 8.01
  {
  }

  lemma NextAtMost(p: real, q: real, t: real)
    requires p == Times(q, t) && t > 0.997753903 && 0.0 <= p <= 8.01
    ensures 0.0 <= q <= 8.1
  {
    if q < 0.0 {
      Positive(-q, t);
    } else {
      Below(0.997753903, t, q);
    }
  }

  /** Powers of the inverse are the inverses of the powers. */
  lemma {:induction false} InversePower(k: real, c: real, n: nat)
    requires k > 0.0 && c * k == 1.0
    ensures Power(c, n) * Power(k, n) == 1.0
  {
    if n > 0 {
      InversePower(k, c, n - 1);
      var p, q := Power(c, n - 1), Power(k, n - 1);
      assert (c * p) * (k * q) == (c * k) * (p * q);
    }
  }

  /** Some units up and as many down again. */
  lemma UpAndDown(k: real, c: real, m: nat, n: nat)
    requires k > 0.0 && c * k == 1.0
    ensures Power(k, m) == Times(Power(k, m + n), Power(c, n))
  {
    hide Power;
    PowerSum(k, m, n);
    InversePower(k, c, n);
    var p, q, r := Power(k, m), Power(k, n), Power(c, n);
    assert (p * q) * r == p * (r * q);
  }

  /** The amplification of one 256th of a decibel. */
  predicate Amplification(k: real, c: real) {
    k > 0.0 && c * k == 1.0 && Attenuation(c)
  }

  lemma AmplificationOf(k: real) returns (c: real)
    requires k > 0.0 && Power(k, 5120) == 10.0
    ensures Amplification(k, c)
  {
    hide Power;
    c := 1.0 / k;
    InversePower(k, c, 5120);
  }

  lemma {:induction false} PowerAbove(k: real, c: real, n: nat)
    requires Amplification(k, c)
    ensures Power(k, n) >= 1.0
  {
    hide Power;
    OneUnit(c);
    PowerWithin(c, n);
    InversePower(k, c, n);
    PositiveFactor(Power(c, n), Power(k, n));
  }

  lemma PositiveFactor(r: real, q: real)
    requires 0.0 < r <= 1.0 && r * q == 1.0
    ensures q >= 1.0
  {
    if q < 0.0 {
      Positive(r, -q);
    } else {
      Below(r, 1.0, q);
    }
  }

  lemma {:induction false} FiveUnitClimbs(k: real, c: real, j: nat)
    requires Amplification(k, c) && j <= 924
    ensures Within(ExactHorner(0x4_0000 * j, TERMS) as real - ONE_REAL * Power(k, 5 * j),
                   48000.0 * (Power(k, 5 * j) - 1.0))
  {
    hide ExactHorner, Power, Attenuation, Times;
    if j == 0 {
      LoudAtZero(k);
    } else {
      FiveUnitClimbs(k, c, j - 1);
      SumRange(0x4_0000 * (j - 1), TERMS);
      TopsAre(13);
      PowerBelowEight(ExactHorner(0x4_0000 * (j - 1), TERMS), Power(k, 5 * (j - 1)));
      PowerAbove(k, c, 5 * (j - 1));
      UpAndDown(k, c, 5 * (j - 1), 5);
      FiveUnits(c);
      assert 5 * (j - 1) + 5 == 5 * j;
      NextAtMost(Power(k, 5 * (j - 1)), Power(k, 5 * j), Power(c, 5));
      FiveUp(c, 0x4_0000 * (j - 1), 0x4_0000 * j, Power(k, 5 * (j - 1)), Power(k, 5 * j));
    }
  }

  lemma LoudAtZero(k: real)
    ensures Within(ExactHorner(0, TERMS) as real - ONE_REAL * Power(k, 0), 48000.0 * (Power(k, 0) - 1.0))
  {
    hide ExactHorner;
    PolynomialAtZero();
    PowerNone(k);
  }

  /** Fewer than five units further up the error grows a little. */
  lemma UnitsUp(c: real, x: int, y: int, i: nat, p: real, q: real)
    requires Attenuation(c) && 1 <= i <= 4 && Neighbours(x, y) && y - x == StepOf(i)
    requires 1.0 <= p && 0.0 <= q <= 8.1 && p == Times(q, Power(c, i))
    requires Within(ExactHorner(x, TERMS) as real - ONE_REAL * p, 48000.0 * (p - 1.0))
    ensures Within(ExactHorner(y, TERMS) as real - ONE_REAL * q, 48000.0 * (q - 1.0) + 800.0)
  {
    hide ExactHorner, Power, Slope, Attenuation, StepOf, Times, Within;
    var u, v, t := ExactHorner(x, TERMS) as real, ExactHorner(y, TERMS) as real, Power(c, i);
    var a, b := 2.0 + Slope(StepOf(i)), 2.0 - Slope(StepOf(i));
    var d := v - ONE_REAL * q;
    SlopeReal(x, y, u, v, a, b);
    OneUnit(c);
    StepSlope(c, i, t, a, b);
    StepFactors(c, i);
    Climb(u, v, a, b, t, p, q, d, 48000.0 * (p - 1.0), 0.0000005);
    GrowsUp(a, b, t, p, q, d);
  }

  lemma StepFactors(c: real, i: nat)
    requires 1 <= i <= 4
    ensures 2.0 - Slope(StepOf(i)) >= 1.99
  {
    SlopesOfUnits();
  }

  lemma GrowsUp(a: real, b: real, t: real, p: real, q: real, d: real)
    requires a >= 2.0 && b >= 1.99 && a + b == 4.0
    requires Within(b - Times(t, a), 0.0000005) && p == Times(q, t) && 0.0 <= q <= 8.1
    requires Within(Times(b, d), Times(a, 48000.0 * (p - 1.0)) + ONE_REAL * Times(q, 0.0000005) + 159.0)
    ensures Within(d, 48000.0 * (q - 1.0) + 800.0)
  {
    hide Within, Times;
    Scaled(q, b - Times(t, a), 0.0000005);
    Regrouped(a, b, t, p, q);
    LastStepUp(a, b, q, Times(a, p), Times(b, q), Times(q, b - Times(t, a)), Times(q, 0.0000005),
               Times(a, 48000.0 * (p - 1.0)), Times(b, 48000.0 * (q - 1.0) + 800.0), Times(b, d));
    Divided(b, d, 48000.0 * (q - 1.0) + 800.0);
  }

  lemma LastStepUp(a: real, b: real, q: real, ap: real, bq: real, qg: real, kappa: real, last: real, next: real,
                   bd: real)
    requires a >= 2.0 && b >= 1.99 && a + b == 4.0
    requires 0.0 <= q <= 8.1 && kappa == 0.0000005 * q && Within(qg, kappa) && ap == bq - qg
    requires last == 48000.0 * (ap - a) && next == 48000.0 * (bq - b) + 800.0 * b
    requires Within(bd, last + ONE_REAL * kappa + 159.0)
    ensures Within(bd, next)
  {
  }

  lemma MultiplierIsTwice(d: nat)
    requires d <= 4623
    ensures Multiplier(d, 8, 29) == 2 * ExactHorner(16 * (d * 32768 / 10), TERMS)
  {
    hide ExactHorner, Gain, Exponent, Rescaled, Pow2;
    if d == 0 {
      FinalShift(ONE);
      PolynomialAtZero();
    } else {
      LouderExactly(d);
    }
  }

  lemma ExponentSteps(j: nat, i: nat)
    requires i <= 4
    ensures 16 * ((5 * j + i) * 32768 / 10) == 0x4_0000 * j + StepOf(i)
    ensures StepOf(0) == 0
  {
    DivUnique((5 * j + i) * 32768, 10, 16384 * j + i * 32768 / 10);
  }

  lemma ExponentAtMost(d: nat)
    requires d <= 4623
    ensures 16 * (d * 32768 / 10) <= TOP
  {
  }

  lemma FewUnits(c: real, i: nat)
    requires Attenuation(c) && 1 <= i <= 4
    ensures Power(c, i) > 0.997753903
  {
    hide Power, Attenuation;
    OneUnit(c);
    UnitPowers();
    PowerBelow(0.999550375, c, i);
  }

  // ---------------------------------------------------------------- the multiplier above 0 dB

  /** Up to 18 dB above 0 dB the multiplier is 2^29 times the `d`th power of `k`, where `k` is a 256th
      of a decibel, but for 96000 units for each 1.0 it lies above 1.0, and 1600 more. */
  lemma LouderAccurate(k: real, d: nat)
    requires k > 0.0 && Power(k, 5120) == 10.0 && d <= 4623
    ensures Within(Multiplier(d, 8, 29) as real - 536870912.0 * Power(k, d), 96000.0 * (Power(k, d) - 1.0) + 1600.0)
  {
    hide ExactHorner, Power, Multiplier, Attenuation, Times;
    var c := AmplificationOf(k);
    var j, i := d / 5, d % 5;
    assert d == 5 * j + i;
    MultiplierIsTwice(d);
    ExponentSteps(j, i);
    FiveUnitClimbs(k, c, j);
    if i > 0 {
      StepsSmall(i);
      ExponentAtMost(d);
      SumRange(0x4_0000 * j, TERMS);
      TopsAre(13);
      PowerBelowEight(ExactHorner(0x4_0000 * j, TERMS), Power(k, 5 * j));
      PowerAbove(k, c, 5 * j);
      UpAndDown(k, c, 5 * j, i);
      FewUnits(c, i);
      NextAtMost(Power(k, 5 * j), Power(k, d), Power(c, i));
      UnitsUp(c, 0x4_0000 * j, 16 * (d * 32768 / 10), i, Power(k, 5 * j), Power(k, d));
    }
  }
}
