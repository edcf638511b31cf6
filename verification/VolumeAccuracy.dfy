/** dbcalc.c: how much a decibel is. The multiplier is a power of a tenth, the exponent being the
    attenuation in twentieths of a decibel, but for a stated error. */
module VolumeAccuracy {
  import opened Words
  import opened VolumeGain
  import opened VolumeOrder

  // ---------------------------------------------------------------- real powers

  function Power(x: real, n: nat): real {
    if n == 0 then 1.0 else x * Power(x, n - 1)
  }

  lemma {:induction false} PowerSum(x: real, m: nat, n: nat)
    ensures Power(x, m + n) == Power(x, m) * Power(x, n)
  {
    if m > 0 {
      PowerSum(x, m - 1, n);
      Grouped(x, Power(x, m - 1), Power(x, n));
    }
  }

  lemma Grouped(x: real, y: real, z: real)
    ensures x * (y * z) == (x * y) * z
  {
  }

  lemma PowerDouble(x: real, n: nat)
    ensures Power(x, 2 * n) == Power(x, n) * Power(x, n)
  {
    PowerSum(x, n, n);
  }

  lemma {:induction false} PowerPower(x: real, m: nat, n: nat)
    ensures Power(x, m * n) == Power(Power(x, m), n)
  {
    if n > 0 {
      PowerPower(x, m, n - 1);
      PowerSum(x, m, m * (n - 1));
      assert m * n == m + m * (n - 1);
    }
  }

  lemma {:induction false} PowerWithin(x: real, n: nat)
    requires 0.0 < x <= 1.0
    ensures 0.0 < Power(x, n) <= 1.0
  {
    if n > 0 {
      PowerWithin(x, n - 1);
      SmallProduct(x, Power(x, n - 1));
    }
  }

  lemma SmallProduct(x: real, p: real)
    requires 0.0 < x <= 1.0 && 0.0 < p <= 1.0
    ensures 0.0 < x * p <= 1.0
  {
    Positive(x, p);
    Below(x, 1.0, p);
  }

  lemma Positive(x: real, y: real)
    requires x > 0.0 && y > 0.0
    ensures x * y > 0.0
  {
  }

  lemma Below(x: real, y: real, p: real)
    requires x <= y && p >= 0.0
    ensures x * p <= y * p
  {
    assert (y - x) * p >= 0.0;
  }

  // ---------------------------------------------------------------- the unit of volume

  /** The attenuation of one 256th of a decibel: 5120 of them, 20 dB, make a tenth. */
  predicate Attenuation(c: real) {
    c > 0.0 && Power(c, 5120) == 0.1
  }

  lemma SquareBelow(p: real, bound: real, next: real)
    requires 0.0 <= p <= bound && bound * bound <= next
    ensures 0.0 <= p * p <= next
  {
    Below(p, bound, p);
    Below(p, bound, bound);
  }

  lemma SquareAbove(p: real, bound: real, next: real)
    requires p >= bound >= 0.0 && bound * bound >= next
    ensures p * p >= next
  {
    Below(bound, p, bound);
    Below(bound, p, p);
  }

  lemma PowerOne(q: real)
    ensures Power(q, 1) == q
  {
    assert Power(q, 0) == 1.0;
  }

  lemma TooSmall(q: real)
    requires 0.0 <= q <= 0.997753903
    ensures Power(q, 1024) < 0.1
  {
    hide Power;
    PowerOne(q);
    PowerDouble(q, 1);
    SquareBelow(Power(q, 1), 0.997753903, 0.9955128509518);
    PowerDouble(q, 2);
    SquareBelow(Power(q, 2), 0.9955128509518, 0.9910458364102);
    PowerDouble(q, 4);
    SquareBelow(Power(q, 4), 0.9910458364102, 0.982171849866);
    PowerDouble(q, 8);
    SquareBelow(Power(q, 8), 0.982171849866, 0.9646615426693);
    PowerDouble(q, 16);
    SquareBelow(Power(q, 16), 0.9646615426693, 0.9305718919052);
    PowerDouble(q, 32);
    SquareBelow(Power(q, 32), 0.9305718919052, 0.8659640460041);
    PowerDouble(q, 64);
    SquareBelow(Power(q, 64), 0.8659640460041, 0.7498937289718);
    PowerDouble(q, 128);
    SquareBelow(Power(q, 128), 0.7498937289718, 0.5623406047513);
    PowerDouble(q, 256);
    SquareBelow(Power(q, 256), 0.5623406047513, 0.3162269557521);
    PowerDouble(q, 512);
    SquareBelow(Power(q, 512), 0.3162269557521, 0.0999994875443);
  }

  lemma TooGreat(q: real)
    requires q >= 0.997753913
    ensures Power(q, 1024) > 0.1
  {
    hide Power;
    PowerOne(q);
    PowerDouble(q, 1);
    SquareAbove(Power(q, 1), 0.997753913, 0.9955128709068);
    PowerDouble(q, 2);
    SquareAbove(Power(q, 2), 0.9955128709068, 0.991045876141);
    PowerDouble(q, 4);
    SquareAbove(Power(q, 4), 0.991045876141, 0.982171928616);
    PowerDouble(q, 8);
    SquareAbove(Power(q, 8), 0.982171928616, 0.9646616973612);
    PowerDouble(q, 16);
    SquareAbove(Power(q, 16), 0.9646616973612, 0.9305721903557);
    PowerDouble(q, 32);
    SquareAbove(Power(q, 32), 0.9305721903557, 0.8659646014634);
    PowerDouble(q, 64);
    SquareAbove(Power(q, 64), 0.8659646014634, 0.7498946909876);
    PowerDouble(q, 128);
    SquareAbove(Power(q, 128), 0.7498946909876, 0.5623420475713);
    PowerDouble(q, 256);
    SquareAbove(Power(q, 256), 0.5623420475713, 0.3162285784666);
    PowerDouble(q, 512);
    SquareAbove(Power(q, 512), 0.3162285784666, 0.100000513839);
  }

  /** Five of them, to eight places. */
  lemma FiveUnits(c: real)
    requires Attenuation(c)
    ensures 0.997753903 < Power(c, 5) < 0.997753913
  {
    hide Power;
    PowerPower(c, 5, 1024);
    PowerFive(c);
    if Power(c, 5) <= 0.997753903 {
      TooSmall(Power(c, 5));
    }
    if Power(c, 5) >= 0.997753913 {
      TooGreat(Power(c, 5));
    }
  }

  lemma PowerFive(c: real)
    requires c > 0.0
    ensures Power(c, 2) == c * c && Power(c, 3) == c * (c * c) && Power(c, 4) == c * (c * (c * c))
    ensures Power(c, 5) == c * (c * (c * (c * c))) > 0.0
  {
    assert Power(c, 0) == 1.0;
    assert Power(c, 1) == c;
    assert Power(c, 2) == c * c > 0.0;
    assert Power(c, 3) == c * Power(c, 2) > 0.0;
    assert Power(c, 4) == c * Power(c, 3) > 0.0;
    assert Power(c, 5) == c * Power(c, 4) > 0.0;
  }

  /** One of them, to eight places. */
  lemma OneUnit(c: real)
    requires Attenuation(c)
    ensures 0.999550375 < c < 0.99955038
  {
    hide Power;
    FiveUnits(c);
    FifthPowers();
    if c <= 0.999550375 {
      PowerBelow(c, 0.999550375, 5);
    }
    if c >= 0.99955038 {
      PowerBelow(0.99955038, c, 5);
    }
  }

  lemma FifthPowers()
    ensures Power(0.999550375, 5) < 0.997753903 && Power(0.99955038, 5) > 0.997753913
  {
    hide Power;
    PowerFive(0.999550375);
    PowerFive(0.99955038);
  }

  lemma {:induction false} PowerBelow(x: real, y: real, n: nat)
    requires 0.0 < x <= y
    ensures 0.0 < Power(x, n) <= Power(y, n)
  {
    if n > 0 {
      PowerBelow(x, y, n - 1);
      ProductBelow(x, y, Power(x, n - 1), Power(y, n - 1));
    }
  }

  lemma ProductBelow(x: real, y: real, p: real, q: real)
    requires 0.0 < x <= y && 0.0 < p <= q
    ensures 0.0 < x * p <= y * q
  {
    Below(x, y, p);
    Below(p, q, y);
    assert x * p > 0.0;
  }

  // ---------------------------------------------------------------- from one exponent to the next

  /** A difference within an error bound. */
  predicate Within(difference: real, bound: real) {
    -bound <= difference <= bound
  }

  /** A product, named so that the proofs can treat it as a number. */
  function Times(x: real, y: real): real {
    x * y
  }

  const ONE_REAL: real := 268435456.0
  const ONE_SQUARE: real := 72057594037927936.0

  /** The step of the exponent, times the logarithm of ten. */
  function Slope(step: int): real {
    (LN_TEN * step) as real / ONE_SQUARE
  }

  /** Two plus and two less the slope, the factors of the two values. */
  predicate Factors(step: int, a: real, b: real) {
    a == 2.0 + Slope(step) && b == 2.0 - Slope(step)
  }

  lemma SlopeReal(x: int, y: int, u: real, v: real, a: real, b: real)
    requires Neighbours(x, y) && Factors(y - x, a, b)
    requires u == ExactHorner(x, TERMS) as real && v == ExactHorner(y, TERMS) as real
    ensures Within(Times(a, u) - Times(b, v), 159.0)
  {
    hide ExactHorner, Slope, Within, Times;
    var m, n, h := ExactHorner(x, TERMS), ExactHorner(y, TERMS), Slope(y - x);
    SlopeOfPolynomial(x, y);
    SlopeTimes(y - x, n + m, h, v + u);
    Mean(u, v, h, a, b);
    Unscaled(2 * (n - m), LN_TEN * ((y - x) * (n + m)), Times(h, v + u));
    assert (2 * (n - m)) as real == 2.0 * (v - u);
  }

  lemma SlopeTimes(s: int, b: int, h: real, r: real)
    requires h == Slope(s) && r == b as real
    ensures (LN_TEN * (s * b)) as real == Times(h, r) * ONE_SQUARE
  {
    assert LN_TEN * (s * b) == (LN_TEN * s) * b;
    assert ((LN_TEN * s) * b) as real == (LN_TEN * s) as real * b as real;
    assert h * ONE_SQUARE == (LN_TEN * s) as real;
  }

  lemma Mean(x: real, y: real, h: real, a: real, b: real)
    requires a == 2.0 + h && b == 2.0 - h
    ensures Times(a, x) - Times(b, y) == Times(h, y + x) - 2.0 * (y - x)
  {
  }

  lemma Unscaled(d: int, p: int, q: real)
    requires p as real == q * ONE_SQUARE && Size(ONE * ONE * d - p) <= 159 * (ONE * ONE)
    ensures Within(q - d as real, 159.0)
  {
    assert (ONE * ONE * d) as real == ONE_SQUARE * d as real;
    assert (ONE * ONE * d - p) as real == (d as real - q) * ONE_SQUARE;
  }

  /** From an error at one exponent to the error `d` at a lower one, where the power `p` has become
      `q`, `t` times as much. */
  lemma Advance(u: real, v: real, a: real, b: real, t: real, p: real, q: real, d: real, err: real, kappa: real)
    requires b >= 0.0 && 0.0 <= p <= 1.0 && err >= 0.0 && kappa >= 0.0
    requires q == Times(p, t) && d == u - ONE_REAL * q
    requires Within(Times(a, u) - Times(b, v), 159.0) && Within(v - ONE_REAL * p, err)
    requires Within(b - Times(t, a), kappa)
    ensures Within(Times(a, d), Times(b, err) + ONE_REAL * kappa + 159.0)
  {
    hide Times, Within;
    var e, g := v - ONE_REAL * p, b - Times(t, a);
    AdvanceAlgebra(u, v, a, b, t, p, q, d, e, g);
    Scaled(b, e, err);
    Scaled(p, g, kappa);
    PartOf(p, kappa);
    ThreeErrors(Times(a, d), Times(a, u) - Times(b, v), Times(b, e), Times(p, g), Times(b, err), kappa,
                Times(p, kappa));
  }

  lemma PartOf(p: real, q: real)
    requires 0.0 <= p <= 1.0 && q >= 0.0
    ensures Times(p, q) <= q
  {
    Below(p, 1.0, q);
  }

  lemma AdvanceAlgebra(u: real, v: real, a: real, b: real, t: real, p: real, q: real, d: real, e: real, g: real)
    requires q == Times(p, t) && d == u - ONE_REAL * q && e == v - ONE_REAL * p && g == b - Times(t, a)
    ensures Times(a, d) == (Times(a, u) - Times(b, v)) + Times(b, e) + ONE_REAL * Times(p, g)
  {
    assert a * d == a * u - ONE_REAL * (a * q);
    assert a * q == p * (t * a);
    assert b * e == b * v - ONE_REAL * (b * p);
    assert p * g == p * b - p * (t * a);
  }

  lemma ThreeErrors(total: real, r: real, s: real, q: real, most: real, kappa: real, scaled: real)
    requires total == r + s + ONE_REAL * q && scaled <= kappa
    requires Within(r, 159.0) && Within(s, most) && Within(q, scaled)
    ensures Within(total, most + ONE_REAL * kappa + 159.0)
  {
  }

  lemma Scaled(k: real, q: real, bound: real)
    requires k >= 0.0 && Within(q, bound)
    ensures Within(Times(k, q), Times(k, bound))
  {
    assert k * (bound - q) >= 0.0;
    assert k * (bound + q) >= 0.0;
  }

  // ---------------------------------------------------------------- one decade

  lemma FactorsOfFive(a: real, b: real)
    requires Factors(0x4_0000, a, b)
    ensures Within(a - 2.0022486182533612, 0.0000000000000002) && a + b == 4.0
  {
  }

  lemma FiveSlope(t: real, a: real, b: real)
    requires 0.997753903 < t < 0.997753913 && Within(a - 2.0022486182533612, 0.0000000000000002) && a + b == 4.0
    ensures Within(b - Times(t, a), 0.00000002) && b >= 0.0
  {
    Below(0.997753903, t, a);
    Below(t, 0.997753913, a);
  }

  lemma Shrinks(a: real, b: real, d: real)
    requires Within(a - 2.0022486182533612, 0.0000000000000002) && a + b == 4.0
    requires Within(Times(a, d), Times(b, 40000.0) + ONE_REAL * 0.00000002 + 159.0)
    ensures Within(d, 40000.0)
  {
    hide Within;
    ShrinksBy(a, b, Times(a, d), Times(b, 40000.0), Times(a, 40000.0));
    Divided(a, d, 40000.0);
  }

  lemma ShrinksBy(a: real, b: real, ad: real, last: real, next: real)
    requires Within(a - 2.0022486182533612, 0.0000000000000002) && a + b == 4.0
    requires last == 40000.0 * b && next == 40000.0 * a && Within(ad, last + ONE_REAL * 0.00000002 + 159.0)
    ensures Within(ad, next) && a > 1.0
  {
  }

  lemma Divided(b: real, d: real, most: real)
    requires b > 1.0 && Within(Times(b, d), Times(b, most))
    ensures Within(d, most)
  {
    if d > most {
      Positive(b, d - most);
    } else if d < -most {
      Positive(b, -most - d);
    }
  }

  /** The error five units further down is no greater: what is added is less than what the slope
      takes away. */
  lemma FiveDown(c: real, x: int, y: int, p: real, q: real)
    requires Attenuation(c) && Neighbours(x, y) && y - x == 0x4_0000 && 0.0 <= p <= 1.0
    requires q == Times(p, Power(c, 5))
    requires Within(ExactHorner(y, TERMS) as real - ONE_REAL * p, 40000.0)
    ensures Within(ExactHorner(x, TERMS) as real - ONE_REAL * q, 40000.0)
  {
    hide ExactHorner, Power, Slope, Attenuation, Times, Within;
    var u, v, t := ExactHorner(x, TERMS) as real, ExactHorner(y, TERMS) as real, Power(c, 5);
    var a, b := 2.0 + Slope(0x4_0000), 2.0 - Slope(0x4_0000);
    var d := u - ONE_REAL * q;
    SlopeReal(x, y, u, v, a, b);
    FactorsOfFive(a, b);
    FiveUnits(c);
    FiveSlope(t, a, b);
    Advance(u, v, a, b, t, p, q, d, 40000.0, 0.00000002);
    Shrinks(a, b, d);
  }

  lemma {:induction false} FiveUnitSteps(c: real, j: nat)
    requires Attenuation(c) && j <= 1023
    ensures Within(ExactHorner(-0x4_0000 * j, TERMS) as real - ONE_REAL * Power(c, 5 * j), 40000.0)
    ensures 0.0 < Power(c, 5 * j) <= 1.0
  {
    hide ExactHorner, Power, Attenuation, Times;
    OneUnit(c);
    PowerWithin(c, 5 * j);
    if j == 0 {
      AtTheTop(c);
    } else {
      FiveUnitSteps(c, j - 1);
      NextPower(c, 5 * (j - 1), 5);
      assert 5 * (j - 1) + 5 == 5 * j;
      FiveDown(c, -0x4_0000 * j, -0x4_0000 * (j - 1), Power(c, 5 * (j - 1)), Power(c, 5 * j));
    }
  }

  lemma AtTheTop(c: real)
    ensures Within(ExactHorner(0, TERMS) as real - ONE_REAL * Power(c, 0), 40000.0)
  {
    hide ExactHorner;
    PolynomialAtZero();
    PowerNone(c);
  }

  lemma NextPower(c: real, m: nat, n: nat)
    ensures Power(c, m + n) == Times(Power(c, m), Power(c, n))
  {
    PowerSum(c, m, n);
  }

  lemma PowerNone(c: real)
    ensures Power(c, 0) == 1.0
  {
  }

  /** The exponent of fewer than five units. */
  function StepOf(i: nat): nat {
    16 * (i * 32768 / 10)
  }

  lemma UnitPowers()
    ensures Power(0.999550375, 1) >= 0.999550375 && Power(0.99955038, 1) <= 0.99955038
    ensures Power(0.999550375, 2) >= 0.9991009521 && Power(0.99955038, 2) <= 0.9991009622
    ensures Power(0.999550375, 3) >= 0.9986517313 && Power(0.99955038, 3) <= 0.9986517464
    ensures Power(0.999550375, 4) >= 0.9982027126 && Power(0.99955038, 4) <= 0.9982027326
  {
    hide Power;
    PowerOne(0.999550375);
    PowerOne(0.99955038);
    PowerFive(0.999550375);
    PowerFive(0.99955038);
  }

  lemma StepBetween(t: real, lo: real, hi: real, a: real, b: real, near: real)
    requires 0.0 < lo <= t <= hi && Within(a - near, 0.00000000000001) && a + b == 4.0 && 2.0001 <= near <= 2.1
    requires hi * near - (4.0 - near) <= 0.0000004 && (4.0 - near) - lo * near <= 0.0000004 && hi <= 1.0
    ensures Within(b - Times(t, a), 0.0000005) && b >= 0.0 && a >= 2.0
  {
    hide Times, Within;
    NotBelow(a, near);
    TimesOrder(lo, t, hi, a);
    Near(lo, a, near, Times(lo, a), lo * near);
    Near(hi, a, near, Times(hi, a), hi * near);
    Enclosed(a, b, near, Times(t, a), Times(lo, a), Times(hi, a), lo * near, hi * near);
  }

  lemma NotBelow(a: real, near: real)
    requires Within(a - near, 0.00000000000001) && 2.0001 <= near <= 2.1
    ensures 2.0 <= a <= 2.2
  {
  }

  lemma TimesOrder(lo: real, t: real, hi: real, a: real)
    requires lo <= t <= hi && a >= 0.0
    ensures Times(lo, a) <= Times(t, a) <= Times(hi, a)
  {
    Below(lo, t, a);
    Below(t, hi, a);
  }

  lemma Near(t: real, a: real, near: real, ta: real, tn: real)
    requires 0.0 < t <= 1.0 && Within(a - near, 0.00000000000001) && ta == Times(t, a) && tn == t * near
    ensures Within(ta - tn, 0.00000000000001)
  {
    Scaled(t, a - near, 0.00000000000001);
    PartOf(t, 0.00000000000001);
    assert t * (a - near) == ta - tn;
  }

  lemma Enclosed(a: real, b: real, near: real, ta: real, la: real, ha: real, ln: real, hn: real)
    requires a + b == 4.0 && Within(a - near, 0.00000000000001) && la <= ta <= ha
    requires Within(la - ln, 0.00000000000001) && Within(ha - hn, 0.00000000000001)
    requires hn - (4.0 - near) <= 0.0000004 && (4.0 - near) - ln <= 0.0000004
    ensures Within(b - ta, 0.0000005)
  {
  }

  lemma StepSlope(c: real, i: nat, t: real, a: real, b: real)
    requires 1 <= i <= 4 && 0.999550375 < c < 0.99955038 && t == Power(c, i) && Factors(StepOf(i), a, b)
    ensures Within(b - Times(t, a), 0.0000005) && b >= 0.0 && a >= 2.0 && a + b == 4.0
  {
    hide Power, Within, Times;
    UnitPowers();
    PowerBelow(0.999550375, c, i);
    PowerBelow(c, 0.99955038, i);
    SlopesOfUnits();
    match i
    case 1 => StepBetween(t, 0.999550375, 0.99955038, a, b, 2.00044961385485);
    case 2 => StepBetween(t, 0.9991009521, 0.9991009622, a, b, 2.00089936495448);
    case 3 => StepBetween(t, 0.9986517313, 0.9986517464, a, b, 2.00134911605411);
    case 4 => StepBetween(t, 0.9982027126, 0.9982027326, a, b, 2.00179886715373);
  }

  lemma SlopesOfUnits()
    ensures Within(Slope(StepOf(1)) - 0.00044961385485, 0.00000000000001)
    ensures Within(Slope(StepOf(2)) - 0.00089936495448, 0.00000000000001)
    ensures Within(Slope(StepOf(3)) - 0.00134911605411, 0.00000000000001)
    ensures Within(Slope(StepOf(4)) - 0.00179886715373, 0.00000000000001)
  {
  }

  /** Fewer than five units further down the error grows a little. */
  lemma UnitsDown(c: real, x: int, y: int, i: nat, p: real, q: real)
    requires Attenuation(c) && 1 <= i <= 4 && Neighbours(x, y) && y - x == StepOf(i)
    requires 0.0 <= p <= 1.0 && q == Times(p, Power(c, i))
    requires Within(ExactHorner(y, TERMS) as real - ONE_REAL * p, 40000.0)
    ensures Within(ExactHorner(x, TERMS) as real - ONE_REAL * q, 40300.0)
  {
    hide ExactHorner, Power, Slope, Attenuation, StepOf, Times, Within;
    var u, v, t := ExactHorner(x, TERMS) as real, ExactHorner(y, TERMS) as real, Power(c, i);
    var a, b := 2.0 + Slope(StepOf(i)), 2.0 - Slope(StepOf(i));
    var d := u - ONE_REAL * q;
    SlopeReal(x, y, u, v, a, b);
    OneUnit(c);
    StepSlope(c, i, t, a, b);
    Advance(u, v, a, b, t, p, q, d, 40000.0, 0.0000005);
    Grows(a, b, d);
  }

  lemma Grows(a: real, b: real, d: real)
    requires a >= 2.0 && b >= 0.0 && a + b == 4.0
    requires Within(Times(a, d), Times(b, 40000.0) + ONE_REAL * 0.0000005 + 159.0)
    ensures Within(d, 40300.0)
  {
    AtMost(a, d, b * 40000.0 + ONE_REAL * 0.0000005 + 159.0);
    assert a * -d == -(a * d);
    AtMost(a, -d, b * 40000.0 + ONE_REAL * 0.0000005 + 159.0);
  }

  lemma AtMost(a: real, d: real, most: real)
    requires a >= 2.0 && a * d <= most <= 80300.0
    ensures d <= 40300.0
  {
    if d > 40300.0 {
      Below(40300.0, d, a);
    }
  }

  lemma FractionOf(j: nat, i: nat)
    requires i <= 4 && 5 * j + i < 5120
    ensures FractionAt(5 * j + i) == -0x4_0000 * j - StepOf(i)
    ensures FractionAt(5 * j) == -0x4_0000 * j
  {
    FractionParts(0, 5 * j + i);
    FractionParts(0, 5 * j);
    DivUnique((5 * j + i) * 32768, 10, 16384 * j + i * 32768 / 10);
    DivUnique(5 * j * 32768, 10, 16384 * j);
  }

  /** Everywhere in a decade the polynomial is the power, but for 40300 units of 2^-28. */
  lemma OneDecade(c: real, r: nat)
    requires Attenuation(c) && r < 5120
    ensures Within(ExactHorner(FractionAt(r), TERMS) as real - ONE_REAL * Power(c, r), 40300.0)
    ensures 0.0 < Power(c, r) <= 1.0
  {
    hide ExactHorner, Power, Attenuation, FractionAt, Times;
    var j, i := r / 5, r % 5;
    assert r == 5 * j + i;
    OneUnit(c);
    PowerWithin(c, r);
    FiveUnitSteps(c, j);
    FractionOf(j, i);
    if i > 0 {
      NextPower(c, 5 * j, i);
      FractionRange(r);
      FractionRange(5 * j);
      StepsSmall(i);
      UnitsDown(c, FractionAt(r), FractionAt(5 * j), i, Power(c, 5 * j), Power(c, r));
    }
  }

  lemma StepsSmall(i: nat)
    requires 1 <= i <= 4
    ensures 0 < StepOf(i) <= STEP
  {
  }

  // ---------------------------------------------------------------- all decades

  /** The integer power is a power of a tenth, but for what is cut off. */
  lemma {:induction false} TenthNear(n: nat)
    ensures Within(TenthPower(n) as real - ONE_REAL * Power(0.1, n), 1.2)
  {
    if n > 0 {
      TenthNear(n - 1);
      TenthPowerBounds(n - 1);
      DivBounds(TenthPower(n - 1), 10, TenthPower(n));
      TenthStep(TenthPower(n - 1), TenthPower(n), Power(0.1, n - 1), Power(0.1, n));
    }
  }

  lemma TenthStep(power: int, next: int, p: real, q: real)
    requires next * 10 <= power < (next + 1) * 10 && q == 0.1 * p && Within(power as real - ONE_REAL * p, 1.2)
    ensures Within(next as real - ONE_REAL * q, 1.2)
  {
  }

  /** The power of a volume that is `n` times 20 dB and `r` units down. */
  lemma VolumePower(c: real, n: nat, r: nat)
    requires Attenuation(c)
    ensures Power(c, 5120 * n + r) == Times(Power(0.1, n), Power(c, r))
  {
    hide Power;
    PowerSum(c, 5120 * n, r);
    PowerPower(c, 5120, n);
  }

  /** Power times polynomial, rounded down, against the product of what they stand for. */
  lemma ProductNear(power: nat, poly: nat, gain: int, p: real, q: real)
    requires gain == power * poly / ONE && power <= ONE && poly <= ONE
    requires 0.0 <= p <= 1.0
    requires Within(power as real - ONE_REAL * p, 1.2) && Within(poly as real - ONE_REAL * q, 40300.0)
    ensures Within(gain as real - ONE_REAL * Times(p, q), Times(p, 40300.0) + 2.2)
  {
    hide Within, Times;
    var x, y := power as real, poly as real;
    var e, f := x - ONE_REAL * p, y - ONE_REAL * q;
    FloorReal(power, poly, gain, x, y);
    Scaled(p, f, 40300.0);
    Scaled(y, e, 1.2);
    ErrorAlgebra(x, y, p, q, e, f);
    LittleOf(y);
    Rounded(gain as real, Times(x, y), Times(p, q), Times(p, f), Times(y, e), Times(p, 40300.0), Times(y, 1.2));
  }

  lemma LittleOf(y: real)
    requires y <= ONE_REAL
    ensures Times(y, 1.2) <= 1.2 * ONE_REAL
  {
  }

  lemma FloorReal(power: nat, poly: nat, gain: int, x: real, y: real)
    requires gain == power * poly / ONE && x == power as real && y == poly as real
    ensures gain as real * ONE_REAL <= Times(x, y) < (gain as real + 1.0) * ONE_REAL
  {
    DivBounds(power * poly, ONE, gain);
    assert (power * poly) as real == x * y;
  }

  lemma ErrorAlgebra(x: real, y: real, p: real, q: real, e: real, f: real)
    requires e == x - ONE_REAL * p && f == y - ONE_REAL * q
    ensures Times(x, y) == ONE_REAL * Times(p, f) + ONE_REAL * (ONE_REAL * Times(p, q)) + Times(y, e)
  {
    assert x == ONE_REAL * p + e;
    assert x * y == ONE_REAL * (p * y) + e * y;
    assert p * y == ONE_REAL * (p * q) + p * f;
  }

  lemma Rounded(gain: real, xy: real, pq: real, pf: real, ye: real, most: real, little: real)
    requires gain * ONE_REAL <= xy < (gain + 1.0) * ONE_REAL
    requires xy == ONE_REAL * pf + ONE_REAL * (ONE_REAL * pq) + ye
    requires Within(pf, most) && Within(ye, little) && little <= 1.2 * ONE_REAL
    ensures Within(gain - ONE_REAL * pq, most + 2.2)
  {
  }

  lemma GainNear(c: real, n: nat, r: nat)
    requires Attenuation(c) && r < 5120
    ensures Within(GainAt(FractionAt(r), n) as real - ONE_REAL * Power(c, 5120 * n + r), 40300.0 * Power(0.1, n) + 2.2)
  {
    hide ExactHorner, Power, Attenuation, FractionAt, TenthPower;
    var poly := ExactHorner(FractionAt(r), TERMS);
    OneDecade(c, r);
    TenthNear(n);
    VolumePower(c, n, r);
    FractionRange(r);
    PolynomialRange(FractionAt(r), TERMS);
    TenthPowerBounds(n);
    PowerWithin(0.1, n);
    GainIsProduct(FractionAt(r), n);
    ProductNear(TenthPower(n), poly, GainAt(FractionAt(r), n), Power(0.1, n), Power(c, r));
  }

  lemma GainIsProduct(fraction: int, n: nat)
    ensures GainAt(fraction, n) == TenthPower(n) * ExactHorner(fraction, TERMS) / ONE
  {
    hide ExactHorner;
    assert TenthPower(0) == ONE;
  }

  /** The multiplier of a volume `d` units below 0 dB is twice the gain of its fraction. */
  lemma MultiplierIs(d: nat)
    requires d <= 120 * 256
    ensures Multiplier(0 - d, 8, 29) == 2 * GainAt(FractionAt(d % 5120), d / 5120)
  {
    hide ExactHorner, Gain, Exponent, TenthPower, Wrap32, Fraction, WholePart;
    if d == 0 {
      FinalShift(ONE);
      PolynomialAtZero();
    } else {
      GainOfVolume(d);
      ExponentInRange(0 - d);
      GainInRange(Exponent(0 - d, 8));
      Doubled(Gain(Exponent(0 - d, 8)));
      FractionParts(d / 5120, d % 5120);
      FractionParts(0, d % 5120);
      assert d == 5120 * (d / 5120) + d % 5120;
    }
  }

  /** `mul` is 2^29 times `power`, but for 81000 units in the first 20 dB, a tenth of that in the next,
      and so on, and 6 units; the volume is `d` units below 0 dB. */
  predicate Accurate(mul: u32, power: real, d: nat) {
    Within(mul as real - 536870912.0 * power, 81000.0 * Power(0.1, d / 5120) + 6.0)
  }

  /** How much a decibel is: where `c` is a 256th of a decibel, the multiplier of a volume `d` units
      below 0 dB is the `d`th power of `c`. */
  lemma MultiplierAccurate(c: real, d: nat)
    requires c > 0.0 && Power(c, 5120) == 0.1 && d <= 120 * 256
    ensures Accurate(Multiplier(0 - d, 8, 29), Power(c, d), d)
  {
    hide ExactHorner, Power, FractionAt, GainAt, Multiplier;
    var n, r := d / 5120, d % 5120;
    assert d == 5120 * n + r;
    MultiplierIs(d);
    GainNear(c, n, r);
    PowerWithin(0.1, n);
  }

  /** And 20 dB is a factor of ten, to 40 units. */
  lemma TwentyDecibels(v: int32)
    requires VolumeSum(v) && VolumeSum(v - 5120)
    ensures 0 <= Multiplier(v, 8, 29) - 10 * Multiplier(v - 5120, 8, 29) <= 40
  {
    hide ExactHorner, FractionAt, Multiplier;
    var d := 0 - v;
    var n, poly := d / 5120, ExactHorner(FractionAt(d % 5120), TERMS);
    assert (d + 5120) / 5120 == n + 1 && (d + 5120) % 5120 == d % 5120;
    MultiplierIs(d);
    MultiplierIs(d + 5120);
    assert 0 - (d + 5120) == v - 5120;
    FractionRange(d % 5120);
    PolynomialRange(FractionAt(d % 5120), TERMS);
    GainIsProduct(FractionAt(d % 5120), n);
    GainIsProduct(FractionAt(d % 5120), n + 1);
    TenthPowerBounds(n);
    TenTimes(TenthPower(n), TenthPower(n + 1), poly);
  }

  lemma TenTimes(power: nat, next: nat, poly: nat)
    requires next == power / 10 && poly <= ONE
    ensures 0 <= power * poly / ONE - 10 * (next * poly / ONE) <= 20
  {
    var rest := power % 10;
    assert power == 10 * next + rest;
    assert power * poly == 10 * (next * poly) + rest * poly;
    MulMono(rest, poly, 9, ONE);
    Tenfold(power * poly, next * poly, rest * poly);
  }

  lemma Tenfold(n: nat, m: nat, rest: nat)
    requires n == 10 * m + rest && rest <= 9 * ONE
    ensures 0 <= n / ONE - 10 * (m / ONE) <= 20
  {
  }

  /** The master volume and the channel's own both count: unmuted, the multiplier is 2^29 times the
      product of what they stand for, but for the error above; muted, it is 0. */
  lemma ChannelAccurate(c: real, volumes: seq<int>, mutes: seq<bool>, i: nat)
    requires c > 0.0 && Power(c, 5120) == 0.1
    requires i + 1 < |volumes| && i + 1 < |mutes|
    requires -60 * 256 <= volumes[0] <= 0 && -60 * 256 <= volumes[i + 1] <= 0
    ensures var master, channel := 0 - volumes[0], 0 - volumes[i + 1];
      if mutes[0] || mutes[i + 1] then ChannelMultiplier(volumes, mutes, i) == 0
      else Accurate(ChannelMultiplier(volumes, mutes, i), Times(Power(c, master), Power(c, channel)), master + channel)
  {
    hide Power, Multiplier, Accurate, Times;
    var master, channel := 0 - volumes[0], 0 - volumes[i + 1];
    MultiplierAccurate(c, master + channel);
    NextPower(c, master, channel);
    assert 0 - (master + channel) == volumes[0] + volumes[i + 1];
  }
}
