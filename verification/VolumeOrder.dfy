/** dbcalc.c: a greater volume never gives a smaller multiplier, although every step of the Horner
    loop rounds down. */
module VolumeOrder {
  import opened Words
  import opened VolumeGain

  const TERMS: nat := |COEFFICIENTS|

  /** The natural logarithm of ten with 28 fraction bits, the coefficient of the linear term. */
  const LN_TEN: int := 618095479

  /** What two neighbouring exponents are at most apart. */
  const STEP: int := 0x4_0000

  // ---------------------------------------------------------------- one rounding

  /** What the rounding down cuts off. */
  function Cut(x: int, v: int): (f: int)
    ensures 0 <= f < ONE && x * v == ONE * (x * v / ONE) + f
  {
    x * v % ONE
  }

  /** The exponent of the greatest volume with a gain below 8.0, about 18.06 dB. */
  const TOP: int := 242378336

  /** The partial sums there. */
  const TOPS: seq<int> :=
    [2407, 15951, 78990, 379373, 1688657, 6786729, 24405469, 77600997, 214857755, 508407924,
     1005236470, 1619266540, 2080179271, 2146691025]

  lemma TopsAre(n: nat)
    requires n < TERMS
    ensures ExactHorner(TOP, n + 1) == TOPS[n]
    ensures COEFFICIENTS[n] <= TOPS[n] < 0x8000_0000
  {
    hide ExactHorner;
    ExactHornerStep(TOP, 0);
    assert ExactHorner(TOP, 1) == 2407;
    ExactHornerStep(TOP, 1);
    assert ExactHorner(TOP, 2) == 15951;
    ExactHornerStep(TOP, 2);
    assert ExactHorner(TOP, 3) == 78990;
    ExactHornerStep(TOP, 3);
    assert ExactHorner(TOP, 4) == 379373;
    ExactHornerStep(TOP, 4);
    assert ExactHorner(TOP, 5) == 1688657;
    ExactHornerStep(TOP, 5);
    assert ExactHorner(TOP, 6) == 6786729;
    ExactHornerStep(TOP, 6);
    assert ExactHorner(TOP, 7) == 24405469;
    ExactHornerStep(TOP, 7);
    assert ExactHorner(TOP, 8) == 77600997;
    ExactHornerStep(TOP, 8);
    assert ExactHorner(TOP, 9) == 214857755;
    ExactHornerStep(TOP, 9);
    assert ExactHorner(TOP, 10) == 508407924;
    ExactHornerStep(TOP, 10);
    assert ExactHorner(TOP, 11) == 1005236470;
    ExactHornerStep(TOP, 11);
    assert ExactHorner(TOP, 12) == 1619266540;
    ExactHornerStep(TOP, 12);
    assert ExactHorner(TOP, 13) == 2080179271;
    ExactHornerStep(TOP, 13);
    assert ExactHorner(TOP, 14) == 2146691025;
  }

  /** Above 0 dB all partial sums grow with the exponent. */
  lemma {:induction false} PositiveOrder(x: int, y: int, n: nat)
    requires 0 <= x <= y && n <= TERMS
    ensures 0 <= ExactHorner(x, n) <= ExactHorner(y, n)
  {
    if n > 0 {
      PositiveOrder(x, y, n - 1);
      MulMono(x, ExactHorner(x, n - 1), y, ExactHorner(y, n - 1));
      FloorOrder(x * ExactHorner(x, n - 1), y * ExactHorner(y, n - 1));
    }
  }

  lemma FloorOrder(a: nat, b: nat)
    requires a <= b
    ensures 0 <= a / ONE <= b / ONE
  {
  }

  /** All partial sums up to that volume lie between 0 and those at the top. */
  lemma SumRange(x: int, n: nat)
    requires -ONE < x <= TOP && n <= TERMS
    ensures 0 <= ExactHorner(x, n) && (n > 0 ==> ExactHorner(x, n) <= TOPS[n - 1])
  {
    hide ExactHorner;
    if n == 0 {
      ExactHornerStep(x, 0);
    } else {
      TopsAre(n - 1);
      if x <= 0 {
        PolynomialRange(x, n);
        PolynomialRange(x, n - 1);
        ExactHornerStep(x, n - 1);
        NotPositive(x, ExactHorner(x, n - 1));
      } else {
        PositiveOrder(x, TOP, n);
      }
    }
  }

  lemma PartialSum(x: int, n: nat)
    requires -ONE < x <= TOP && n < TERMS
    ensures 0 <= ExactHorner(x, n) && (n > 0 ==> ExactHorner(x, n) <= TOPS[n - 1])
    ensures x * ExactHorner(x, n) == ONE * (ExactHorner(x, n + 1) - COEFFICIENTS[n]) + Cut(x, ExactHorner(x, n))
  {
    hide ExactHorner;
    SumRange(x, n);
    ExactHornerStep(x, n);
  }

  lemma NotPositive(x: int, v: nat)
    requires x <= 0
    ensures x * v / ONE <= 0
  {
    assert (0 - x) * v >= 0;
  }

  lemma ScaledDown(m: int, q: int, bound: nat)
    requires -2 * ONE <= m <= 2 * ONE && 0 - bound <= q <= bound
    ensures 0 - 2 * ONE * bound <= m * q <= 2 * ONE * bound
  {
    MulMono(Size(m), Size(q), 2 * ONE, bound);
    SizeOfProduct(m, q);
  }

  lemma SizeOfProduct(m: int, q: int)
    ensures Size(m * q) == Size(m) * Size(q)
  {
    assert (0 - m) * q == 0 - m * q && m * (0 - q) == 0 - m * q && (0 - m) * (0 - q) == m * q;
    if (m >= 0) == (q >= 0) {
      MulMono(0, 0, Size(m), Size(q));
    }
  }

  // ---------------------------------------------------------------- two exponents at a time

  /** By how much the sums at two exponents differ, and what they come to together. */
  function Apart(x: int, y: int, n: nat): int
    requires n <= TERMS
  {
    ExactHorner(y, n) - ExactHorner(x, n)
  }

  function Both(x: int, y: int, n: nat): int
    requires n <= TERMS
  {
    ExactHorner(y, n) + ExactHorner(x, n)
  }

  /** A bound on the difference. */
  function Spread(n: nat): nat
    requires n <= TERMS
  {
    if n <= 1 then 0 else Spread(n - 1) + STEP * TOPS[n - 2] / ONE + 2
  }

  predicate Neighbours(x: int, y: int) {
    -ONE < x < y <= TOP && y - x <= STEP
  }

  /** One step of the loop at two exponents: the next difference and the next sum from the last
      ones, but for the difference `e` and the sum `f` of what is cut off. */
  lemma TwoSteps(x: int, y: int, n: nat) returns (e: int, f: int)
    requires Neighbours(x, y) && n < TERMS
    ensures -ONE < e < ONE && 0 <= f < 2 * ONE
    ensures 2 * ONE * Apart(x, y, n + 1) == (y - x) * Both(x, y, n) + (x + y) * Apart(x, y, n) + 2 * e
    ensures 2 * ONE * (Both(x, y, n + 1) - 2 * COEFFICIENTS[n])
            == (x + y) * Both(x, y, n) + (y - x) * Apart(x, y, n) - 2 * f
  {
    hide ExactHorner;
    PartialSum(x, n);
    PartialSum(y, n);
    var u, v := ExactHorner(x, n), ExactHorner(y, n);
    e, f := Cut(x, u) - Cut(y, v), Cut(x, u) + Cut(y, v);
    Products(x, y, u, v);
  }

  lemma Products(x: int, y: int, u: int, v: int)
    ensures 2 * (y * v - x * u) == (y - x) * (v + u) + (x + y) * (v - u)
    ensures 2 * (y * v + x * u) == (x + y) * (v + u) + (y - x) * (v - u)
  {
  }

  lemma ApartStep(x: int, y: int, n: nat)
    requires -ONE < x <= TOP && -ONE < y <= TOP && n < TERMS
    ensures var u, v := ExactHorner(x, n), ExactHorner(y, n);
      ONE * Apart(x, y, n + 1) == (y - x) * v + x * (v - u) - (Cut(y, v) - Cut(x, u))
  {
    hide ExactHorner;
    PartialSum(x, n);
    PartialSum(y, n);
    var u, v := ExactHorner(x, n), ExactHorner(y, n);
    assert y * v - x * u == (y - x) * v + x * (v - u);
  }

  lemma {:induction false} SpreadBounds(x: int, y: int, n: nat)
    requires Neighbours(x, y) && n <= TERMS
    ensures 0 - Spread(n) <= Apart(x, y, n) <= Spread(n)
  {
    hide ExactHorner, Cut;
    if n <= 1 {
      SpreadStart(x, y);
    } else {
      SpreadBounds(x, y, n - 1);
      PartialSum(y, n - 1);
      ApartStep(x, y, n - 1);
      var u, v := ExactHorner(x, n - 1), ExactHorner(y, n - 1);
      MulMono(y - x, v, STEP, TOPS[n - 2]);
      ScaledOnce(x, v - u, Spread(n - 1));
      SpreadStep(STEP * TOPS[n - 2], (y - x) * v, x * (v - u), Cut(x, u) - Cut(y, v), Apart(x, y, n),
                 Spread(n - 1));
    }
  }

  lemma SpreadStart(x: int, y: int)
    ensures Apart(x, y, 0) == 0 && Apart(x, y, 1) == 0
  {
    hide ExactHorner;
    ExactHornerStep(x, 0);
    ExactHornerStep(y, 0);
    assert x * 0 / ONE == 0 && y * 0 / ONE == 0;
  }

  lemma ScaledOnce(x: int, q: int, bound: nat)
    requires -ONE <= x <= ONE && 0 - bound <= q <= bound
    ensures 0 - ONE * bound <= x * q <= ONE * bound
  {
    ScaledDown(2 * x, q, bound);
    assert 2 * x * q == 2 * (x * q);
  }

  lemma SpreadStep(most: nat, a: int, b: int, e: int, d: int, spread: nat)
    requires 0 <= a <= most && 0 - ONE * spread <= b <= ONE * spread && -ONE < e < ONE && ONE * d == a + b + e
    ensures 0 - (spread + most / ONE + 2) <= d <= spread + most / ONE + 2
  {
  }

  // ---------------------------------------------------------------- the difference equation

  /** By how much two neighbouring coefficients fail to be those of an exponential. */
  function Mismatch(n: nat): int
    requires 1 <= n < TERMS
  {
    LN_TEN * COEFFICIENTS[n] - (TERMS - n) * ONE * COEFFICIENTS[n - 1]
  }

  /** For the tail sums of an exponential, the exponent times the slope of one is a multiple of the
      next one less a multiple of itself. Taken in the middle between two exponents, what is left
      over here is due to rounding, to the mismatch of the coefficients and to the third order of
      the step. */
  function Residue(x: int, y: int, n: nat): int
    requires n < TERMS
  {
    ONE * ((x + y) * Apart(x, y, n))
    - (LN_TEN * ((y - x) * Both(x, y, n + 1)) - ONE * ((TERMS - n) * ((y - x) * Both(x, y, n))))
  }

  lemma Distribute(m: int, s: int, b: int, d: int, e: int)
    ensures m * (s * b + m * d + 2 * e) == m * (s * b) + m * (m * d) + 2 * (m * e)
  {
  }

  lemma Exchange(m: int, s: int, b: int, c: int, d: int, f: int, next: int)
    requires 2 * ONE * (next - 2 * c) == m * b + s * d - 2 * f
    ensures m * (s * b) == 2 * ONE * (s * next) - 4 * ONE * (s * c) - s * (s * d) + 2 * (s * f)
  {
    assert m * (s * b) == s * (m * b);
    assert s * (2 * ONE * (next - 2 * c)) == 2 * ONE * (s * next) - 4 * ONE * (s * c);
    assert s * (m * b + s * d - 2 * f) == s * (m * b) + s * (s * d) - 2 * (s * f);
  }

  lemma TimesResidue(m: int, a: int, b: int, k: int, c: int)
    ensures m * (ONE * a - (LN_TEN * b - ONE * (k * c))) == ONE * (m * a) - LN_TEN * (m * b) + ONE * (k * (m * c))
  {
    assert m * (k * c) == k * (m * c);
  }

  lemma TimesCount(k: int, a: int, b: int, c: int, f: int)
    ensures (k + 1) * (2 * ONE * a - 4 * ONE * b - c + 2 * f)
            == 2 * ONE * (k * a) - 4 * ONE * (k * b) - k * c + 2 * (k * f) + 2 * ONE * a - 4 * ONE * b - c + 2 * f
  {
  }

  /** The algebra of one step, with the values of the sums as plain numbers. */
  lemma ResidueAlgebra(m: int, s: int, k: int, d0: int, d1: int, b0: int, b1: int, b2: int, e: int, f1: int, f2: int,
                       c1: int, c2: int, r0: int, r1: int)
    requires 2 * ONE * d1 == s * b0 + m * d0 + 2 * e
    requires 2 * ONE * (b1 - 2 * c1) == m * b0 + s * d0 - 2 * f1
    requires 2 * ONE * (b2 - 2 * c2) == m * b1 + s * d1 - 2 * f2
    requires r0 == ONE * (m * d0) - (LN_TEN * (s * b1) - ONE * ((k + 1) * (s * b0)))
    requires r1 == ONE * (m * d1) - (LN_TEN * (s * b2) - ONE * (k * (s * b1)))
    ensures 2 * ONE * r1 ==
            m * r0 + 2 * ONE * (m * e) - 4 * ONE * (LN_TEN * (s * c2) - ONE * (k * (s * c1)))
            - LN_TEN * (s * (s * d1)) + ONE * (k * (s * (s * d0))) + 2 * LN_TEN * (s * f2) - 2 * ONE * (k * (s * f1))
  {
    Distribute(m, s, b0, d0, e);
    Exchange(m, s, b0, c1, d0, f1, b1);
    Exchange(m, s, b1, c2, d1, f2, b2);
    TimesResidue(m, m * d0, s * b1, k + 1, s * b0);
    TimesCount(k, s * b1, s * c1, s * (s * d0), s * f1);
    TimesTwo(m, d1);
    Combine(m * (2 * ONE * d1), m * d1, m * (s * b0), m * (m * d0), m * e, m * (s * b1), m * r0, r1,
            (k + 1) * (m * (s * b0)), k * (s * b1), k * (s * c1), k * (s * (s * d0)), k * (s * f1),
            s * b1, s * b2, s * c1, s * c2, s * (s * d0), s * (s * d1), s * f1, s * f2);
  }

  lemma TimesTwo(m: int, d: int)
    ensures m * (2 * ONE * d) == 2 * ONE * (m * d)
  {
  }

  lemma Combine(twice: int, md: int, msb: int, mmd: int, me: int, msc: int, mr: int, r: int,
                kmsb: int, ksb: int, ksc: int, kssd: int, ksf: int,
                sb1: int, sb2: int, sc1: int, sc2: int, ssd0: int, ssd1: int, sf1: int, sf2: int)
    requires twice == 2 * ONE * md && twice == msb + mmd + 2 * me
    requires msb == 2 * ONE * sb1 - 4 * ONE * sc1 - ssd0 + 2 * sf1
    requires msc == 2 * ONE * sb2 - 4 * ONE * sc2 - ssd1 + 2 * sf2
    requires mr == ONE * mmd - LN_TEN * msc + ONE * kmsb
    requires kmsb == 2 * ONE * ksb - 4 * ONE * ksc - kssd + 2 * ksf + 2 * ONE * sb1 - 4 * ONE * sc1 - ssd0 + 2 * sf1
    requires r == ONE * md - (LN_TEN * sb2 - ONE * ksb)
    ensures 2 * ONE * r == mr + 2 * ONE * me - 4 * ONE * (LN_TEN * sc2 - ONE * ksc)
                           - LN_TEN * ssd1 + ONE * kssd + 2 * LN_TEN * sf2 - 2 * ONE * ksf
  {
  }

  function Size(q: int): nat {
    if q >= 0 then q else 0 - q
  }

  /** A bound on the residue, whatever the two exponents. */
  function Leftover(n: nat): int
    requires n < TERMS
  {
    if n == 0 then 2 * STEP * LN_TEN * COEFFICIENTS[0]
    else
      Leftover(n - 1) + 2 * (ONE * ONE) + 2 * (STEP * Size(Mismatch(n)))
      + 2 * (STEP * (STEP * Spread(n))) + (TERMS - n) * (STEP * (STEP * Spread(n - 1)))
      + 2 * (LN_TEN * STEP) + 2 * ((TERMS - n) * (STEP * ONE))
  }

  lemma TimesMismatch(s: int, n: nat)
    requires 1 <= n < TERMS
    ensures LN_TEN * (s * COEFFICIENTS[n]) - ONE * ((TERMS - n) * (s * COEFFICIENTS[n - 1])) == s * Mismatch(n)
  {
    var k, c1, c2 := TERMS - n, COEFFICIENTS[n - 1], COEFFICIENTS[n];
    assert s * (k * ONE * c1) == ONE * (k * (s * c1));
    assert s * (LN_TEN * c2) == LN_TEN * (s * c2);
  }

  lemma ResidueStep(x: int, y: int, n: nat) returns (e: int, f1: int, f2: int)
    requires Neighbours(x, y) && 1 <= n < TERMS
    ensures -ONE < e < ONE && 0 <= f1 < 2 * ONE && 0 <= f2 < 2 * ONE
    ensures var m, s, k := x + y, y - x, TERMS - n;
      2 * ONE * Residue(x, y, n) ==
      m * Residue(x, y, n - 1) + 2 * ONE * (m * e) - 4 * ONE * (s * Mismatch(n))
      - LN_TEN * (s * (s * Apart(x, y, n))) + ONE * (k * (s * (s * Apart(x, y, n - 1))))
      + 2 * LN_TEN * (s * f2) - 2 * ONE * (k * (s * f1))
  {
    hide ExactHorner, Apart, Both, Mismatch;
    var next: int;
    e, f1 := TwoSteps(x, y, n - 1);
    next, f2 := TwoSteps(x, y, n);
    TimesMismatch(y - x, n);
    ResidueAlgebra(x + y, y - x, TERMS - n, Apart(x, y, n - 1), Apart(x, y, n), Both(x, y, n - 1), Both(x, y, n),
                   Both(x, y, n + 1), e, f1, f2, COEFFICIENTS[n - 1], COEFFICIENTS[n],
                   Residue(x, y, n - 1), Residue(x, y, n));
  }

  lemma ResidueStart(x: int, y: int)
    requires Neighbours(x, y)
    ensures Residue(x, y, 0) == 0 - (y - x) * (2 * (LN_TEN * COEFFICIENTS[0]))
  {
    hide ExactHorner;
    ExactHornerStep(x, 0);
    ExactHornerStep(y, 0);
    assert x * 0 / ONE == 0 && y * 0 / ONE == 0;
    assert Both(x, y, 1) == 2 * COEFFICIENTS[0] && Both(x, y, 0) == 0 && Apart(x, y, 0) == 0;
  }

  lemma {:induction false} ResidueBounds(x: int, y: int, n: nat)
    requires Neighbours(x, y) && n < TERMS
    ensures Size(Residue(x, y, n)) <= Leftover(n)
  {
    hide Residue, Spread, Apart, Mismatch;
    var s, m := y - x, x + y;
    if n == 0 {
      ResidueStart(x, y);
      StepTimes(s, 2 * (LN_TEN * COEFFICIENTS[0]), 2 * (LN_TEN * COEFFICIENTS[0]));
    } else {
      ResidueBounds(x, y, n - 1);
      SpreadBounds(x, y, n - 1);
      SpreadBounds(x, y, n);
      var e, f1, f2 := ResidueStep(x, y, n);
      var k, d0, d1, left := TERMS - n, Apart(x, y, n - 1), Apart(x, y, n), Leftover(n - 1);
      StepTimes(s, Mismatch(n), Size(Mismatch(n)));
      StepTimes(s, f1, 2 * ONE);
      StepTimes(s, f2, 2 * ONE);
      StepTimes(s, d0, Spread(n - 1));
      StepTimes(s, d1, Spread(n));
      StepTimes(s, s * d0, STEP * Spread(n - 1));
      StepTimes(s, s * d1, STEP * Spread(n));
      ScaledDown(m, Residue(x, y, n - 1), left);
      ScaledDown(m, e, ONE);
      Total(k, Residue(x, y, n), m * Residue(x, y, n - 1), m * e, s * Mismatch(n), s * (s * d1), s * (s * d0), s * f2,
            s * f1, left, STEP * Size(Mismatch(n)), STEP * (STEP * Spread(n)), STEP * (STEP * Spread(n - 1)));
    }
  }

  lemma StepTimes(s: nat, q: int, bound: nat)
    requires s <= STEP && 0 - bound <= q <= bound
    ensures 0 - STEP * bound <= s * q <= STEP * bound && (q >= 0 ==> s * q >= 0)
  {
    if q >= 0 {
      MulMono(s, q, STEP, bound);
    } else {
      MulMono(s, 0 - q, STEP, bound);
      assert s * (0 - q) == 0 - s * q;
    }
  }

  lemma Total(k: nat, r: int, a: int, b: int, g: int, d1: int, d0: int, f2: int, f1: int,
              left: nat, miss: nat, most1: nat, most0: nat)
    requires 2 * ONE * r == a + 2 * ONE * b - 4 * ONE * g - LN_TEN * d1 + ONE * (k * d0)
                            + 2 * LN_TEN * f2 - 2 * ONE * (k * f1)
    requires 0 - 2 * ONE * left <= a <= 2 * ONE * left && 0 - 2 * ONE * ONE <= b <= 2 * ONE * ONE
    requires 0 - miss <= g <= miss && 0 - most1 <= d1 <= most1 && 0 - most0 <= d0 <= most0
    requires 0 <= f1 <= 2 * (STEP * ONE) && 0 <= f2 <= 2 * (STEP * ONE)
    ensures Size(r) <= left + 2 * (ONE * ONE) + 2 * miss + 2 * most1 + k * most0
                       + 2 * (LN_TEN * STEP) + 2 * (k * (STEP * ONE))
  {
    CountTimes(k, d0, most0);
    CountTimes(k, f1, 2 * (STEP * ONE));
    MulMono(0, 0, k, f1);
    assert k * (2 * (STEP * ONE)) == 2 * (k * (STEP * ONE));
    Halves(r, a, b, g, d1, k * d0, f2, k * f1, left, miss, most1, k * most0, k * (STEP * ONE));
  }

  lemma CountTimes(k: nat, q: int, bound: nat)
    requires 0 - bound <= q <= bound
    ensures 0 - k * bound <= k * q <= k * bound
  {
    assert k * (bound - q) >= 0;
    assert k * (bound + q) >= 0;
  }

  lemma Halves(r: int, a: int, b: int, g: int, d1: int, kd0: int, f2: int, kf1: int,
               left: nat, miss: nat, most1: nat, kmost0: nat, kf: nat)
    requires 2 * ONE * r == a + 2 * ONE * b - 4 * ONE * g - LN_TEN * d1 + ONE * kd0 + 2 * LN_TEN * f2 - 2 * ONE * kf1
    requires 0 - 2 * ONE * left <= a <= 2 * ONE * left && 0 - 2 * ONE * ONE <= b <= 2 * ONE * ONE
    requires 0 - miss <= g <= miss && 0 - most1 <= d1 <= most1 && 0 - kmost0 <= kd0 <= kmost0
    requires 0 <= kf1 <= 2 * kf && 0 <= f2 <= 2 * (STEP * ONE)
    ensures Size(r) <= left + 2 * (ONE * ONE) + 2 * miss + 2 * most1 + kmost0 + 2 * (LN_TEN * STEP) + 2 * kf
  {
  }

  // ---------------------------------------------------------------- the numbers

  lemma SpreadNumbers()
    ensures Spread(0) == 0
    ensures Spread(1) == 0
    ensures Spread(2) == 4
    ensures Spread(3) == 21
    ensures Spread(4) == 100
    ensures Spread(5) == 472
    ensures Spread(6) == 2123
    ensures Spread(7) == 8752
    ensures Spread(8) == 32587
    ensures Spread(9) == 108371
    ensures Spread(10) == 318195
    ensures Spread(11) == 814689
    ensures Spread(12) == 1796367
    ensures Spread(13) == 3377683
  {
    assert Spread(2) == 4;
    assert Spread(3) == 21;
    assert Spread(4) == 100;
    assert Spread(5) == 472;
    assert Spread(6) == 2123;
    assert Spread(7) == 8752;
    assert Spread(8) == 32587;
    assert Spread(9) == 108371;
    assert Spread(10) == 318195;
    assert Spread(11) == 814689;
    assert Spread(12) == 1796367;
    assert Spread(13) == 3377683;
  }

  lemma MismatchSmall(n: nat)
    requires 1 <= n < TERMS
    ensures Size(Mismatch(n)) <= MISMATCHES[n - 1] * ONE
  {
  }

  /** Bounds on the mismatch, in units of 2^28. */
  const MISMATCHES: seq<nat> := [435, 16617, 1155, 19023, 1193, 10358, 553, 2719, 118, 299, 12, 10, 0]

  lemma LeftoverStep(n: nat)
    requires 1 <= n < TERMS
    ensures Leftover(n) <= Leftover(n - 1) + 2 * (ONE * ONE) + 2 * (STEP * (MISMATCHES[n - 1] * ONE))
                           + 2 * (STEP * (STEP * Spread(n))) + (TERMS - n) * (STEP * (STEP * Spread(n - 1)))
                           + 2 * (LN_TEN * STEP) + 2 * ((TERMS - n) * (STEP * ONE))
  {
    hide Mismatch, Size, Spread;
    MismatchSmall(n);
  }

  lemma LeftoverStart()
    ensures Leftover(0) <= 11 * (ONE * ONE)
  {
  }

  /** All that is left over comes to less than 80 units of the last place. */
  lemma Numbers()
    ensures Leftover(13) + 2 * (ONE * ONE) <= 159 * (ONE * ONE)
  {
    hide Spread, Leftover;
    SpreadNumbers();
    LeftoverStart();
    LeftoverStep(1);
    LeftoverStep(2);
    LeftoverStep(3);
    LeftoverStep(4);
    LeftoverStep(5);
    LeftoverStep(6);
    LeftoverStep(7);
    LeftoverStep(8);
    LeftoverStep(9);
    LeftoverStep(10);
    LeftoverStep(11);
    LeftoverStep(12);
    LeftoverStep(13);
  }

  /** The whole polynomial: the difference is the slope of an exponential at the mean of the two
      values, times the step, but for 80 units of the last place. */
  lemma SlopeOfPolynomial(x: int, y: int)
    requires Neighbours(x, y)
    ensures var u, v := ExactHorner(x, TERMS), ExactHorner(y, TERMS);
      Size(2 * (ONE * ONE) * (v - u) - LN_TEN * ((y - x) * (v + u))) <= 159 * (ONE * ONE)
  {
    hide ExactHorner, Spread, Leftover, Mismatch, Apart, Both, Residue;
    var e, f := TwoSteps(x, y, 13);
    ResidueBounds(x, y, 13);
    Numbers();
    ResidueOfLast(x, y);
    BothAndApart(x, y);
    LastStep(y - x, Both(x, y, 13), (x + y) * Apart(x, y, 13), Both(x, y, TERMS), e, Apart(x, y, TERMS),
             Residue(x, y, 13), Leftover(13));
  }

  lemma BothAndApart(x: int, y: int)
    ensures Apart(x, y, TERMS) == ExactHorner(y, TERMS) - ExactHorner(x, TERMS)
    ensures Both(x, y, TERMS) == ExactHorner(y, TERMS) + ExactHorner(x, TERMS)
  {
    hide ExactHorner;
  }

  lemma ResidueOfLast(x: int, y: int)
    ensures Residue(x, y, 13) == ONE * ((x + y) * Apart(x, y, 13))
                                 - (LN_TEN * ((y - x) * Both(x, y, TERMS)) - ONE * ((y - x) * Both(x, y, 13)))
  {
    hide ExactHorner, Apart, Both;
  }

  lemma LastStep(s: int, b: int, md: int, next: int, e: int, last: int, r: int, left: int)
    requires 2 * ONE * last == s * b + md + 2 * e && -ONE < e < ONE
    requires r == ONE * md - (LN_TEN * (s * next) - ONE * (s * b)) && Size(r) <= left
    ensures Size(2 * (ONE * ONE) * last - LN_TEN * (s * next)) <= left + 2 * (ONE * ONE)
  {
    assert ONE * (2 * ONE * last) == r + LN_TEN * (s * next) + 2 * ONE * e;
  }

  // ---------------------------------------------------------------- the order of the polynomials

  /** Between two exponents that are far enough apart for the rounding, the polynomial grows. */
  lemma PolynomialGrows(x: int, y: int)
    requires Neighbours(x, y) && y <= 0 && y - x >= 52000
    ensures ExactHorner(x, TERMS) < ExactHorner(y, TERMS)
  {
    hide ExactHorner;
    var u, v := ExactHorner(x, TERMS), ExactHorner(y, TERMS);
    SlopeOfPolynomial(x, y);
    PolynomialRange(x, TERMS);
    PolynomialRange(y, TERMS);
    MulMono(52000, 0x20_0000, y - x, v + u);
  }

  // ---------------------------------------------------------------- the order of the multipliers

  /** The exponent of a volume below 0 dB. */
  lemma ExponentOf(d: nat)
    requires d <= 120 * 256
    ensures Exponent(0 - d, 8) == 0 - 16 * (d * 32768 / 10)
  {
    hide ToInt32;
    ExponentInRange(0 - d);
    KeptInt32((0 - d) * 32768);
    KeptInt32(TruncDiv((0 - d) * 32768, 10) * 16);
    assert Pow2(5) == 32 && Pow2(10) == 1024;
    assert Pow2(15) == 32768;
    assert TruncDiv((0 - d) * 32768, 10) == 0 - d * 32768 / 10;
  }

  /** Its integer part changes at every 20 dB. */
  lemma PartsOf(d: nat)
    requires d <= 120 * 256
    ensures WholePart(0 - 16 * (d * 32768 / 10)) == d / 5120
    ensures Fraction(0 - 16 * (d * 32768 / 10)) == FractionAt(d)
  {
    var k, r := d / 5120, d % 5120;
    assert d == 5120 * k + r;
    FractionParts(k, r);
    var x := 16 * (d * 32768 / 10);
    assert x == k * ONE + 16 * (r * 32768 / 10);
    DivUnique(x, ONE, k);
  }

  lemma PolynomialAtZero()
    ensures ExactHorner(0, TERMS) == ONE
  {
    hide ExactHorner;
    ExactHornerStep(0, 13);
    assert 0 * ExactHorner(0, 13) / ONE == 0;
  }

  /** Just above an integer exponent the fraction is just above -1.0, and the polynomial above a
      tenth. */
  lemma PolynomialAtTenth()
    ensures ExactHorner(52432 - ONE, TERMS) == 26855622
  {
    hide ExactHorner;
    var x := 52432 - ONE;
    ExactHornerStep(x, 0);
    assert ExactHorner(x, 1) == 2407;
    ExactHornerStep(x, 1);
    assert ExactHorner(x, 2) == 11371;
    ExactHornerStep(x, 2);
    assert ExactHorner(x, 3) == 53219;
    ExactHornerStep(x, 3);
    assert ExactHorner(x, 4) == 254842;
    ExactHornerStep(x, 4);
    assert ExactHorner(x, 5) == 1091317;
    ExactHornerStep(x, 5);
    assert ExactHorner(x, 6) == 4170887;
    ExactHornerStep(x, 6);
    assert ExactHorner(x, 7) == 14107458;
    ExactHornerStep(x, 7);
    assert ExactHorner(x, 8) == 41459873;
    ExactHornerStep(x, 8);
    assert ExactHorner(x, 9) == 103337738;
    ExactHornerStep(x, 9);
    assert ExactHorner(x, 10) == 211088930;
    ExactHornerStep(x, 10);
    assert ExactHorner(x, 11) == 335132175;
    ExactHornerStep(x, 11);
    assert ExactHorner(x, 12) == 376541997;
    ExactHornerStep(x, 12);
    assert ExactHorner(x, 13) == 241627029;
    ExactHornerStep(x, 13);
  }

  lemma Powers(n: nat)
    requires 1 <= n <= 6
    ensures TenthPower(n) > 0
  {
    assert TenthPower(6) == 268;
  }

  lemma GainOf(x: int32)
    requires x < 0 && -ONE < Fraction(x) <= 0 && 0 <= WholePart(x) <= 6
    ensures var poly, n := ExactHorner(Fraction(x), TERMS), WholePart(x);
      0 <= poly <= ONE && Gain(x) == if n == 0 then poly else TenthPower(n) * poly / ONE
  {
    hide ExactHorner, Horner, Fraction, WholePart, TenthPower, ToInt32;
    HornerExact(Fraction(x), TERMS);
    PolynomialRange(Fraction(x), TERMS);
    TenthPowerBounds(WholePart(x));
    var poly, power := ExactHorner(Fraction(x), TERMS), TenthPower(WholePart(x));
    ScaledBelow(power, poly);
    KeptInt32(power * poly / ONE);
    if WholePart(x) > 0 {
      Powers(WholePart(x));
    }
  }

  lemma ScaledOrder(power: nat, a: int, b: int)
    requires a <= b
    ensures power * a / ONE <= power * b / ONE
  {
    assert power * (b - a) >= 0;
  }

  /** The fraction of the exponent of a volume `d` / 256 dB below 0 dB. */
  function FractionAt(d: nat): int {
    d / 5120 * ONE - 16 * (d * 32768 / 10)
  }

  function GainAt(fraction: int, n: nat): int {
    if n == 0 then ExactHorner(fraction, TERMS) else TenthPower(n) * ExactHorner(fraction, TERMS) / ONE
  }

  lemma GainOfVolume(d: nat)
    requires 1 <= d <= 120 * 256
    ensures Gain(Exponent(0 - d, 8)) == GainAt(FractionAt(d), d / 5120)
  {
    hide ExactHorner, Gain, Exponent, Fraction, FractionAt, WholePart, TenthPower;
    ExponentOf(d);
    PartsOf(d);
    ExponentInRange(0 - d);
    GainOf(Exponent(0 - d, 8));
  }

  lemma FractionParts(k: nat, r: nat)
    requires r < 5120
    ensures (5120 * k + r) / 5120 == k && (5120 * k + r) % 5120 == r
    ensures FractionAt(5120 * k + r) == 0 - 16 * (r * 32768 / 10)
  {
    ModUnique(5120 * k + r, 5120, k, r);
    DivUnique(5120 * k + r, 5120, k);
    var q := r * 32768 / 10;
    DivUnique((5120 * k + r) * 32768, 10, 0x100_0000 * k + q);
  }

  lemma StepsApart(d: nat)
    requires d >= 1
    ensures d % 5120 != 0 ==> (d - 1) / 5120 == d / 5120 && 52000 <= FractionAt(d - 1) - FractionAt(d) <= STEP
    ensures d % 5120 == 0 ==> (d - 1) / 5120 == d / 5120 - 1 && FractionAt(d) == 0 && FractionAt(d - 1) == 52432 - ONE
  {
    hide FractionAt;
    var k, r := d / 5120, d % 5120;
    assert d == 5120 * k + r;
    FractionParts(k, r);
    if r != 0 {
      FractionParts(k, r - 1);
    } else {
      FractionParts(k - 1, 5119);
    }
  }

  lemma FractionRange(d: nat)
    ensures -ONE < FractionAt(d) <= 0
  {
    FractionParts(d / 5120, d % 5120);
  }

  lemma GainAtOrder(x: int, y: int, n: nat)
    requires ExactHorner(x, TERMS) <= ExactHorner(y, TERMS)
    ensures GainAt(x, n) <= GainAt(y, n)
  {
    hide ExactHorner, TenthPower;
    TenthPowerBounds(n);
    ScaledOrder(TenthPower(n), ExactHorner(x, TERMS), ExactHorner(y, TERMS));
  }

  lemma GainAtTenth(n: nat)
    requires n >= 1
    ensures GainAt(0, n) <= GainAt(52432 - ONE, n - 1)
  {
    hide ExactHorner;
    PolynomialAtZero();
    PolynomialAtTenth();
    AcrossTenth(n);
  }

  /** The gain grows from one volume to the next, within a decade and from one to the other. */
  lemma GainGrows(d: nat)
    requires 2 <= d <= 120 * 256
    ensures Gain(Exponent(0 - d, 8)) <= Gain(Exponent(0 - (d - 1), 8))
  {
    hide ExactHorner, Gain, Exponent, FractionAt, GainAt;
    GainOfVolume(d);
    GainOfVolume(d - 1);
    StepsApart(d);
    FractionRange(d);
    FractionRange(d - 1);
    if d % 5120 != 0 {
      PolynomialGrows(FractionAt(d), FractionAt(d - 1));
      GainAtOrder(FractionAt(d), FractionAt(d - 1), d / 5120);
    } else {
      GainAtTenth(d / 5120);
    }
  }

  lemma AcrossTenth(n: nat)
    requires n >= 1
    ensures TenthPower(n) * ONE / ONE == TenthPower(n)
    ensures TenthPower(n) <= TenthPower(n - 1) * 26855622 / ONE && TenthPower(n) <= ONE / 10
  {
    TenthPowerBounds(n - 1);
  }

  lemma FinalOrder(a: int, b: int)
    requires 0 <= a <= b <= ONE
    ensures Rescaled(a, 29) <= Rescaled(b, 29)
  {
    hide Wrap32;
    Doubled(a);
    Doubled(b);
  }

  lemma Doubled(a: int)
    requires 0 <= a <= ONE
    ensures Rescaled(a, 29) == 2 * a
  {
    hide Wrap32;
    assert Pow2(0) == 1;
    assert Pow2(1) == 2;
    KeptWord32(a);
    KeptWord32(a * 2);
  }

  lemma MultiplierGrows(d: nat)
    requires 1 <= d <= 120 * 256
    ensures Multiplier(0 - d, 8, 29) <= Multiplier(1 - d, 8, 29)
  {
    hide Gain, Exponent, Rescaled, Fraction, WholePart, Pow2;
    ExponentInRange(0 - d);
    if d == 1 {
      FinalShift(ONE);
      MultiplierAtMostOne(0 - d);
    } else {
      ExponentInRange(1 - d);
      GainInRange(Exponent(0 - d, 8));
      GainInRange(Exponent(1 - d, 8));
      assert 1 - d == 0 - (d - 1);
      GainGrows(d);
      FinalOrder(Gain(Exponent(0 - d, 8)), Gain(Exponent(1 - d, 8)));
    }
  }

  /** Of any two sums of volumes the greater has the greater multiplier, or the same. */
  lemma {:induction false} MultiplierOrder(a: int32, b: int32)
    requires VolumeSum(a) && VolumeSum(b) && a <= b
    ensures Multiplier(a, 8, 29) <= Multiplier(b, 8, 29)
    decreases b - a
  {
    hide Multiplier;
    if a < b {
      MultiplierGrows(0 - a);
      MultiplierOrder(a + 1, b);
    }
  }
}
