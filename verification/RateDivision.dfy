/** div.c: quotients of software floating-point numbers, and their fixed-point form. */
module RateDivision {
  import opened Words

  // ---------------------------------------------------------------- powers of two

  /** 2 to a possibly negative power. */
  function Exp2(e: int): (p: real)
    ensures p > 0.0
    decreases if e < 0 then -e else e
  {
    if e == 0 then 1.0 else if e > 0 then 2.0 * Exp2(e - 1) else Exp2(e + 1) / 2.0
  }

  lemma Exp2Zero()
    ensures Exp2(0) == 1.0
  {
  }

  lemma Exp2Next(e: int)
    ensures Exp2(e + 1) == 2.0 * Exp2(e)
  {
  }

  lemma RealProduct(a: int, b: int)
    ensures (a * b) as real == (a as real) * (b as real)
  {
  }

  lemma Regroup(a: real, b: real, c: real)
    ensures (a * b) * c == a * (b * c)
  {
  }

  lemma Interchange(m: real, p: real, n: real, q: real)
    ensures (m * p) * (n * q) == (m * n) * (p * q)
  {
  }

  lemma Exchange(a: real, b: real, c: real)
    ensures (a * b) * c == (a * c) * b
  {
  }

  lemma Cancel(x: real, y: real, k: real)
    requires k > 0.0
    ensures x * k <= y * k <==> x <= y
  {
    if x > y {
      assert (x - y) * k > 0.0;
    } else {
      assert (y - x) * k >= 0.0;
    }
  }

  lemma {:induction false} Exp2Sum(a: int, b: int)
    ensures Exp2(a + b) == Exp2(a) * Exp2(b)
    decreases if b < 0 then -b else b
  {
    hide Exp2;
    Exp2Zero();
    if b > 0 {
      Exp2Sum(a, b - 1);
      Exp2Next(a + b - 1);
      Exp2Next(b - 1);
      Regroup(2.0, Exp2(a), Exp2(b - 1));
      Regroup(Exp2(a), 2.0, Exp2(b - 1));
    } else if b < 0 {
      Exp2Sum(a, b + 1);
      Exp2Next(a + b);
      Exp2Next(b);
      Regroup(2.0, Exp2(a), Exp2(b));
      Regroup(Exp2(a), 2.0, Exp2(b));
    }
  }

  lemma {:induction false} Exp2OfNat(n: nat)
    ensures Exp2(n) == Pow2(n) as real
  {
    if n > 0 {
      Exp2OfNat(n - 1);
    }
  }

  // ---------------------------------------------------------------- the divisions

  /** A float_s32_t, its mantissa read as the unsigned word the code casts it to. */
  datatype Float = Float(mant: u32, exp: int)

  function Value(f: Float): real {
    f.mant as real * Exp2(f.exp)
  }

  const HALF32: int := 0x8000_0000

  /** The count-leading-zeros instruction. */
  function Clz(x: u32): (n: nat)
    ensures x == 0 ==> n == 32
    ensures x != 0 ==> HALF32 <= x * Pow2(n) < TWO32
    decreases if x == 0 then 0 else TWO32 - x
  {
    if x == 0 then 32 else if x >= HALF32 then 0 else
      var n := 1 + Clz(2 * x);
      assert x * Pow2(n) == (2 * x) * Pow2(n - 1);
      n
  }

  /** A mantissa shifted up until its top bit is set. */
  function Normalised(x: u32): (h: u32)
    ensures x != 0 ==> h >= HALF32
    ensures x == 0 ==> h == 0
  {
    x * Pow2(Clz(x))
  }

  /** `float_div`; the result's exponent is where the quotient's binary point ends up. */
  function FloatDiv(dividend: Float, divisor: Float): Float
    requires divisor.mant != 0
  {
    var h, k := Normalised(dividend.mant), Normalised(divisor.mant);
    var lhs := if h > k then 31 else 32;
    var quotient := h * Pow2(lhs) / k;
    Float(Wrap32(quotient),
          (dividend.exp - Clz(dividend.mant)) - (divisor.exp - Clz(divisor.mant)) - lhs)
  }

  /** `float_div_u64`: the 64-bit quotient and its exponent. */
  function WideQuotient(dividend: Float, divisor: Float): int
    requires divisor.mant != 0
  {
    Normalised(dividend.mant) * Pow2(32) / Normalised(divisor.mant)
  }

  function WideExponent(dividend: Float, divisor: Float): int {
    (dividend.exp - Clz(dividend.mant)) - (divisor.exp - Clz(divisor.mant)) - 32
  }

  /** `float_div_u64_fixed_output_q_format`: the quotient with `q` fraction bits. */
  function FixedDiv(dividend: Float, divisor: Float, q: int): int
    requires divisor.mant != 0
  {
    var m, e := WideQuotient(dividend, divisor), WideExponent(dividend, divisor);
    if e < -q then
      var rsh := -q - e;
      m / Pow2(rsh) + m / Pow2(rsh - 1) % 2
    else
      m * Pow2(e + q) % (TWO32 * TWO32)
  }

  // ---------------------------------------------------------------- the exact ratio

  function Ratio(dividend: Float, divisor: Float): (r: real)
    requires divisor.mant != 0
    ensures dividend.mant != 0 ==> r > 0.0
  {
    Value(dividend) / Value(divisor)
  }

  lemma ScaleAlgebra(m: real, n: real, ea: real, eb: real, ec: real, ed: real, el: real, ex: real)
    requires eb * ((ec * el) * ex) == ea * ed
    ensures (m * ea) * (n * ed) == (n * eb) * (((m * ec) * el) * ex)
  {
    Interchange(m, ea, n, ed);
    assert ((m * ec) * el) * ex == m * ((ec * el) * ex) by {
      Regroup(m, ec, el);
      Regroup(m, ec * el, ex);
    }
    Interchange(n, eb, m, (ec * el) * ex);
  }

  lemma NormalisedReal(x: u32)
    ensures Normalised(x) as real == x as real * Exp2(Clz(x))
  {
    hide Exp2, Pow2, Clz;
    Exp2OfNat(Clz(x));
    RealProduct(x, Pow2(Clz(x)));
  }

  /** The shifted dividend over the shifted divisor, at the result's exponent, is the ratio. */
  lemma ScaledRatio(dividend: Float, divisor: Float, lhs: nat)
    ensures var h, k := Normalised(dividend.mant), Normalised(divisor.mant);
            var exp := (dividend.exp - Clz(dividend.mant)) - (divisor.exp - Clz(divisor.mant)) - lhs;
            Value(dividend) * (k as real) == Value(divisor) * ((h * Pow2(lhs)) as real * Exp2(exp))
  {
    hide Exp2, Pow2, Clz;
    var c, d := Clz(dividend.mant), Clz(divisor.mant);
    var exp := (dividend.exp - c) - (divisor.exp - d) - lhs;
    NormalisedReal(dividend.mant);
    NormalisedReal(divisor.mant);
    Exp2OfNat(lhs);
    RealProduct(Normalised(dividend.mant), Pow2(lhs));
    Exp2Sum(c, lhs);
    Exp2Sum(c + lhs, exp);
    Exp2Sum(divisor.exp, c + lhs + exp);
    Exp2Sum(dividend.exp, d);
    assert divisor.exp + (c + lhs + exp) == dividend.exp + d;
    ScaleAlgebra(dividend.mant as real, divisor.mant as real, Exp2(dividend.exp), Exp2(divisor.exp),
                 Exp2(c), Exp2(d), Exp2(lhs), Exp2(exp));
  }

  /** From a ratio and an integer quotient scaled the same way to the ratio itself. */
  lemma RatioOfScaled(va: real, vb: real, k: real, n: real, e: real)
    requires vb > 0.0 && k > 0.0 && va * k == vb * (n * e)
    ensures (va / vb) * k == n * e
  {
    var r := va / vb;
    assert r * vb == va;
    Exchange(r, vb, k);
    Cancel(r * k, n * e, vb);
    Cancel(n * e, r * k, vb);
  }

  lemma BelowRatio(r: real, k: real, n: real, e: real, q: real)
    requires k > 0.0 && e > 0.0 && r * k == n * e
    ensures q * k <= n <==> q * e <= r
  {
    Exchange(q, e, k);
    Cancel(q * e, r, k);
    Cancel(q * k, n, e);
  }

  lemma QuotientOfScaled(va: real, vb: real, k: nat, n: nat, e: real)
    requires vb > 0.0 && k > 0 && e > 0.0 && va * (k as real) == vb * (n as real * e)
    ensures (n / k) as real * e <= va / vb < (n / k + 1) as real * e
  {
    var quotient := n / k;
    DivBounds(n, k, quotient);
    RatioOfScaled(va, vb, k as real, n as real, e);
    RealProduct(quotient, k);
    RealProduct(quotient + 1, k);
    BelowRatio(va / vb, k as real, n as real, e, quotient as real);
    BelowRatio(va / vb, k as real, n as real, e, (quotient + 1) as real);
  }

  lemma ValuePositive(f: Float)
    requires f.mant > 0
    ensures Value(f) > 0.0
  {
  }

  /** The integer quotient at the result's exponent brackets the exact ratio. */
  lemma QuotientBrackets(dividend: Float, divisor: Float, lhs: nat)
    requires divisor.mant != 0
    ensures var h, k := Normalised(dividend.mant), Normalised(divisor.mant);
            var exp := (dividend.exp - Clz(dividend.mant)) - (divisor.exp - Clz(divisor.mant)) - lhs;
            var quotient := h * Pow2(lhs) / k;
            quotient as real * Exp2(exp) <= Ratio(dividend, divisor) < (quotient + 1) as real * Exp2(exp)
  {
    hide Exp2, Pow2, Clz, Normalised, Value;
    var exp := (dividend.exp - Clz(dividend.mant)) - (divisor.exp - Clz(divisor.mant)) - lhs;
    ScaledRatio(dividend, divisor, lhs);
    ValuePositive(divisor);
    QuotientOfScaled(Value(dividend), Value(divisor), Normalised(divisor.mant),
                     Normalised(dividend.mant) * Pow2(lhs), Exp2(exp));
  }

  // ---------------------------------------------------------------- float_div

  lemma Powers()
    ensures Pow2(31) == HALF32 && Pow2(32) == TWO32
  {
    assert Pow2(8) == 256;
    assert Pow2(16) == 0x1_0000;
    assert Pow2(24) == 0x100_0000;
  }

  lemma QuotientRange(n: nat, k: nat, low: int, high: int)
    requires k > 0 && low * k <= n < high * k
    ensures low <= n / k < high
  {
    var q := n / k;
    DivBounds(n, k, q);
    CancelInt(low, q + 1, k);
    CancelInt(q, high, k);
  }

  /** The mantissa of a quotient has its top bit set, unless the normalised mantissas are equal:
      then the quotient is exactly 2^32, which the 32-bit result drops. */
  lemma QuotientFits(dividend: Float, divisor: Float)
    requires dividend.mant != 0 && divisor.mant != 0
    ensures var h, k := Normalised(dividend.mant), Normalised(divisor.mant);
            var lhs := if h > k then 31 else 32;
            && (h != k ==> HALF32 <= h * Pow2(lhs) / k < TWO32)
            && (h == k ==> h * Pow2(lhs) / k == TWO32)
  {
    Powers();
    hide Pow2, Clz, Normalised;
    var h, k := Normalised(dividend.mant), Normalised(divisor.mant);
    if h > k {
      QuotientRange(h * HALF32, k, HALF32, TWO32);
    } else if h < k {
      QuotientRange(h * TWO32, k, HALF32, TWO32);
    } else {
      QuotientRange(h * TWO32, k, TWO32, TWO32 + 1);
    }
  }

  lemma RelativeError(mant: int, unit: real, ratio: real)
    requires mant >= HALF32 && unit > 0.0 && ratio < (mant + 1) as real * unit
    ensures ratio < mant as real * unit + unit
    ensures ratio * HALF32 as real < (mant as real * unit) * (HALF32 + 1) as real
  {
    assert (mant as real - HALF32 as real) * unit >= 0.0;
  }

  /** `float_div` of non-zero mantissas, when it works: a full 32-bit mantissa, and the true ratio
      lies less than one unit of that mantissa above the result, so the relative error is below
      2^-31. It fails exactly when the normalised mantissas are equal, and then returns 0. */
  lemma FloatDivExact(dividend: Float, divisor: Float)
    requires dividend.mant != 0 && divisor.mant != 0
    ensures var r, ratio := FloatDiv(dividend, divisor), Ratio(dividend, divisor);
            && (r.mant == 0 <==> Normalised(dividend.mant) == Normalised(divisor.mant))
            && (r.mant != 0 ==>
                  && HALF32 <= r.mant
                  && Value(r) <= ratio < Value(r) + Exp2(r.exp)
                  && ratio * HALF32 as real < Value(r) * (HALF32 + 1) as real)
  {
    hide Pow2, Clz, Normalised, Exp2, Ratio;
    var h, k := Normalised(dividend.mant), Normalised(divisor.mant);
    var lhs := if h > k then 31 else 32;
    QuotientFits(dividend, divisor);
    QuotientBrackets(dividend, divisor, lhs);
    var r := FloatDiv(dividend, divisor);
    if r.mant != 0 {
      assert r.mant == h * Pow2(lhs) / k;
      RelativeError(r.mant, Exp2(r.exp), Ratio(dividend, divisor));
    }
  }

  lemma ShiftRegroup(x: int, a: nat, b: nat)
    ensures (x * Pow2(a)) * Pow2(b) == x * Pow2(a + b)
  {
    hide Pow2;
    Pow2Sum(a, b);
    assert (x * Pow2(a)) * Pow2(b) == x * (Pow2(a) * Pow2(b));
  }

  lemma ShiftGrows(h: int, n: nat)
    requires h >= HALF32 && n > 0
    ensures h * Pow2(n) >= TWO32
  {
    assert Pow2(n) >= 2;
    MulMono(HALF32, 2, h, Pow2(n));
  }

  /** There is only one shift that brings the top bit up. */
  lemma ClzUnique(x: u32, n: nat)
    requires HALF32 <= x * Pow2(n) < TWO32
    ensures n == Clz(x)
  {
    var c := Clz(x);
    if n < c {
      ShiftRegroup(x, n, c - n);
      ShiftGrows(x * Pow2(n), c - n);
    } else if c < n {
      ShiftRegroup(x, c, n - c);
      ShiftGrows(x * Pow2(c), n - c);
    }
  }

  lemma ShiftedNormalises(x: u32, y: u32, n: nat)
    requires x != 0 && y == x * Pow2(n)
    ensures Normalised(x) == Normalised(y)
  {
    hide Pow2, Clz;
    var h := Normalised(y);
    ShiftRegroup(x, n, Clz(y));
    ClzUnique(x, n + Clz(y));
  }

  lemma EqualNormalised(x: u32, y: u32)
    requires x != 0 && y != 0 && Clz(x) >= Clz(y) && Normalised(x) == Normalised(y)
    ensures y == x * Pow2(Clz(x) - Clz(y))
  {
    hide Pow2, Clz;
    var n := Clz(x) - Clz(y);
    ShiftRegroup(x, n, Clz(y));
    var k := Pow2(Clz(y));
    CancelInt(y, x * Pow2(n), k);
    CancelInt(x * Pow2(n), y, k);
  }

  /** One word is the other one shifted left. */
  ghost predicate Shifted(x: u32, y: u32) {
    exists n: nat :: y == x * Pow2(n) || x == y * Pow2(n)
  }

  /** When `float_div` fails, in terms a caller can check: it returns 0 exactly when one mantissa
      is the other times a power of two, so a ratio that is a power of two is always lost. */
  lemma FloatDivLost(dividend: Float, divisor: Float)
    requires dividend.mant != 0 && divisor.mant != 0
    ensures FloatDiv(dividend, divisor).mant == 0 <==> Shifted(dividend.mant, divisor.mant)
  {
    hide Pow2, Clz, Normalised, FloatDiv;
    var x, y := dividend.mant, divisor.mant;
    FloatDivExact(dividend, divisor);
    if Normalised(x) == Normalised(y) {
      if Clz(x) >= Clz(y) {
        EqualNormalised(x, y);
      } else {
        EqualNormalised(y, x);
      }
    }
    if Shifted(x, y) {
      var n: nat :| y == x * Pow2(n) || x == y * Pow2(n);
      if y == x * Pow2(n) {
        ShiftedNormalises(x, y, n);
      } else {
        ShiftedNormalises(y, x, n);
      }
    }
  }

  // ---------------------------------------------------------------- the fixed-point form

  const TWO33: int := 0x2_0000_0000

  /** The 64-bit quotient and how it brackets the ratio. */
  lemma WideQuotientBounds(dividend: Float, divisor: Float)
    requires dividend.mant != 0 && divisor.mant != 0
    ensures var m, e := WideQuotient(dividend, divisor), WideExponent(dividend, divisor);
            && HALF32 <= m < TWO33
            && m as real * Exp2(e) <= Ratio(dividend, divisor) < (m + 1) as real * Exp2(e)
  {
    Powers();
    hide Pow2, Clz, Normalised, Exp2, Ratio;
    QuotientBrackets(dividend, divisor, 32);
    var h, k := Normalised(dividend.mant), Normalised(divisor.mant);
    QuotientRange(h * TWO32, k, HALF32, TWO33);
  }

  lemma HalfUp(m: nat, half: nat)
    requires half > 0
    ensures var full := 2 * half;
            var rounded := m / full + m / half % 2;
            m < rounded * full + half && rounded * full <= m + half
  {
    var full := 2 * half;
    var top, bits := m / full, m / half;
    DivBounds(m, full, top);
    DivBounds(m, half, bits);
    assert (2 * top) * half == top * full;
    CancelInt(2 * top, bits + 1, half);
    CancelInt(bits, 2 * top + 2, half);
  }

  /** Shifting right by `r` bits and adding the last bit shifted out rounds half up. */
  lemma RoundingShift(m: nat, r: nat)
    requires r > 0
    ensures var rounded := m / Pow2(r) + m / Pow2(r - 1) % 2;
            m < rounded * Pow2(r) + Pow2(r - 1) && rounded * Pow2(r) <= m + Pow2(r - 1)
  {
    assert Pow2(r) == 2 * Pow2(r - 1);
    HalfUp(m, Pow2(r - 1));
  }

  /** The exact ratio with `q` fraction bits, before any rounding. */
  function Scaled(ratio: real, q: int): real {
    ratio * Exp2(q)
  }

  lemma Rescale(ratio: real, m: real, e: int, shift: int)
    ensures m * Exp2(e) <= ratio <==> m * Exp2(e + shift) <= ratio * Exp2(shift)
  {
    hide Exp2;
    Exp2Sum(e, shift);
    Regroup(m, Exp2(e), Exp2(shift));
    Cancel(m * Exp2(e), ratio, Exp2(shift));
  }

  /** With the binary point to the right of the result's (a right shift, of fewer than 64 bits),
      the fixed-point quotient is the exact ratio rounded to the nearest integer, halves up. */
  lemma FixedDivRounds(dividend: Float, divisor: Float, q: int)
    requires dividend.mant != 0 && divisor.mant != 0
    requires 1 <= -q - WideExponent(dividend, divisor) <= 63
    ensures var r, exact := FixedDiv(dividend, divisor, q) as real, Scaled(Ratio(dividend, divisor), q);
            r - 0.5 <= exact < r + 0.5
  {
    hide Clz, Normalised, Ratio, WideQuotient, WideExponent, Exp2, Pow2;
    var m, e := WideQuotient(dividend, divisor), WideExponent(dividend, divisor);
    var rsh := -q - e;
    WideQuotientBounds(dividend, divisor);
    RoundingShift(m, rsh);
    var ratio := Ratio(dividend, divisor);
    Rescale(ratio, m as real, e, -e);
    Rescale(ratio, (m + 1) as real, e, -e);
    Exp2Zero();
    Exp2Sum(q, rsh);
    Regroup(ratio, Exp2(q), Exp2(rsh));
    Exp2OfNat(rsh);
    HalfPower(rsh);
    RoundedReal(m, FixedDiv(dividend, divisor, q), Pow2(rsh), Pow2(rsh - 1), Scaled(ratio, q));
  }

  lemma HalfPower(n: nat)
    requires n > 0
    ensures Pow2(n) == 2 * Pow2(n - 1)
  {
  }

  lemma HalfStep(x: real, r: real, low: real, high: real, p: real, h: real)
    requires h > 0.0 && p == 2.0 * h && low == r - 0.5 && high == r + 0.5
    requires r * p - h <= x * p < r * p + h
    ensures low <= x < high
  {
    assert low * p == r * p - h;
    assert high * p == r * p + h;
    Cancel(low, x, p);
    Cancel(high, x, p);
  }

  lemma RoundedReal(m: int, rounded: int, full: nat, half: nat, exact: real)
    requires full == 2 * half && half > 0
    requires m < rounded * full + half && rounded * full <= m + half
    requires m as real <= exact * full as real < (m + 1) as real
    ensures rounded as real - 0.5 <= exact < rounded as real + 0.5
  {
    var n := rounded * full;
    RealProduct(rounded, full);
    assert n as real - half as real <= m as real && (m + 1) as real <= n as real + half as real;
    HalfStep(exact, rounded as real, rounded as real - 0.5, rounded as real + 0.5, full as real, half as real);
  }

  /** With the binary point at or left of the result's (a left shift of up to 31 bits), nothing
      wraps, and the exact ratio lies less than one unit of the shifted quotient above. */
  lemma FixedDivTruncates(dividend: Float, divisor: Float, q: int)
    requires dividend.mant != 0 && divisor.mant != 0
    requires 0 <= WideExponent(dividend, divisor) + q <= 31
    ensures var r, exact := FixedDiv(dividend, divisor, q), Scaled(Ratio(dividend, divisor), q);
            var lsh := WideExponent(dividend, divisor) + q;
            && r == WideQuotient(dividend, divisor) * Pow2(lsh)
            && r as real <= exact < r as real + Pow2(lsh) as real
  {
    hide Clz, Normalised, Ratio, WideQuotient, WideExponent, Exp2, Pow2;
    var m, e := WideQuotient(dividend, divisor), WideExponent(dividend, divisor);
    var lsh := e + q;
    var ratio := Ratio(dividend, divisor);
    WideQuotientBounds(dividend, divisor);
    ShiftBelow(lsh);
    MulMono(m, Pow2(lsh), TWO33 - 1, HALF32);
    Rescale(ratio, m as real, e, q);
    Rescale(ratio, (m + 1) as real, e, q);
    Exp2OfNat(lsh);
    RealProduct(m, Pow2(lsh));
    RealProduct(m + 1, Pow2(lsh));
    assert (m + 1) * Pow2(lsh) == m * Pow2(lsh) + Pow2(lsh);
  }

  lemma {:induction false} ShiftBelow(n: nat)
    requires n <= 31
    ensures Pow2(n) <= HALF32
  {
    Pow2Sum(n, 31 - n);
    Powers();
    MulMono(Pow2(n), 1, Pow2(n), Pow2(31 - n));
  }

  // ---------------------------------------------------------------- a ratio of two rates

  /** Two rates known to within 2^-31 from above give their ratio to within 2^-31. */
  lemma RatioOfRates(r1: real, r2: real, x1: real, x2: real)
    requires r1 > 0.0 && r2 > 0.0
    requires r1 <= x1 && x1 * HALF32 as real < r1 * (HALF32 + 1) as real
    requires r2 <= x2 && x2 * HALF32 as real < r2 * (HALF32 + 1) as real
    ensures (r1 / r2) * HALF32 as real < (x1 / x2) * (HALF32 + 1) as real
    ensures (x1 / x2) * HALF32 as real < (r1 / r2) * (HALF32 + 1) as real
  {
    QuotientBelow(r1, r2, x1, x2);
    QuotientBelow(x1, x2, r1, r2);
  }

  /** a/b is at most (1 + 2^-31) c/d when a is, against c, and d is at most so against b. */
  lemma QuotientBelow(a: real, b: real, c: real, d: real)
    requires a > 0.0 && b > 0.0 && c > 0.0 && d > 0.0
    requires (a <= c && d * HALF32 as real < b * (HALF32 + 1) as real)
          || (d <= b && a * HALF32 as real < c * (HALF32 + 1) as real)
    ensures (a / b) * HALF32 as real < (c / d) * (HALF32 + 1) as real
  {
    var g, h := HALF32 as real, (HALF32 + 1) as real;
    var x, y := a / b, c / d;
    assert x * b == a && y * d == c;
    assert (a * g) * d < (c * h) * b by {
      if a <= c && d * g < b * h {
        CrossLess(a, c, d * g, b * h);
      } else {
        CrossLess(d, b, a * g, c * h);
      }
    }
    assert ((x * g) * (b * d)) == (a * g) * d;
    assert ((y * h) * (b * d)) == (c * h) * b;
    assert b * d > 0.0;
    Cancel(y * h, x * g, b * d);
  }

  lemma CrossLess(a: real, c: real, p: real, q: real)
    requires 0.0 < a <= c && 0.0 < p < q
    ensures a * p < c * q
  {
    Cancel(a, c, p);
    Cancel(q, p, c);
  }

  /** What the last shift adds to the error: a left shift leaves low bits empty, a right one rounds
      to the nearest. */
  function Lowest(r: real, lsh: int): real {
    if lsh >= 0 then r else r - 0.5
  }

  function Unit(lsh: int): real {
    if lsh >= 0 then Pow2(lsh) as real else 1.0
  }

  lemma FixedDivBrackets(dividend: Float, divisor: Float, q: int)
    requires dividend.mant != 0 && divisor.mant != 0
    requires -63 <= WideExponent(dividend, divisor) + q <= 31
    ensures var r, exact := FixedDiv(dividend, divisor, q) as real, Scaled(Ratio(dividend, divisor), q);
            var lsh := WideExponent(dividend, divisor) + q;
            Lowest(r, lsh) <= exact < Lowest(r, lsh) + Unit(lsh)
  {
    hide FixedDiv, Ratio, WideExponent, Scaled, Pow2;
    if WideExponent(dividend, divisor) + q >= 0 {
      FixedDivTruncates(dividend, divisor, q);
    } else {
      FixedDivRounds(dividend, divisor, q);
    }
  }

  /** The rate ratio the rate server computes, end to end: two rates from `float_div`, divided in
      fixed point, shifted either way. Against the exact ratio of the exact rates, with `q` fraction
      bits, the result is off by a relative 2^-31 and by what the shift leaves out, and by no more. */
  lemma RateRatioBounds(samples1: Float, ticks1: Float, samples2: Float, ticks2: Float, q: int)
    requires samples1.mant != 0 && ticks1.mant != 0 && samples2.mant != 0 && ticks2.mant != 0
    requires !Shifted(samples1.mant, ticks1.mant) && !Shifted(samples2.mant, ticks2.mant)
    ensures FloatDiv(samples1, ticks1).mant != 0 && FloatDiv(samples2, ticks2).mant != 0
    ensures var rate1, rate2 := FloatDiv(samples1, ticks1), FloatDiv(samples2, ticks2);
            var lsh := WideExponent(rate1, rate2) + q;
            -63 <= lsh <= 31 ==>
              var low := Lowest(FixedDiv(rate1, rate2, q) as real, lsh);
              var exact := Scaled(Ratio(samples1, ticks1) / Ratio(samples2, ticks2), q);
              && low * HALF32 as real < exact * (HALF32 + 1) as real
              && exact * HALF32 as real < (low + Unit(lsh)) * (HALF32 + 1) as real
  {
    hide Pow2, Clz, Normalised, FloatDiv, FixedDiv, WideExponent, Ratio, Shifted, Exp2, Lowest, Unit;
    RatesNear(samples1, ticks1, samples2, ticks2);
    var rate1, rate2 := FloatDiv(samples1, ticks1), FloatDiv(samples2, ticks2);
    var lsh := WideExponent(rate1, rate2) + q;
    if -63 <= lsh <= 31 {
      FixedDivBrackets(rate1, rate2, q);
      RatioIsQuotient(rate1, rate2);
      ChainBounds(Value(rate1) / Value(rate2), Ratio(samples1, ticks1) / Ratio(samples2, ticks2), Exp2(q),
                  Lowest(FixedDiv(rate1, rate2, q) as real, lsh), Unit(lsh));
    }
  }

  /** The ratio of the two computed rates against that of the exact ones. */
  lemma RatesNear(samples1: Float, ticks1: Float, samples2: Float, ticks2: Float)
    requires samples1.mant != 0 && ticks1.mant != 0 && samples2.mant != 0 && ticks2.mant != 0
    requires !Shifted(samples1.mant, ticks1.mant) && !Shifted(samples2.mant, ticks2.mant)
    ensures FloatDiv(samples1, ticks1).mant != 0 && FloatDiv(samples2, ticks2).mant != 0
    ensures Value(FloatDiv(samples2, ticks2)) > 0.0 && Ratio(samples2, ticks2) > 0.0
    ensures var near := Value(FloatDiv(samples1, ticks1)) / Value(FloatDiv(samples2, ticks2));
            var exact := Ratio(samples1, ticks1) / Ratio(samples2, ticks2);
            && near * HALF32 as real < exact * (HALF32 + 1) as real
            && exact * HALF32 as real < near * (HALF32 + 1) as real
  {
    hide Pow2, Clz, Normalised, FloatDiv, Ratio, Shifted, Exp2;
    FloatDivLost(samples1, ticks1);
    FloatDivLost(samples2, ticks2);
    FloatDivExact(samples1, ticks1);
    FloatDivExact(samples2, ticks2);
    var rate1, rate2 := FloatDiv(samples1, ticks1), FloatDiv(samples2, ticks2);
    ValuePositive(rate1);
    ValuePositive(rate2);
    RatioOfRates(Value(rate1), Value(rate2), Ratio(samples1, ticks1), Ratio(samples2, ticks2));
  }

  lemma {:induction false} Exp2Grows(a: int, n: nat)
    ensures Exp2(a) <= Exp2(a + n)
  {
    hide Exp2;
    if n > 0 {
      Exp2Grows(a, n - 1);
      Exp2Next(a + n - 1);
    }
  }

  lemma Exp2Order(a: int, b: int)
    requires Exp2(a) < Exp2(b)
    ensures a < b
  {
    hide Exp2;
    if a >= b {
      Exp2Grows(b, a - b);
    }
  }

  lemma Eight()
    ensures Exp2(3) == 8.0 && Exp2(-3) == 0.125
  {
    assert Exp2(1) == 2.0 && Exp2(2) == 4.0;
    assert Exp2(-1) == 0.5 && Exp2(-2) == 0.25;
  }

  lemma WordPowers()
    ensures Exp2(31) == HALF32 as real && Exp2(33) == TWO33 as real
  {
    Powers();
    Exp2OfNat(31);
    Exp2OfNat(33);
    assert Pow2(33) == 2 * Pow2(32);
  }

  /** A ratio between an eighth and eight puts the quotient's exponent in a narrow range. */
  lemma ExponentOfRatio(dividend: Float, divisor: Float)
    requires dividend.mant != 0 && divisor.mant != 0
    requires 0.125 <= Ratio(dividend, divisor) < 8.0
    ensures -35 <= WideExponent(dividend, divisor) <= -29
  {
    hide Exp2, Ratio, WideQuotient, WideExponent;
    var m, e := WideQuotient(dividend, divisor), WideExponent(dividend, divisor);
    var ratio := Ratio(dividend, divisor);
    WideQuotientBounds(dividend, divisor);
    Eight();
    AtLeastPower(m as real, e, ratio);
    BelowPower((m + 1) as real, e, ratio);
    Exp2Order(31 + e, 3);
    Exp2Order(-3, 33 + e);
  }

  lemma AtLeastPower(m: real, e: int, ratio: real)
    requires HALF32 as real <= m && m * Exp2(e) <= ratio
    ensures Exp2(31 + e) <= ratio
  {
    hide Exp2;
    WordPowers();
    Exp2Sum(31, e);
    ProductOrder(Exp2(31), m, Exp2(e));
  }

  lemma BelowPower(n: real, e: int, ratio: real)
    requires n <= TWO33 as real && ratio < n * Exp2(e)
    ensures ratio < Exp2(33 + e)
  {
    hide Exp2;
    WordPowers();
    Exp2Sum(33, e);
    ProductOrder(n, Exp2(33), Exp2(e));
  }

  lemma ProductOrder(a: real, b: real, k: real)
    requires a <= b && k > 0.0
    ensures a * k <= b * k
  {
    Cancel(a, b, k);
  }

  /** At every pair of supported rates, whose ratios lie within a factor of seven, the quotient with
      60 fraction bits is shifted left and by at most 31 bits, so that nothing wraps and the error
      bounds hold. */
  lemma SupportedRatios(samples1: Float, ticks1: Float, samples2: Float, ticks2: Float)
    requires samples1.mant != 0 && ticks1.mant != 0 && samples2.mant != 0 && ticks2.mant != 0
    requires !Shifted(samples1.mant, ticks1.mant) && !Shifted(samples2.mant, ticks2.mant)
    requires var exact := Ratio(samples1, ticks1) / Ratio(samples2, ticks2); 1.0 <= 7.0 * exact && exact <= 7.0
    ensures FloatDiv(samples1, ticks1).mant != 0 && FloatDiv(samples2, ticks2).mant != 0
    ensures 25 <= WideExponent(FloatDiv(samples1, ticks1), FloatDiv(samples2, ticks2)) + 60 <= 31
    ensures Ratio(FloatDiv(samples1, ticks1), FloatDiv(samples2, ticks2)) < 8.0
  {
    hide Pow2, Clz, Normalised, FloatDiv, FixedDiv, WideExponent, Ratio, Shifted, Exp2;
    RatesNear(samples1, ticks1, samples2, ticks2);
    var rate1, rate2 := FloatDiv(samples1, ticks1), FloatDiv(samples2, ticks2);
    RatioIsQuotient(rate1, rate2);
    NearEnough(Value(rate1) / Value(rate2), Ratio(samples1, ticks1) / Ratio(samples2, ticks2));
    ExponentOfRatio(rate1, rate2);
  }

  /** So the ratio lies well inside 64 bits. */
  lemma SupportedRange(samples1: Float, ticks1: Float, samples2: Float, ticks2: Float)
    requires samples1.mant != 0 && ticks1.mant != 0 && samples2.mant != 0 && ticks2.mant != 0
    requires !Shifted(samples1.mant, ticks1.mant) && !Shifted(samples2.mant, ticks2.mant)
    requires var exact := Ratio(samples1, ticks1) / Ratio(samples2, ticks2); 1.0 <= 7.0 * exact && exact <= 7.0
    ensures FloatDiv(samples1, ticks1).mant != 0 && FloatDiv(samples2, ticks2).mant != 0
    ensures 0x100_0000_0000_0000 <= FixedDiv(FloatDiv(samples1, ticks1), FloatDiv(samples2, ticks2), 60)
            < 0x8000_0000_0000_0000
  {
    hide Pow2, Clz, Normalised, FloatDiv, FixedDiv, WideExponent, WideQuotient, Ratio, Shifted, Exp2;
    SupportedRatios(samples1, ticks1, samples2, ticks2);
    var rate1, rate2 := FloatDiv(samples1, ticks1), FloatDiv(samples2, ticks2);
    WideQuotientBounds(rate1, rate2);
    FixedDivTruncates(rate1, rate2, 60);
    var lsh := WideExponent(rate1, rate2) + 60;
    Powers25To63(lsh);
    MulMono(HALF32, 0x200_0000, WideQuotient(rate1, rate2), Pow2(lsh));
    Cancel(8.0, Ratio(rate1, rate2), Exp2(60));
  }

  lemma Powers25To63(lsh: nat)
    requires 25 <= lsh <= 31
    ensures Pow2(lsh) >= 0x200_0000
    ensures 8.0 * Exp2(60) == 0x8000_0000_0000_0000 as real && Exp2(60) > 0.0
  {
    hide Pow2, Exp2;
    Pow2Sum(25, lsh - 25);
    Power25();
    MulMono(Pow2(25), 1, Pow2(25), Pow2(lsh - 25));
    Eight();
    Exp2Sum(3, 60);
    Exp2OfNat(63);
    Powers();
    Pow2Sum(31, 32);
  }

  lemma Power25()
    ensures Pow2(25) == 0x200_0000
  {
    assert Pow2(8) == 256;
    assert Pow2(16) == 0x1_0000;
    assert Pow2(24) == 0x100_0000;
  }

  lemma NearEnough(near: real, exact: real)
    requires near * HALF32 as real < exact * (HALF32 + 1) as real
    requires exact * HALF32 as real < near * (HALF32 + 1) as real
    requires 1.0 <= 7.0 * exact && exact <= 7.0
    ensures 0.125 <= near < 8.0
  {
  }

  /** A window of 48 samples in 98304 ticks of the clock of 100 MHz, say, is lost. */
  lemma LossyRates()
    ensures FloatDiv(Float(48, 0), Float(98304, 0)).mant == 0
  {
    hide FloatDiv, Shifted;
    ElevenShifts(48, 98304);
    FloatDivLost(Float(48, 0), Float(98304, 0));
  }

  lemma ElevenShifts(x: u32, y: u32)
    requires y == 2048 * x
    ensures Shifted(x, y)
  {
    assert Pow2(11) == 2048 && y == x * Pow2(11);
  }

  lemma RatioIsQuotient(a: Float, b: Float)
    requires b.mant != 0
    ensures Value(b) != 0.0 && Ratio(a, b) == Value(a) / Value(b)
  {
  }

  lemma ChainBounds(near: real, exact: real, scale: real, r: real, unit: real)
    requires scale > 0.0 && r <= near * scale < r + unit
    requires near * HALF32 as real < exact * (HALF32 + 1) as real
    requires exact * HALF32 as real < near * (HALF32 + 1) as real
    ensures r * HALF32 as real < (exact * scale) * (HALF32 + 1) as real
    ensures (exact * scale) * HALF32 as real < (r + unit) * (HALF32 + 1) as real
  {
    var g, h := HALF32 as real, (HALF32 + 1) as real;
    Cancel(exact * h, near * g, scale);
    Cancel(near * h, exact * g, scale);
    Exchange(near, g, scale);
    Exchange(near, h, scale);
    Exchange(exact, g, scale);
    Exchange(exact, h, scale);
  }
}
