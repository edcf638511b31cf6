/** dbcalc.c and the volume control of usb_audio.c: decibels to multipliers, multipliers to
    samples. */
module VolumeGain {
  import opened Words

  // ---------------------------------------------------------------- 32-bit arithmetic

  lemma QuotientSmaller(x: nat, y: int)
    requires y > 0
    ensures 0 <= x / y <= x
  {
    assert x == y * (x / y) + x % y;
    if x / y > x {
      MulMono(1, x + 1, y, x / y);
    }
  }

  function ShiftRight(x: u32, n: nat): u32 {
    QuotientSmaller(x, Pow2(n));
    x / Pow2(n)
  }

  // ---------------------------------------------------------------- db_to_mult

  const PRECISION: nat := 28
  /** 1.0 with 28 fraction bits. */
  const ONE: int := 0x1000_0000

  const COEFFICIENTS: seq<int> :=
    [2407, 13778, 64588, 308051, 1346110, 5261991, 18277531, 55564576, 144789513,
     314406484, 546179875, 711608713, 618095479, 268435456]

  /** The decibel value as an exponent of ten with 28 fraction bits. */
  function Exponent(db: int32, dbFrac: nat): int32
    requires dbFrac <= 23
  {
    ToInt32(TruncDiv(ToInt32(db * Pow2(23 - dbFrac)), 10) * 16)
  }

  /** The multiple of 1.0 nearest to an exponent on the side of zero, without its sign. */
  function WholePart(x: int32): int {
    (if x < 0 then 0 - x else x) / ONE
  }

  /** What is left of the exponent, between -1.0 and 1.0. */
  function Fraction(x: int32): int {
    if x < 0 then x + WholePart(x) * ONE else x - WholePart(x) * ONE
  }

  /** 1.0 divided `n` times by ten; 0 stands for "no integer part". */
  function TenthPower(n: nat): int {
    if n == 0 then ONE else TenthPower(n - 1) / 10
  }

  function TenPower(n: nat): int32 {
    if n == 0 then ONE else ToInt32(TenPower(n - 1) * 10)
  }

  /** The first `n` steps of the Horner loop, in 32-bit arithmetic. */
  function Horner(x: int, n: nat): int32
    requires n <= |COEFFICIENTS|
  {
    if n == 0 then 0 else ToInt32(ToInt32(x * Horner(x, n - 1) / ONE) + COEFFICIENTS[n - 1])
  }

  /** The polynomial times the integer power, if there is an integer part. */
  function Gain(x: int32): int32 {
    var whole := WholePart(x);
    var poly := Horner(Fraction(x), |COEFFICIENTS|);
    var power := if whole == 0 then 0 else if x < 0 then TenthPower(whole) else TenPower(whole);
    if power != 0 then ToInt32(power * poly / ONE) else poly
  }

  function Rescaled(val: int32, resultFrac: nat): u32
    requires resultFrac <= 59
  {
    if resultFrac > PRECISION then Wrap32(Wrap32(val) * Pow2(resultFrac - PRECISION))
    else ShiftRight(Wrap32(val), PRECISION - resultFrac)
  }

  function Multiplier(db: int32, dbFrac: nat, resultFrac: nat): u32
    requires dbFrac <= 23 && resultFrac <= 59 && (db == 0 ==> resultFrac <= 31)
  {
    if db == 0 then Wrap32(Pow2(resultFrac)) else Rescaled(Gain(Exponent(db, dbFrac)), resultFrac)
  }

  method DbToMult(db: int32, dbFrac: nat, resultFrac: nat) returns (result: u32)
    requires dbFrac <= 23 && resultFrac <= 59 && (db == 0 ==> resultFrac <= 31)
    ensures result == Multiplier(db, dbFrac, resultFrac)
  {
    if db == 0 {
      return Wrap32(Pow2(resultFrac));
    }
    var x := ToInt32(db * Pow2(23 - dbFrac));
    x := ToInt32(TruncDiv(x, 10) * 16);
    ghost var exponent := x;
    var val0: int32 := 0;
    var whole := WholePart(x);
    if x < 0 {
      x := x + whole * ONE;
      if whole != 0 {
        val0 := ONE;
        for i := 0 to whole
          invariant val0 == TenthPower(i) && 0 <= val0 <= ONE
        {
          val0 := val0 / 10;
        }
      }
    } else {
      x := x - whole * ONE;
      if whole != 0 {
        val0 := ONE;
        for i := 0 to whole
          invariant val0 == TenPower(i)
        {
          val0 := ToInt32(val0 * 10);
        }
      }
    }
    var val: int32 := 0;
    for i := 0 to |COEFFICIENTS|
      invariant x == Fraction(exponent) && val == Horner(x, i)
    {
      val := ToInt32(x * val / ONE);
      val := ToInt32(val + COEFFICIENTS[i]);
    }
    if val0 != 0 {
      val := ToInt32(val0 * val / ONE);
    }
    var ret := Wrap32(val);
    if resultFrac > PRECISION {
      result := Wrap32(ret * Pow2(resultFrac - PRECISION));
    } else {
      result := ShiftRight(ret, PRECISION - resultFrac);
    }
  }

  // ---------------------------------------------------------------- the range of the polynomial

  /** The polynomial without any wrap-around. */
  function ExactHorner(x: int, n: nat): int
    requires n <= |COEFFICIENTS|
  {
    if n == 0 then 0 else x * ExactHorner(x, n - 1) / ONE + COEFFICIENTS[n - 1]
  }

  /** The coefficients grow up to the twelfth, which keeps the first partial sums positive. */
  lemma {:induction false} EarlySums(x: int, n: nat)
    requires -ONE < x <= 0 && 1 <= n <= 12
    ensures var v := ExactHorner(x, n);
            (if n == 1 then COEFFICIENTS[0] else COEFFICIENTS[n - 1] - COEFFICIENTS[n - 2]) <= v <= COEFFICIENTS[n - 1]
  {
    if n == 1 {
      assert ExactHorner(x, 0) == 0;
    } else {
      EarlySums(x, n - 1);
      var v := ExactHorner(x, n - 1);
      FloorProduct(x, v, 0, ONE, 0, v);
      assert ONE * v / ONE == v;
      NotBelow(x, v);
    }
  }

  lemma NotBelow(x: int, v: nat)
    requires -ONE < x <= 0
    ensures x * v / ONE >= 0 - v
  {
    assert (x + ONE) * v >= 0;
  }

  lemma FloorProduct(x: int, v: int, low: nat, high: nat, lo: nat, hi: nat)
    requires low <= -x <= high && lo <= v <= hi
    ensures -(high * hi / ONE + 1) <= x * v / ONE <= -(low * lo / ONE)
  {
    MulMono(low, lo, -x, v);
    MulMono(-x, v, high, hi);
    assert x * v == -((-x) * v);
  }

  /** Bounds on the partial sums from the eighth on, for every exponent between -high and -low. */
  function Bounds(low: nat, high: nat, n: nat): (int, int)
    requires 8 <= n <= |COEFFICIENTS|
  {
    if n == 8 then (37287045, 55564576) else
      var b := Bounds(low, high, n - 1);
      (COEFFICIENTS[n - 1] - (high * b.1 / 0x1000_0000 + 1), COEFFICIENTS[n - 1] - low * b.0 / 0x1000_0000)
  }

  predicate Settled(low: nat, high: nat) {
    && Bounds(low, high, 9).0 >= 0
    && Bounds(low, high, 10).0 >= 0
    && Bounds(low, high, 11).0 >= 0
    && Bounds(low, high, 12).0 >= 0
    && Bounds(low, high, 13).0 >= 0
    && Bounds(low, high, 14).0 >= 0x10_0000
  }

  lemma {:induction false} WithinBounds(x: int, low: nat, high: nat, n: nat)
    requires low <= -x <= high < ONE + 1 && x > -ONE && 8 <= n <= 14 && Settled(low, high)
    ensures 0 <= Bounds(low, high, n).0 <= ExactHorner(x, n) <= Bounds(low, high, n).1
  {
    if n == 8 {
      EarlySums(x, 8);
    } else {
      WithinBounds(x, low, high, n - 1);
      var b := Bounds(low, high, n - 1);
      FloorProduct(x, ExactHorner(x, n - 1), low, high, b.0, b.1);
    }
  }

  // Nine intervals of the exponent, each narrow enough for the bounds to stay positive; the names
  // count in units of 2^20.

  lemma Settled248()
    ensures Settled(260046848, 268435456)
  {
  }

  lemma Settled240()
    ensures Settled(251658240, 260046848)
  {
  }

  lemma Settled228()
    ensures Settled(239075328, 251658240)
  {
  }

  lemma Settled216()
    ensures Settled(226492416, 239075328)
  {
  }

  lemma Settled200()
    ensures Settled(209715200, 226492416)
  {
  }

  lemma Settled176()
    ensures Settled(184549376, 209715200)
  {
  }

  lemma Settled140()
    ensures Settled(146800640, 184549376)
  {
  }

  lemma Settled76()
    ensures Settled(79691776, 146800640)
  {
  }

  lemma Settled0()
    ensures Settled(0, 79691776)
  {
  }

  /** The interval a fractional exponent falls into. */
  function Interval(x: int): (r: (nat, nat))
    requires -ONE < x <= 0
    ensures r.0 <= -x <= r.1 <= ONE && Settled(r.0, r.1)
  {
    if -x >= 260046848 then Settled248(); (260046848, 268435456) else
    if -x >= 251658240 then Settled240(); (251658240, 260046848) else
    if -x >= 239075328 then Settled228(); (239075328, 251658240) else
    if -x >= 226492416 then Settled216(); (226492416, 239075328) else
    if -x >= 209715200 then Settled200(); (209715200, 226492416) else
    if -x >= 184549376 then Settled176(); (184549376, 209715200) else
    if -x >= 146800640 then Settled140(); (146800640, 184549376) else
    if -x >= 79691776 then Settled76(); (79691776, 146800640) else
    Settled0(); (0, 79691776)
  }

  /** For a fractional exponent of zero or less, all partial sums stay between 0 and 2^31, and
      the polynomial itself is at most 1.0. */
  lemma PolynomialRange(x: int, n: nat)
    requires -ONE < x <= 0 && n <= |COEFFICIENTS|
    ensures 0 <= ExactHorner(x, n) <= 0x7FFF_FFFF
    ensures n == |COEFFICIENTS| ==> 0x10_0000 <= ExactHorner(x, n) <= ONE
  {
    if 1 <= n < 8 {
      EarlySums(x, n);
    } else if n >= 8 {
      var (low, high) := Interval(x);
      WithinBounds(x, low, high, n);
      if n > 8 {
        WithinBounds(x, low, high, n - 1);
        var v := ExactHorner(x, n - 1);
        FloorProduct(x, v, 0, ONE, 0, v);
      } else {
        EarlySums(x, 8);
      }
    }
  }

  // ---------------------------------------------------------------- no overflow, no gain above one

  /** In this range the 32-bit Horner loop computes the exact polynomial. */
  lemma {:induction false} HornerExact(x: int, n: nat)
    requires -ONE < x <= 0 && n <= |COEFFICIENTS|
    ensures Horner(x, n) == ExactHorner(x, n)
    ensures n < |COEFFICIENTS| ==>
              FitsInt32(x * Horner(x, n) / ONE) && FitsInt32(x * Horner(x, n) / ONE + COEFFICIENTS[n])
  {
    hide ToInt32, ExactHorner;
    if n > 0 {
      HornerExact(x, n - 1);
      var product := x * Horner(x, n - 1) / ONE;
      KeptInt32(product);
      KeptInt32(product + COEFFICIENTS[n - 1]);
      ExactHornerStep(x, n - 1);
    } else {
      ExactHornerStep(x, 0);
    }
    if n < |COEFFICIENTS| {
      PolynomialRange(x, n);
      PolynomialRange(x, n + 1);
      ExactHornerStep(x, n);
      var v := ExactHorner(x, n);
      NotBelow(x, v);
      FloorProduct(x, v, 0, ONE, 0, v);
    }
  }

  lemma ExactHornerStep(x: int, n: nat)
    requires n < |COEFFICIENTS|
    ensures ExactHorner(x, 0) == 0
    ensures ExactHorner(x, n + 1) == x * ExactHorner(x, n) / ONE + COEFFICIENTS[n]
  {
  }

  /** The range of the sum of two volumes: master and channel, each from -60 dB to 0 dB, with 8
      fraction bits. */
  predicate VolumeSum(db: int) {
    -120 * 256 <= db <= 0
  }

  /** No step of the scaling overflows, and the fraction the polynomial gets is above -1.0. */
  lemma ExponentInRange(db: int32)
    requires VolumeSum(db)
    ensures FitsInt32(db * Pow2(15)) && FitsInt32(TruncDiv(db * Pow2(15), 10) * 16)
    ensures var x := Exponent(db, 8);
            -6 * ONE <= x <= 0 && (db < 0 ==> x < 0) && 0 <= WholePart(x) <= 6 && -ONE < Fraction(x) <= 0
  {
    assert Pow2(5) == 32 && Pow2(10) == 1024;
    assert Pow2(15) == 32768;
  }

  lemma {:induction false} TenthPowerBounds(n: nat)
    ensures 0 <= TenthPower(n) <= ONE
  {
    if n > 0 {
      TenthPowerBounds(n - 1);
    }
  }

  lemma ScaledBelow(power: nat, poly: nat)
    requires power <= ONE && poly <= ONE
    ensures 0 <= power * poly / ONE <= ONE
  {
    MulMono(power, poly, ONE, ONE);
  }

  /** The gain of a non-positive exponent is at most 1.0, and multiplying by the integer power
      does not overflow either. */
  lemma GainInRange(x: int32)
    requires x < 0 && -ONE < Fraction(x) <= 0 && WholePart(x) >= 0
    ensures 0 <= Gain(x) <= ONE
    ensures FitsInt32(TenthPower(WholePart(x)) * Horner(Fraction(x), |COEFFICIENTS|) / ONE)
  {
    hide Horner, WholePart, Fraction, TenthPower, TenPower, ToInt32, ExactHorner;
    HornerExact(Fraction(x), 14);
    PolynomialRange(Fraction(x), 14);
    TenthPowerBounds(WholePart(x));
    var poly, power := Horner(Fraction(x), 14), TenthPower(WholePart(x));
    ScaledBelow(power, poly);
    KeptInt32(power * poly / ONE);
  }

  /** For every sum of two volumes the multiplier is at most 1.0 with 29 fraction bits: volume
      control only attenuates. */
  lemma MultiplierAtMostOne(db: int32)
    requires VolumeSum(db)
    ensures Multiplier(db, 8, 29) <= Pow2(29)
  {
    hide Exponent, Gain, WholePart, Fraction, Pow2;
    var x := Exponent(db, 8);
    FinalShift(ONE);
    ExponentInRange(db);
    if db < 0 {
      GainInRange(x);
      FinalShift(Gain(x));
    }
  }

  lemma FinalShift(val: int)
    requires 0 <= val <= ONE
    ensures Wrap32(Wrap32(val) * Pow2(29 - PRECISION)) <= Pow2(29)
    ensures Wrap32(Pow2(29)) == Pow2(29) == 2 * ONE
  {
    assert Pow2(9) == 512;
    assert Pow2(19) == 524288;
    assert Pow2(29) == 536870912;
    assert Pow2(1) == 2;
  }

  // ---------------------------------------------------------------- update_vol_mul

  const VOLUME_FRAC: nat := 8
  const MULTIPLIER_FRAC: nat := 29

  /** What channel `i` is to be multiplied by: index 0 of `volumes` and `mutes` is the master. */
  function ChannelMultiplier(volumes: seq<int>, mutes: seq<bool>, i: nat): u32
    requires i + 1 < |volumes| && i + 1 < |mutes|
    requires FitsInt32(volumes[0] + volumes[i + 1])
  {
    if mutes[i + 1] || mutes[0] then 0 else Multiplier(volumes[0] + volumes[i + 1], VOLUME_FRAC, MULTIPLIER_FRAC)
  }

  /** A change of channel `chan`, or of the master when it is 0, which updates every channel. */
  method UpdateVolMul(chan: nat, numChannels: nat, volumes: array<int16>, mutes: array<bool>, volMuls: array<u32>)
    requires volumes.Length == mutes.Length == numChannels + 1 && volMuls.Length == numChannels
    requires chan <= numChannels
    modifies volMuls
    ensures forall i :: 0 <= i < numChannels ==>
              volMuls[i] == if chan == 0 || i == chan - 1 then ChannelMultiplier(volumes[..], mutes[..], i)
                            else old(volMuls[i])
  {
    hide Multiplier;
    if chan > 0 {
      var db: int32 := volumes[chan];
      db := db + volumes[0];
      var mul := DbToMult(db, VOLUME_FRAC, MULTIPLIER_FRAC);
      if mutes[chan] || mutes[0] {
        volMuls[chan - 1] := 0;
      } else {
        volMuls[chan - 1] := mul;
      }
    } else {
      for i := 0 to numChannels
        invariant forall k :: 0 <= k < i ==> volMuls[k] == ChannelMultiplier(volumes[..], mutes[..], k)
      {
        var db: int32 := volumes[0];
        db := db + volumes[i + 1];
        var mul := DbToMult(db, VOLUME_FRAC, MULTIPLIER_FRAC);
        var mute := mutes[i + 1] || mutes[0];
        volMuls[i] := if mute then 0 else mul;
      }
    }
  }

  // ---------------------------------------------------------------- volume_scale

  /** A sample times a multiplier, shifted down arithmetically. */
  function VolumeScale(mul: u32, sample: int32): int32 {
    ToInt32(sample * mul / Pow2(MULTIPLIER_FRAC))
  }

  function Magnitude(x: int): nat {
    if x < 0 then 0 - x else x
  }

  lemma ScaledSample(mul: nat, sample: int, one: nat)
    requires 0 < one && mul <= one
    ensures var r := sample * mul / one;
            && (sample >= 0 ==> 0 <= r <= sample)
            && (sample <= 0 ==> sample <= r <= 0)
  {
    var n, r := sample * mul, sample * mul / one;
    assert n == one * r + n % one;
    if sample >= 0 {
      MulMono(sample, mul, sample, one);
      QuotientWithin(n, one, sample);
    } else {
      MulMono(-sample, mul, -sample, one);
      assert n == -((-sample) * mul);
      assert -sample * one >= -n;
      QuotientWithin(n + (-sample) * one, one, -sample);
      assert n + (-sample) * one == n - sample * one;
      assert (n - sample * one) / one == n / one - sample by { ShiftedQuotient(n, -sample, one); }
    }
  }

  lemma QuotientWithin(n: nat, one: nat, bound: nat)
    requires one > 0 && n <= bound * one
    ensures 0 <= n / one <= bound
  {
    assert n == one * (n / one) + n % one;
    if n / one > bound {
      MulMono(bound + 1, one, n / one, one);
    }
  }

  lemma ShiftedQuotient(n: int, k: int, one: nat)
    requires one > 0
    ensures (n + k * one) / one == n / one + k
  {
    var q := n / one;
    assert n == one * q + n % one;
    assert (q + k) * one <= n + k * one < (q + k + 1) * one;
    DivUnique(n + k * one, one, q + k);
  }

  /** Scaling by at most 1.0 never makes a sample louder, changes its sign or overflows. */
  lemma ScaleAttenuates(mul: u32, sample: int32)
    requires mul <= Pow2(29)
    ensures FitsInt32(sample * mul / Pow2(MULTIPLIER_FRAC))
    ensures var r := VolumeScale(mul, sample);
            && Magnitude(r) <= Magnitude(sample)
            && (sample >= 0 ==> r >= 0) && (sample <= 0 ==> r <= 0)
            && (mul == 0 ==> r == 0) && (mul == Pow2(29) ==> r == sample)
  {
    hide Pow2;
    ScaledSample(mul, sample, Pow2(29));
    KeptInt32(sample * mul / Pow2(29));
    ScaledSample(0, sample, Pow2(29));
    if mul == Pow2(29) {
      ShiftedQuotient(0, sample, Pow2(29));
    }
  }

  /** The scaled sample is the product with the multiplier over 2^29, rounded down. */
  lemma ScaleExact(mul: u32, sample: int32)
    requires mul <= Pow2(29)
    ensures var r := VolumeScale(mul, sample); r * 0x2000_0000 <= sample * mul < (r + 1) * 0x2000_0000
  {
    hide Pow2;
    ScaleAttenuates(mul, sample);
    KeptInt32(sample * mul / Pow2(29));
    FinalShift(ONE);
    FloorOf(sample * mul, 0x2000_0000);
  }

  lemma FloorOf(n: int, k: nat)
    requires k > 0
    ensures n / k * k <= n < (n / k + 1) * k
  {
    assert n == k * (n / k) + n % k;
  }

  /** For any master and channel volume from -60 dB to 0 dB and any mute setting, scaling never
      makes a sample louder or changes its sign, and never overflows; muted channels are silent;
      at 0 dB and unmuted the sample is unchanged. */
  lemma VolumeOnlyAttenuates(volumes: seq<int>, mutes: seq<bool>, i: nat, sample: int32)
    requires i + 1 < |volumes| && i + 1 < |mutes|
    requires -60 * 256 <= volumes[0] <= 0 && -60 * 256 <= volumes[i + 1] <= 0
    ensures var mul := ChannelMultiplier(volumes, mutes, i);
            var r := VolumeScale(mul, sample);
            && Magnitude(r) <= Magnitude(sample)
            && (sample >= 0 ==> r >= 0) && (sample <= 0 ==> r <= 0)
            && FitsInt32(sample * mul / Pow2(MULTIPLIER_FRAC))
            && (mutes[i + 1] || mutes[0] ==> r == 0)
            && (!mutes[i + 1] && !mutes[0] && volumes[0] == 0 && volumes[i + 1] == 0 ==> r == sample)
  {
    hide Pow2, Multiplier, VolumeScale;
    MultiplierAtMostOne(volumes[0] + volumes[i + 1]);
    MultiplierOfZero();
    ScaleAttenuates(ChannelMultiplier(volumes, mutes, i), sample);
  }

  lemma MultiplierOfZero()
    ensures Multiplier(0, 8, 29) == Pow2(29)
  {
    FinalShift(ONE);
  }
}
