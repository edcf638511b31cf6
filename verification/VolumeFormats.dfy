/** dbcalc.c with other numbers of fraction bits than the volume control uses. */
module VolumeFormats {
  import opened Words
  import opened VolumeGain
  import opened VolumeOrder

  // ---------------------------------------------------------------- other numbers of fraction bits

  /** A volume in whole decibels, or with any number of fraction bits up to eight, has the exponent
      of the same volume with eight. */
  lemma SameExponent(db: int, dbFrac: nat)
    requires dbFrac <= 8 && VolumeSum(db * Pow2(8 - dbFrac)) && FitsInt32(db)
    ensures FitsInt32(db * Pow2(8 - dbFrac))
    ensures Exponent(db, dbFrac) == Exponent(db * Pow2(8 - dbFrac), 8)
  {
    hide ToInt32, Pow2, TruncDiv;
    Pow2Sum(8 - dbFrac, 15);
    assert db * Pow2(23 - dbFrac) == db * Pow2(8 - dbFrac) * Pow2(15);
  }

  /** The result with fewer fraction bits than 29 is the one with 29, shifted down; with up to 31 it
      is shifted up, and with 32, where 1.0 no longer fits, up modulo 2^32. */
  lemma OtherFormats(db: int32, dbFrac: nat, resultFrac: nat)
    requires dbFrac <= 8 && db < 0 && VolumeSum(db * Pow2(8 - dbFrac)) && resultFrac <= 32
    ensures FitsInt32(db * Pow2(8 - dbFrac)) && db * Pow2(8 - dbFrac) < 0
    ensures var m, r := Multiplier(db * Pow2(8 - dbFrac), 8, 29), Multiplier(db, dbFrac, resultFrac);
      && (resultFrac <= 28 ==> r * Pow2(29 - resultFrac) <= m < (r + 1) * Pow2(29 - resultFrac))
      && (29 <= resultFrac <= 31 ==> r == m * Pow2(resultFrac - 29))
      && (resultFrac == 32 ==> r == m * 8 % 0x1_0000_0000)
  {
    hide Exponent, Gain, Fraction, WholePart, Pow2, Rescaled;
    SameExponent(db, dbFrac);
    StaysNegative(db, Pow2(8 - dbFrac));
    var v := db * Pow2(8 - dbFrac);
    ExponentInRange(v);
    GainInRange(Exponent(v, 8));
    Doubled(Gain(Exponent(v, 8)));
    if resultFrac <= 28 {
      ShiftedDown(Gain(Exponent(v, 8)), resultFrac);
    } else {
      ShiftedUp(Gain(Exponent(v, 8)), resultFrac);
    }
  }

  lemma StaysNegative(db: int, scale: nat)
    requires db < 0 && scale > 0
    ensures db * scale < 0
  {
    MulMono(1, 1, 0 - db, scale);
    assert (0 - db) * scale == 0 - db * scale;
  }

  lemma ShiftedDown(gain: int, resultFrac: nat)
    requires 0 <= gain <= ONE && resultFrac <= 28
    ensures var r := Rescaled(gain, resultFrac);
      r * Pow2(29 - resultFrac) <= 2 * gain < (r + 1) * Pow2(29 - resultFrac)
  {
    hide Wrap32;
    KeptWord32(gain);
    NextPow2(28 - resultFrac);
    HalfUnits(gain, Pow2(28 - resultFrac), Rescaled(gain, resultFrac));
  }

  lemma NextPow2(n: nat)
    ensures Pow2(n + 1) == 2 * Pow2(n) && Pow2(n) > 0
  {
  }

  lemma HalfUnits(gain: nat, k: nat, r: nat)
    requires k > 0 && r == gain / k
    ensures r * (2 * k) <= 2 * gain < (r + 1) * (2 * k)
  {
    DivBounds(gain, k, r);
    assert r * (2 * k) == 2 * (r * k) && (r + 1) * (2 * k) == 2 * ((r + 1) * k);
  }

  lemma ShiftedUp(gain: int, resultFrac: nat)
    requires 0 <= gain <= ONE && 29 <= resultFrac <= 32
    ensures var r := Rescaled(gain, resultFrac);
      && (resultFrac <= 31 ==> r == 2 * gain * Pow2(resultFrac - 29))
      && (resultFrac == 32 ==> r == 2 * gain * 8 % 0x1_0000_0000)
  {
    hide Wrap32;
    assert Pow2(0) == 1;
    assert Pow2(1) == 2;
    assert Pow2(2) == 4;
    assert Pow2(3) == 8;
    assert Pow2(4) == 16;
    KeptWord32(gain);
    if resultFrac <= 31 {
      KeptWord32(gain * Pow2(resultFrac - 28));
    } else {
      WrapIs(gain * 16);
    }
  }

  lemma WrapIs(x: int)
    ensures Wrap32(x) == x % 0x1_0000_0000
  {
  }
}
