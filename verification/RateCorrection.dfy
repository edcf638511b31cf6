/** rate_server.c: the ratio of two measured rates with the buffer correction added to it. */
module RateCorrection {
  import opened Words
  import opened RateDivision
  import opened BufferLevel

  /** The 64-bit sum of an unsigned ratio and a signed correction. */
  function Corrected(ratio: int, correction: int): int {
    (ratio + correction) % (TWO32 * TWO32)
  }

  /** For measurements at supported rates the sum never wraps, whatever the buffers hold: the ratio
      is changed by exactly the correction, by less than one part in ten thousand, and stays
      positive. */
  lemma CorrectedExactly(samples1: Float, ticks1: Float, samples2: Float, ticks2: Float, correction: int)
    requires samples1.mant != 0 && ticks1.mant != 0 && samples2.mant != 0 && ticks2.mant != 0
    requires !Shifted(samples1.mant, ticks1.mant) && !Shifted(samples2.mant, ticks2.mant)
    requires var exact := Ratio(samples1, ticks1) / Ratio(samples2, ticks2); 1.0 <= 7.0 * exact && exact <= 7.0
    requires -MAX_CORRECTION <= correction <= MAX_CORRECTION
    ensures FloatDiv(samples1, ticks1).mant != 0 && FloatDiv(samples2, ticks2).mant != 0
    ensures var ratio := FixedDiv(FloatDiv(samples1, ticks1), FloatDiv(samples2, ticks2), 60);
      && Corrected(ratio, correction) == ratio + correction > 0
      && ratio * 9999 < Corrected(ratio, correction) * 10000 < ratio * 10001
  {
    hide FloatDiv, FixedDiv, Ratio, Shifted;
    SupportedRange(samples1, ticks1, samples2, ticks2);
  }

  /** The two sums of the rate server, one for each direction, at every state of the averages. */
  lemma CorrectedRatios(i2sSamples: Float, i2sTicks: Float, usbSamples: Float, usbTicks: Float, rate: int,
                        long: Level, short: Level, sent: Level)
    requires i2sSamples.mant != 0 && i2sTicks.mant != 0 && usbSamples.mant != 0 && usbTicks.mant != 0
    requires !Shifted(i2sSamples.mant, i2sTicks.mant) && !Shifted(usbSamples.mant, usbTicks.mant)
    requires var exact := Ratio(i2sSamples, i2sTicks) / Ratio(usbSamples, usbTicks);
             1.0 <= 7.0 * exact && exact <= 7.0
    ensures FloatDiv(i2sSamples, i2sTicks).mant != 0 && FloatDiv(usbSamples, usbTicks).mant != 0
    ensures var i2s, usb := FloatDiv(i2sSamples, i2sTicks), FloatDiv(usbSamples, usbTicks);
      var toUsb, toI2s := UsbCorrection(rate, long, short), I2sCorrection(rate, sent);
      && Corrected(FixedDiv(i2s, usb, 60), toUsb) == FixedDiv(i2s, usb, 60) + toUsb > 0
      && Corrected(FixedDiv(usb, i2s, 60), toI2s) == FixedDiv(usb, i2s, 60) + toI2s > 0
  {
    hide FloatDiv, FixedDiv, Ratio, Shifted, UsbCorrection, I2sCorrection, Corrected;
    Reciprocal(Ratio(i2sSamples, i2sTicks), Ratio(usbSamples, usbTicks));
    CorrectedExactly(i2sSamples, i2sTicks, usbSamples, usbTicks, UsbCorrection(rate, long, short));
    CorrectedExactly(usbSamples, usbTicks, i2sSamples, i2sTicks, I2sCorrection(rate, sent));
  }

  lemma Reciprocal(x: real, y: real)
    requires x > 0.0 && y > 0.0 && 1.0 <= 7.0 * (x / y) && x / y <= 7.0
    ensures 1.0 <= 7.0 * (y / x) && y / x <= 7.0
  {
    var q, r := x / y, y / x;
    assert q * y == x && r * x == y;
    assert q * r == 1.0 by {
      assert (q * r) * (x * y) == (r * x) * (q * y);
      assert x * y > 0.0;
      Cancel(q * r, 1.0, x * y);
      Cancel(1.0, q * r, x * y);
    }
    assert (7.0 * q - 1.0) * r >= 0.0;
    assert (7.0 - q) * r >= 0.0;
  }
}
