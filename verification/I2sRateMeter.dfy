/** rate_server.c: the I2S data rate, measured over the last buckets of sixteen readings. */
module I2sRateMeter {
  import opened Words
  import opened RateWindow
  import opened RateDivision

  const SLOTS: nat := 16
  const READINGS: nat := 16
  const TICKS_PER_SECOND: u32 := 100_000_000

  // ---------------------------------------------------------------- the plain list of readings

  /** The buckets that `n` readings have closed. */
  function Closed(n: nat): (k: nat)
    ensures 16 * k <= n < 16 * (k + 1)
  {
    n / 16
  }

  /** The readings in the bucket being filled. */
  function InBucket(n: nat): (i: nat)
    ensures i < READINGS
  {
    n % 16
  }

  predicate BucketFull(n: nat) {
    n % 16 == 0
  }

  /** How many of `n` readings a query counts: sixteen full buckets and the one being filled. */
  function WindowLength(n: nat): (w: nat)
    requires n > 0
    ensures w <= n && (n <= 272 ==> w == n)
    ensures n > 272 ==> 257 <= w <= 272 && (n - w) % 16 == 0
  {
    Min(n, SLOTS * 16 + (n - 1) % 16 + 1)
  }

  function WindowTotal(readings: seq<int>): u32
    requires readings != []
  {
    Wrap32(Sum(Recent(readings, WindowLength(|readings|))))
  }

  // ---------------------------------------------------------------- buckets

  /** The running total at the end of bucket `j`. */
  function RunningTotal(readings: seq<int>, j: nat): int
    requires 16 * j <= |readings|
  {
    Sum(readings[..16 * j])
  }

  function FirstBoundaries(readings: seq<int>, k: nat): (marks: seq<int>)
    requires 16 * k <= |readings|
    ensures |marks| == k + 1
  {
    seq(k + 1, j requires 0 <= j <= k => RunningTotal(readings, j))
  }

  /** The running total at each bucket boundary. */
  function Boundaries(readings: seq<int>): (marks: seq<int>)
    ensures |marks| == Closed(|readings|) + 1
  {
    FirstBoundaries(readings, Closed(|readings|))
  }

  /** What the bucket being filled holds. */
  function OpenTotal(readings: seq<int>): u32 {
    Wrap32(Sum(readings) - Last(Boundaries(readings)))
  }

  lemma NextBoundary(n: nat)
    ensures Closed(n + 1) == if BucketFull(n + 1) then Closed(n) + 1 else Closed(n)
    ensures BucketFull(n + 1) ==> 16 * (Closed(n) + 1) == n + 1
  {
  }

  lemma RunningTotalStays(readings: seq<int>, x: int, j: nat)
    requires 16 * j <= |readings|
    ensures RunningTotal(readings + [x], j) == RunningTotal(readings, j)
  {
    assert (readings + [x])[..16 * j] == readings[..16 * j];
  }

  lemma RunningTotalOfAll(readings: seq<int>, j: nat)
    requires 16 * j == |readings|
    ensures RunningTotal(readings, j) == Sum(readings)
  {
    assert readings[..16 * j] == readings;
  }

  lemma FirstBoundariesStay(readings: seq<int>, x: int, k: nat)
    requires 16 * k <= |readings|
    ensures FirstBoundaries(readings + [x], k) == FirstBoundaries(readings, k)
  {
    hide Sum, RunningTotal;
    forall j | 0 <= j <= k
      ensures RunningTotal(readings + [x], j) == RunningTotal(readings, j)
    {
      RunningTotalStays(readings, x, j);
    }
  }

  lemma OneMoreBoundary(readings: seq<int>, k: nat)
    requires 16 * (k + 1) == |readings|
    ensures FirstBoundaries(readings, k + 1) == FirstBoundaries(readings, k) + [Sum(readings)]
  {
    hide Sum, RunningTotal;
    RunningTotalOfAll(readings, k + 1);
  }

  lemma BoundariesUpTo(readings: seq<int>, k: nat)
    requires k == Closed(|readings|)
    ensures Boundaries(readings) == FirstBoundaries(readings, k)
  {
  }

  lemma BoundaryAdded(readings: seq<int>, longer: seq<int>, x: int, k: nat)
    requires longer == readings + [x] && k == Closed(|readings|)
    requires Closed(|longer|) == k + 1 && 16 * (k + 1) == |longer|
    ensures Boundaries(longer) == Boundaries(readings) + [Sum(longer)]
  {
    hide Sum, RunningTotal, FirstBoundaries, Boundaries, Closed;
    FirstBoundariesStay(readings, x, k);
    BoundariesUpTo(readings, k);
    BoundariesUpTo(longer, k + 1);
    OneMoreBoundary(longer, k);
  }

  lemma BoundariesKept(readings: seq<int>, longer: seq<int>, x: int, k: nat)
    requires longer == readings + [x] && k == Closed(|readings|) == Closed(|longer|)
    ensures Boundaries(longer) == Boundaries(readings)
  {
    hide Sum, RunningTotal, FirstBoundaries, Boundaries, Closed;
    FirstBoundariesStay(readings, x, k);
    BoundariesUpTo(readings, k);
    BoundariesUpTo(longer, k);
  }

  /** One more reading joins the open bucket, and the sixteenth closes it. */
  lemma NextReading(readings: seq<int>, x: int)
    ensures var longer, size := readings + [x], Wrap32(OpenTotal(readings) + x);
      if BucketFull(|longer|) then
        Steps(Boundaries(longer)) == Steps(Boundaries(readings)) + [size] && OpenTotal(longer) == 0
      else
        Boundaries(longer) == Boundaries(readings) && OpenTotal(longer) == size
  {
    hide Boundaries, Sum, Steps, Wrap32, BucketFull, Closed;
    var longer, k := readings + [x], Closed(|readings|);
    NextBoundary(|readings|);
    if BucketFull(|longer|) {
      BoundaryAdded(readings, longer, x, k);
      StepsAppend(Boundaries(readings), Sum(longer));
    } else {
      BoundariesKept(readings, longer, x, k);
    }
    SumNext(readings, x);
    WrapShift(Sum(readings) - Last(Boundaries(readings)), x);
    WrapZero();
  }

  lemma SumSplit(s: seq<int>, k: nat)
    requires k <= |s|
    ensures Sum(s) == Sum(s[..k]) + Sum(s[k..])
  {
    assert s == s[..k] + s[k..];
    SumAppend(s[..k], s[k..]);
  }

  /** Where the window begins, counted in readings. */
  lemma WindowBegins(n: nat)
    ensures 16 * Max(0, Closed(n) - SLOTS) == n + 1 - WindowLength(n + 1)
  {
  }

  /** The ring total, together with the open bucket, covers the whole window. */
  lemma WindowTotals(readings: seq<int>, x: int)
    ensures Wrap32(Wrap32(OpenTotal(readings) + x) + Wrap32(Sum(Recent(Steps(Boundaries(readings)), SLOTS))))
         == WindowTotal(readings + [x])
  {
    hide Sum, Recent, Steps, Wrap32, WindowLength;
    var longer := readings + [x];
    var k := Closed(|readings|);
    var first := Max(0, k - SLOTS);
    var start := 16 * first;
    RecentSteps(Boundaries(readings), SLOTS);
    WindowBegins(|readings|);
    RecentFrom(longer, start);
    assert longer[..start] == readings[..start];
    SumSplit(longer, start);
    SumNext(readings, x);
    var last := Last(Boundaries(readings));
    WrapShift(Sum(readings) - last, x);
    WrapShift(Sum(readings) - last + x, Wrap32(last - Sum(readings[..start])));
    WrapShift(last - Sum(readings[..start]), Sum(readings) - last + x);
  }

  lemma RecentFrom(s: seq<int>, start: nat)
    requires start <= |s|
    ensures Recent(s, |s| - start) == s[start..]
  {
  }

  // ---------------------------------------------------------------- the meter

  /** What a query answers with: nothing yet, the nominal rate, or samples over ticks. */
  function NominalRate(rate: u32): Float {
    FloatDiv(Float(rate, 0), Float(TICKS_PER_SECOND, 0))
  }

  /** A division by zero ticks has no result. */
  function MeasuredRate(samples: u32, ticks: u32): Option<Float> {
    if ticks == 0 then None else Some(FloatDiv(Float(samples, 0), Float(ticks, 0)))
  }

  /** The statics of `determine_avg_I2S_rate_from_driver`. */
  class Meter {
    const ring: BucketRing
    var current: u32
    var currentTicks: u32
    var counter: u32
    var nominal: u32

    /** The readings taken in since the last change of sampling rate. */
    ghost var ticks: seq<int>
    ghost var samples: seq<int>

    ghost predicate Valid()
      reads this, ring, ring.spans, ring.sizes
    {
      && ring.Valid() && ring.slots == SLOTS
      && |ticks| == |samples|
      && counter == InBucket(|ticks|)
      && currentTicks == OpenTotal(ticks) && current == OpenTotal(samples)
      && ring.closedSpans == Steps(Boundaries(ticks)) && ring.closedSizes == Steps(Boundaries(samples))
    }

    constructor ()
      ensures Valid() && nominal == 0 && ticks == [] && samples == []
      ensures fresh(ring) && fresh(ring.spans) && fresh(ring.sizes)
    {
      ring := new BucketRing(SLOTS);
      current, currentTicks, counter, nominal := 0, 0, 0, 0;
      ticks, samples := [], [];
    }

    /** The part of a query that takes a reading in. */
    method Measure(timespan: u32, numSamples: u32) returns (rate: Option<Float>)
      requires Valid()
      modifies this, ring, ring.spans, ring.sizes
      ensures Valid() && nominal == old(nominal)
      ensures ticks == old(ticks) + [timespan] && samples == old(samples) + [numSamples]
      ensures rate == MeasuredRate(WindowTotal(samples), WindowTotal(ticks))
    {
      hide RingOf, Sum, Recent, Wrap32, Steps, Boundaries, OpenTotal, WindowTotal, WindowLength;
      hide MeasuredRate, InBucket, BucketFull;
      NextReading(ticks, timespan);
      NextReading(samples, numSamples);
      WindowTotals(ticks, timespan);
      WindowTotals(samples, numSamples);
      NextCounter(|ticks|);
      ring.Totals();
      counter := counter + 1;
      current := Wrap32(current + numSamples);
      currentTicks := Wrap32(currentTicks + timespan);
      var olderSamples := SumArray(ring.sizes);
      var olderTicks := SumArray(ring.spans);
      rate := MeasuredRate(Wrap32(current + olderSamples), Wrap32(currentTicks + olderTicks));
      if counter >= READINGS {
        ring.Close(currentTicks, current);
        counter, current, currentTicks := 0, 0, 0;
      }
      ticks, samples := ticks + [timespan], samples + [numSamples];
    }

    /** One query with what the driver reports: the time and the samples of its last interval and
        the nominal sampling rate. */
    method DetermineRate(timespan: u32, numSamples: u32, nominalRate: u32) returns (rate: Option<Float>)
      requires Valid()
      modifies this, ring, ring.spans, ring.sizes
      ensures Valid()
      ensures nominal == if nominalRate == 0 then old(nominal) else nominalRate
      ensures nominalRate == 0 ==> rate == Some(Float(0, 0)) && ticks == old(ticks) && samples == old(samples)
      ensures nominalRate != 0 && nominalRate != old(nominal) ==>
        rate == Some(NominalRate(nominalRate)) && ticks == [] && samples == []
      ensures nominalRate != 0 && nominalRate == old(nominal) && timespan == 0 ==>
        rate == Some(NominalRate(nominalRate)) && ticks == old(ticks) && samples == old(samples)
      ensures nominalRate != 0 && nominalRate == old(nominal) && timespan != 0 ==>
        && ticks == old(ticks) + [timespan] && samples == old(samples) + [numSamples]
        && rate == MeasuredRate(WindowTotal(samples), WindowTotal(ticks))
    {
      hide RingOf, Sum, Recent, Wrap32, Steps, Boundaries, OpenTotal, WindowTotal, WindowLength;
      hide NominalRate, MeasuredRate;
      if nominalRate == 0 {
        return Some(Float(0, 0));
      }
      if nominalRate != nominal {
        counter, currentTicks, current := 0, 0, 0;
        ring.Clear();
        ticks, samples := [], [];
        NothingYet();
        nominal := nominalRate;
        return Some(NominalRate(nominalRate));
      }
      if timespan == 0 {
        return Some(NominalRate(nominal));
      }
      rate := Measure(timespan, numSamples);
    }
  }

  lemma NothingYet()
    ensures Steps(Boundaries([])) == [] && OpenTotal([]) == 0 && InBucket(0) == 0
  {
  }

  lemma NextCounter(n: nat)
    ensures InBucket(n + 1) == if InBucket(n) + 1 >= READINGS then 0 else InBucket(n) + 1
    ensures BucketFull(n + 1) <==> InBucket(n) + 1 >= READINGS
  {
  }

  /** When the driver's readings all lie between two rates and the totals do not wrap, so do the
      totals. */
  lemma TotalsBetween(ticks: seq<int>, samples: seq<int>, low: nat, high: nat, unit: nat)
    requires |ticks| == |samples| > 0
    requires forall i :: 0 <= i < |ticks| ==> low * ticks[i] <= unit * samples[i] <= high * ticks[i]
    requires var w := WindowLength(|ticks|);
      0 <= Sum(Recent(ticks, w)) < TWO32 && 0 <= Sum(Recent(samples, w)) < TWO32
    ensures low * WindowTotal(ticks) <= unit * WindowTotal(samples) <= high * WindowTotal(ticks)
  {
    hide Sum, Wrap32, WindowLength, Recent;
    var w := WindowLength(|ticks|);
    RecentBetween(ticks, samples, low, high, unit, w);
    SumsBetween(Recent(ticks, w), Recent(samples, w), low, high, unit);
    KeptWord32(Sum(Recent(ticks, w)));
    KeptWord32(Sum(Recent(samples, w)));
  }

  lemma RecentBetween(ticks: seq<int>, samples: seq<int>, low: nat, high: nat, unit: nat, w: nat)
    requires |ticks| == |samples|
    requires forall i :: 0 <= i < |ticks| ==> low * ticks[i] <= unit * samples[i] <= high * ticks[i]
    ensures var (t, s) := (Recent(ticks, w), Recent(samples, w));
      |t| == |s| && forall i :: 0 <= i < |t| ==> low * t[i] <= unit * s[i] <= high * t[i]
  {
  }

  /** And so does the rate returned, but for the relative 2^-31 that `float_div` cuts off, or it is 0:
      exactly when one total is the other shifted. */
  lemma MeasuredBetween(ticks: seq<int>, samples: seq<int>, low: nat, high: nat, unit: nat)
    requires |ticks| == |samples| > 0
    requires forall i :: 0 <= i < |ticks| ==> low * ticks[i] <= unit * samples[i] <= high * ticks[i]
    requires var w := WindowLength(|ticks|);
      0 < Sum(Recent(ticks, w)) < TWO32 && 0 < Sum(Recent(samples, w)) < TWO32
    ensures var rate := MeasuredRate(WindowTotal(samples), WindowTotal(ticks));
      && rate.Some?
      && (rate.value.mant == 0 <==> Shifted(WindowTotal(samples), WindowTotal(ticks)))
      && (rate.value.mant != 0 ==>
            && unit as real * Value(rate.value) <= high as real
            && low as real * HALF32 as real <= unit as real * Value(rate.value) * (HALF32 + 1) as real)
  {
    hide FloatDiv, Ratio, Shifted, Normalised, Sum, Exp2;
    TotalsBetween(ticks, samples, low, high, unit);
    var s, t := WindowTotal(samples), WindowTotal(ticks);
    var dividend, divisor := Float(s, 0), Float(t, 0);
    FloatDivExact(dividend, divisor);
    FloatDivLost(dividend, divisor);
    WholeRatio(s, t);
    if FloatDiv(dividend, divisor).mant != 0 {
      RateBetween(s, t, low, high, unit, Value(FloatDiv(dividend, divisor)), Ratio(dividend, divisor));
    }
  }

  lemma WholeRatio(s: u32, t: u32)
    requires t != 0
    ensures Ratio(Float(s, 0), Float(t, 0)) * t as real == s as real
  {
    RatioIsQuotient(Float(s, 0), Float(t, 0));
  }

  lemma RatioWithin(s: nat, t: nat, low: nat, high: nat, unit: nat, ratio: real)
    requires t > 0 && low * t <= unit * s <= high * t && ratio * t as real == s as real
    ensures low as real <= unit as real * ratio <= high as real
  {
    RealProduct(low, t);
    RealProduct(unit, s);
    RealProduct(high, t);
    Regroup(unit as real, ratio, t as real);
    Cancel(unit as real * ratio, high as real, t as real);
    Cancel(low as real, unit as real * ratio, t as real);
  }

  lemma CutOff(low: real, u: real, ratio: real, rate: real, g: real, h: real)
    requires u >= 0.0 && g >= 0.0 && low <= u * ratio && ratio * g <= rate * h
    ensures low * g <= u * rate * h
  {
    Scale(g, low, u * ratio);
    Scale(u, ratio * g, rate * h);
    Regroup(u, ratio, g);
    Regroup(u, rate, h);
  }

  lemma RateBetween(s: nat, t: nat, low: nat, high: nat, unit: nat, rate: real, ratio: real)
    requires t > 0 && low * t <= unit * s <= high * t && ratio * t as real == s as real
    requires rate <= ratio && ratio * HALF32 as real < rate * (HALF32 + 1) as real
    ensures unit as real * rate <= high as real
    ensures low as real * HALF32 as real <= unit as real * rate * (HALF32 + 1) as real
  {
    RatioWithin(s, t, low, high, unit, ratio);
    Scale(unit as real, rate, ratio);
    CutOff(low as real, unit as real, ratio, rate, HALF32 as real, (HALF32 + 1) as real);
  }

  lemma Scale(k: real, x: real, y: real)
    requires k >= 0.0 && x <= y
    ensures k * x <= k * y
  {
    assert k * (y - x) >= 0.0;
  }

  lemma {:induction false} SumsBetween(ticks: seq<int>, samples: seq<int>, low: nat, high: nat, unit: nat)
    requires |ticks| == |samples|
    requires forall i :: 0 <= i < |ticks| ==> low * ticks[i] <= unit * samples[i] <= high * ticks[i]
    ensures low * Sum(ticks) <= unit * Sum(samples) <= high * Sum(ticks)
    decreases |ticks|
  {
    if ticks != [] {
      var n := |ticks| - 1;
      SumsBetween(ticks[..n], samples[..n], low, high, unit);
      Distribute(low, Sum(ticks[..n]), ticks[n]);
      Distribute(unit, Sum(samples[..n]), samples[n]);
      Distribute(high, Sum(ticks[..n]), ticks[n]);
    }
  }

  lemma Distribute(k: int, a: int, b: int)
    ensures k * (a + b) == k * a + k * b
  {
  }

  /** The nominal rate is answered as samples per tick of the clock of 100 MHz: scaled back it is
      the nominal rate but for a relative 2^-31 that `float_div` cuts off, or it is 0, exactly when
      one number is the other shifted. */
  lemma NominalIs(rate: u32)
    requires rate != 0
    ensures var answer := NominalRate(rate);
      && (answer.mant == 0 <==> Shifted(rate, 100_000_000))
      && (answer.mant != 0 ==>
            var back := Value(answer) * 100_000_000.0;
            back <= rate as real && rate as real * HALF32 as real < back * (HALF32 + 1) as real)
  {
    hide FloatDiv, Ratio, Shifted, Normalised, Exp2, Value;
    var dividend, divisor := Float(rate, 0), Float(100_000_000, 0);
    FloatDivExact(dividend, divisor);
    FloatDivLost(dividend, divisor);
    WholeRatio(rate, 100_000_000);
    if FloatDiv(dividend, divisor).mant != 0 {
      ScaledBack(Value(FloatDiv(dividend, divisor)), Ratio(dividend, divisor), 100_000_000.0, rate as real);
    }
  }

  lemma ScaledBack(v: real, ratio: real, ticks: real, rate: real)
    requires ticks > 0.0 && ratio * ticks == rate
    requires v <= ratio && ratio * HALF32 as real < v * (HALF32 + 1) as real
    ensures v * ticks <= rate && rate * HALF32 as real < v * ticks * (HALF32 + 1) as real
  {
    var g, h := HALF32 as real, (HALF32 + 1) as real;
    Cancel(v, ratio, ticks);
    Cancel(v * h, ratio * g, ticks);
    Exchange(ratio, g, ticks);
    Exchange(v, h, ticks);
  }

  /** None of the supported rates is lost. */
  lemma NominalNotLost(rate: u32)
    requires rate in {44100, 48000, 88200, 96000, 176400, 192000}
    ensures NominalRate(rate).mant != 0
  {
    hide FloatDiv;
    NominalIs(rate);
    forall n: nat
      ensures 100_000_000 != rate * Pow2(n) && rate != 100_000_000 * Pow2(n)
    {
      ByThree(rate, Pow2(n));
      MulMono(100_000_000, 1, 100_000_000, Pow2(n));
    }
  }

  lemma ByThree(rate: nat, k: nat)
    requires rate % 3 == 0
    ensures rate * k % 3 == 0
  {
    assert rate * k == 3 * (rate / 3 * k);
  }
}
