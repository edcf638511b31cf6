/** avg_buffer_level.c and the two corrections computed from it: windowed averages of a buffer's
    fill level, and a clamped proportional controller on top of them. */
module BufferLevel {
  import opened Words
  import opened RateWindow

  // ---------------------------------------------------------------- the plain list of levels

  /** The levels since the last reset, cut into full windows and a rest. */
  datatype Chunked = Chunked(windows: seq<seq<int>>, rest: seq<int>)

  function Chunks(levels: seq<int>, w: nat): Chunked {
    if levels == [] then Chunked([], []) else NextChunk(Chunks(levels[..|levels| - 1], w), Last(levels), w)
  }

  function NextChunk(c: Chunked, level: int, w: nat): Chunked {
    var rest := c.rest + [level];
    if |rest| == w then Chunked(c.windows + [rest], []) else Chunked(c.windows, rest)
  }

  function Flatten(windows: seq<seq<int>>): seq<int> {
    if windows == [] then [] else Flatten(windows[..|windows| - 1]) + windows[|windows| - 1]
  }

  predicate CutOf(c: Chunked, levels: seq<int>, w: nat) {
    && Flatten(c.windows) + c.rest == levels
    && |c.rest| < w && forall i :: 0 <= i < |c.windows| ==> |c.windows[i]| == w
  }

  lemma NextCut(c: Chunked, levels: seq<int>, level: int, w: nat)
    requires CutOf(c, levels, w)
    ensures CutOf(NextChunk(c, level, w), levels + [level], w)
  {
    hide Flatten;
    var rest := c.rest + [level];
    FlattenNext(c.windows, rest);
    assert Flatten(c.windows) + rest == levels + [level];
  }

  lemma FlattenNext(windows: seq<seq<int>>, window: seq<int>)
    ensures Flatten(windows + [window]) + [] == Flatten(windows) + window
  {
    assert (windows + [window])[..|windows|] == windows;
  }

  /** Nothing is lost or reordered by the cutting, every window is full and the rest is not. */
  lemma {:induction false} ChunksMeaning(levels: seq<int>, w: nat)
    requires w > 0
    ensures CutOf(Chunks(levels, w), levels, w)
    decreases |levels|
  {
    hide CutOf, NextChunk;
    if levels == [] {
      NoCut(w);
    } else {
      var front := levels[..|levels| - 1];
      ChunksMeaning(front, w);
      NextCut(Chunks(front, w), front, Last(levels), w);
      assert levels == front + [Last(levels)];
    }
  }

  lemma NoCut(w: nat)
    requires w > 0
    ensures CutOf(Chunked([], []), [], w)
  {
  }

  /** A window's mean, rounded down by the arithmetic shift. */
  function Mean(window: seq<int>, log2: nat): int {
    Sum(window) / Pow2(log2)
  }

  /** The first window's mean; from then on half way, towards zero, from the previous average to
      each new mean. The two are added in 32 bits. */
  function Average(windows: seq<seq<int>>, log2: nat): int {
    if windows == [] then 0 else
      var mean := Mean(windows[|windows| - 1], log2);
      if |windows| == 1 then mean else TruncDiv(ToInt32(mean + Average(windows[..|windows| - 1], log2)), 2)
  }

  /** The same in unbounded integers. */
  function PlainAverage(windows: seq<seq<int>>, log2: nat): int {
    if windows == [] then 0 else
      var mean := Mean(windows[|windows| - 1], log2);
      if |windows| == 1 then mean else TruncDiv(mean + PlainAverage(windows[..|windows| - 1], log2), 2)
  }

  /** The number of windows after which the average is declared stable. */
  function Settling(threshold: int): (n: nat) {
    Max(2, threshold + 2)
  }

  /** What the controllers read: the average, and the value it had when declared stable. */
  datatype Level = Level(avg: int, stableAvg: int, stable: bool)

  function LevelAfter(windows: seq<seq<int>>, log2: nat, threshold: int): Level {
    var settling := Settling(threshold);
    var stable := |windows| >= settling;
    Level(Average(windows, log2), if stable then Average(windows[..settling], log2) else 0, stable)
  }

  function LevelOf(levels: seq<int>, log2: nat, threshold: int): Level {
    LevelAfter(Chunks(levels, Pow2(log2)).windows, log2, threshold)
  }

  // ---------------------------------------------------------------- the state

  type int64 = w: int | -0x8000_0000_0000_0000 <= w < 0x8000_0000_0000_0000

  /** The counts of a window and of the windows until the average is stable have 32 bits. */
  predicate Lengths(log2: nat, threshold: int) {
    log2 <= 30 && -0x8000_0000 <= threshold < 0x7fff_ffff
  }

  class BufferCalcState {
    const windowLog2: nat
    const threshold: int32
    var errorAccum: int64
    var avg: int32
    var stableAvg: int32
    var count: int32
    var stableCount: int32
    var firstDone: bool
    var stable: bool

    ghost var levels: seq<int32>

    /** Every field is a function of the levels since the last reset. */
    ghost predicate Valid()
      reads this
    {
      Lengths(windowLog2, threshold) && Follows(Chunks(levels, Pow2(windowLog2)))
    }

    ghost predicate Follows(c: Chunked)
      reads this
    {
      var done, settling := |c.windows|, Settling(threshold);
      && errorAccum == Sum(c.rest) && count == |c.rest| < Pow2(windowLog2)
      && Level(avg, stableAvg, stable) == LevelAfter(c.windows, windowLog2, threshold)
      && firstDone == (done >= 1)
      && stableCount == Max(0, Min(done, settling) - 1)
    }

    constructor (windowLog2: nat, threshold: int32)
      requires Lengths(windowLog2, threshold)
      ensures Valid() && levels == []
      ensures this.windowLog2 == windowLog2 && this.threshold == threshold
    {
      this.windowLog2, this.threshold := windowLog2, threshold;
      errorAccum, avg, stableAvg, count, stableCount := 0, 0, 0, 0, 0;
      firstDone, stable := false, false;
      levels := [];
      Blank(windowLog2);
    }

    method Init()
      requires Lengths(windowLog2, threshold)
      modifies this
      ensures Valid() && levels == []
    {
      errorAccum, avg, stableAvg, count, stableCount := 0, 0, 0, 0, 0;
      firstDone, stable := false, false;
      levels := [];
      Blank(windowLog2);
    }

    /** `calc_avg_buffer_level`. */
    method Update(level: int32, reset: bool)
      requires Valid()
      modifies this
      ensures Valid()
      ensures levels == if reset then [] else old(levels) + [level]
    {
      hide Chunks, Average, Sum, Mean, TruncDiv, Pow2, ToInt32;
      if reset {
        Init();
        return;
      }
      ghost var c := Chunks(levels, Pow2(windowLog2));
      Blank(windowLog2);
      NextLevel(levels, level, Pow2(windowLog2));
      SumNext(c.rest, level);
      NextAverage(c.windows, c.rest + [level], windowLog2);
      LatchStays(c.windows, c.rest + [level], Settling(threshold));
      WidthsKept(levels, level, windowLog2);
      errorAccum := errorAccum + level;
      count := count + 1;
      if count == Pow2(windowLog2) {
        var previous := avg;
        avg := errorAccum / Pow2(windowLog2);
        if firstDone {
          HalfFits(ToInt32(avg + previous));
          avg := TruncDiv(ToInt32(avg + previous), 2);
          if !stable {
            stableCount := stableCount + 1;
            if stableCount > threshold {
              stableAvg := avg;
              stable := true;
            }
          }
        }
        count := 0;
        errorAccum := 0;
        if !firstDone {
          firstDone := true;
        }
      }
      levels := levels + [level];
    }
  }

  lemma NextLevel(levels: seq<int>, level: int, w: nat)
    ensures Chunks(levels + [level], w) == NextChunk(Chunks(levels, w), level, w)
  {
    hide NextChunk;
    assert (levels + [level])[..|levels|] == levels;
  }

  lemma NextAverage(windows: seq<seq<int>>, window: seq<int>, log2: nat)
    ensures var mean := Sum(window) / Pow2(log2);
      Average(windows + [window], log2) ==
        if windows == [] then mean else TruncDiv(ToInt32(mean + Average(windows, log2)), 2)
  {
    hide TruncDiv, Sum, Pow2, ToInt32;
    assert (windows + [window])[..|windows|] == windows;
  }

  lemma HalfFits(x: int32)
    ensures FitsInt32(TruncDiv(x, 2))
  {
  }

  lemma WindowLength(log2: nat)
    requires log2 <= 30
    ensures Pow2(log2) <= 0x4000_0000
  {
    Pow2Sum(log2, 30 - log2);
    MulMono(Pow2(log2), 1, Pow2(log2), Pow2(30 - log2));
    Pow2Sum(10, 10);
    Pow2Sum(10, 20);
    assert Pow2(10) == 1024;
  }

  /** The sum of a window fits 64 bits, its length and its mean 32. */
  lemma WidthsKept(levels: seq<int32>, level: int32, log2: nat)
    requires log2 <= 30
    ensures var rest := Chunks(levels, Pow2(log2)).rest + [level];
      && |rest| <= Pow2(log2) <= 0x4000_0000 && FitsInt64(Sum(rest))
      && (|rest| == Pow2(log2) ==> FitsInt32(Sum(rest) / Pow2(log2)))
  {
    hide Chunks, Sum, Pow2;
    var w := Pow2(log2);
    var rest := Chunks(levels, w).rest + [level];
    WindowLength(log2);
    ChunksMeaning(levels, w);
    WindowsWithin(levels, w, -0x8000_0000, 0x7fff_ffff);
    SumWithin(rest, -0x8000_0000, 0x7fff_ffff);
    if |rest| == w {
      MeanWithin(rest, log2, -0x8000_0000, 0x7fff_ffff);
    }
  }

  lemma LatchStays(windows: seq<seq<int>>, window: seq<int>, n: nat)
    ensures n <= |windows| ==> (windows + [window])[..n] == windows[..n]
    ensures n == |windows| + 1 ==> (windows + [window])[..n] == windows + [window]
  {
  }

  lemma Blank(w: nat)
    ensures Chunks([], w) == Chunked([], []) && Average([], w) == 0 && Sum([]) == 0 && Pow2(w) > 0
  {
  }

  // ---------------------------------------------------------------- bounds

  predicate Within(levels: seq<int>, low: int, high: int) {
    forall i :: 0 <= i < |levels| ==> low <= levels[i] <= high
  }

  lemma {:induction false} SumWithin(levels: seq<int>, low: int, high: int)
    requires Within(levels, low, high)
    ensures low * |levels| <= Sum(levels) <= high * |levels|
    decreases |levels|
  {
    if levels != [] {
      var n := |levels| - 1;
      SumWithin(levels[..n], low, high);
      OneMore(low, n);
      OneMore(high, n);
    }
  }

  lemma OneMore(k: int, n: nat)
    ensures k * (n + 1) == k * n + k
  {
  }

  lemma MeanWithin(window: seq<int>, log2: nat, low: int, high: int)
    requires Within(window, low, high) && |window| == Pow2(log2)
    ensures low <= Mean(window, log2) <= high
  {
    SumWithin(window, low, high);
    var p := Pow2(log2);
    var mean := Mean(window, log2);
    FloorBounds(Sum(window), p);
    CancelInt(low, mean + 1, p);
    CancelInt(high, mean, p);
  }

  lemma FloorBounds(n: int, k: int)
    requires k > 0
    ensures (n / k) * k <= n < (n / k + 1) * k
  {
    assert n == k * (n / k) + n % k;
  }

  /** Two such levels can be added in 32 bits. */
  predicate Halved(low: int, high: int) {
    -0x4000_0000 <= low && high < 0x4000_0000
  }

  /** After the first full window the average lies between the least and the greatest level. */
  lemma {:induction false} AverageWithin(windows: seq<seq<int>>, log2: nat, low: int, high: int)
    requires windows != [] && Halved(low, high)
    requires forall i :: 0 <= i < |windows| ==> |windows[i]| == Pow2(log2) && Within(windows[i], low, high)
    ensures low <= Average(windows, log2) <= high
    decreases |windows|
  {
    hide Mean, Within;
    var n := |windows| - 1;
    MeanWithin(windows[n], log2, low, high);
    if n > 0 {
      AverageWithin(windows[..n], log2, low, high);
      KeptInt32(Mean(windows[n], log2) + Average(windows[..n], log2));
    }
  }

  /** Half of `sum`, rounded towards zero. */
  predicate HalfOf(sum: int, half: int) {
    if sum >= 0 then 0 <= sum - 2 * half <= 1 else 0 <= 2 * half - sum <= 1
  }

  /** One more window, whose mean rounded down is `mean`: the first one sets the average, every
      later one moves it half way, rounded towards zero. */
  lemma AverageStep(windows: seq<seq<int>>, window: seq<int>, log2: nat, mean: int, low: int, high: int)
    requires FullWindows(windows + [window], log2, low, high) && Halved(low, high)
    requires mean * Pow2(log2) <= Sum(window) < (mean + 1) * Pow2(log2)
    ensures if windows == [] then Average(windows + [window], log2) == mean
            else HalfOf(mean + Average(windows, log2), Average(windows + [window], log2))
  {
    hide Within, Sum, Average, ToInt32, Pow2;
    DivUnique(Sum(window), Pow2(log2), mean);
    NextAverage(windows, window, log2);
    var all := windows + [window];
    assert all[|windows|] == window;
    MeanWithin(window, log2, low, high);
    if windows != [] {
      forall i | 0 <= i < |windows|
        ensures |windows[i]| == Pow2(log2) && Within(windows[i], low, high)
      {
        assert all[i] == windows[i];
      }
      AverageWithin(windows, log2, low, high);
      KeptInt32(mean + Average(windows, log2));
    }
  }

  predicate FullWindows(windows: seq<seq<int>>, log2: nat, low: int, high: int) {
    forall i :: 0 <= i < |windows| ==> |windows[i]| == Pow2(log2) && Within(windows[i], low, high)
  }

  lemma {:induction false} PlainIs(windows: seq<seq<int>>, log2: nat, low: int, high: int)
    requires FullWindows(windows, log2, low, high) && Halved(low, high)
    ensures Average(windows, log2) == PlainAverage(windows, log2)
    decreases |windows|
  {
    hide Mean, Within;
    var n := |windows| - 1;
    if n > 0 {
      PlainIs(windows[..n], log2, low, high);
      MeanWithin(windows[n], log2, low, high);
      AverageWithin(windows[..n], log2, low, high);
      KeptInt32(Mean(windows[n], log2) + Average(windows[..n], log2));
    }
  }

  /** Two windows at a level that is too great, and the average is negative. */
  lemma TwoWindows(log2: nat, level: int32)
    requires level >= 0x4000_0000
    ensures var windows := [Flat(level, Pow2(log2)), Flat(level, Pow2(log2))];
      Average(windows, log2) == level - 0x8000_0000 && PlainAverage(windows, log2) == level
  {
    hide Mean;
    var windows := [Flat(level, Pow2(log2)), Flat(level, Pow2(log2))];
    FlatMean(level, log2);
    assert windows[..1] == [Flat(level, Pow2(log2))];
    assert Average(windows[..1], log2) == level == PlainAverage(windows[..1], log2);
  }

  /** The 32-bit average is the plain one for all levels within `bound`, if and only if that is
      below 2^30. */
  lemma AverageExactly(log2: nat, bound: int32)
    requires bound >= 0
    ensures (forall windows :: FullWindows(windows, log2, -bound, bound) ==>
               Average(windows, log2) == PlainAverage(windows, log2))
       <==> bound < 0x4000_0000
  {
    hide Average, PlainAverage;
    if bound < 0x4000_0000 {
      forall windows | FullWindows(windows, log2, -bound, bound)
        ensures Average(windows, log2) == PlainAverage(windows, log2)
      {
        PlainIs(windows, log2, -bound, bound);
      }
    } else {
      var windows := [Flat(bound, Pow2(log2)), Flat(bound, Pow2(log2))];
      TwoWindows(log2, bound);
      assert FullWindows(windows, log2, -bound, bound);
      assert Average(windows, log2) != PlainAverage(windows, log2);
    }
  }

  lemma {:induction false} WindowsWithin(levels: seq<int>, w: nat, low: int, high: int)
    requires Within(levels, low, high)
    ensures var c := Chunks(levels, w);
      Within(c.rest, low, high) && forall i :: 0 <= i < |c.windows| ==> Within(c.windows[i], low, high)
    decreases |levels|
  {
    if levels != [] {
      WindowsWithin(levels[..|levels| - 1], w, low, high);
    }
  }

  /** So do the average declared stable, and the sum in the making. */
  lemma LevelWithin(levels: seq<int>, log2: nat, threshold: int, low: int, high: int)
    requires Within(levels, low, high) && Halved(low, high)
    ensures var c, l := Chunks(levels, Pow2(log2)), LevelOf(levels, log2, threshold);
      && (c.windows != [] ==> low <= l.avg <= high)
      && (l.stable ==> low <= l.stableAvg <= high)
      && low * |c.rest| <= Sum(c.rest) <= high * |c.rest|
  {
    hide Average, Chunks, Sum, Within, Pow2;
    var windows := Chunks(levels, Pow2(log2)).windows;
    ChunksMeaning(levels, Pow2(log2));
    WindowsWithin(levels, Pow2(log2), low, high);
    SumWithin(Chunks(levels, Pow2(log2)).rest, low, high);
    if windows != [] {
      AverageWithin(windows, log2, low, high);
    }
    if |windows| >= Settling(threshold) {
      AverageWithin(windows[..Settling(threshold)], log2, low, high);
    }
  }

  /** Once declared stable, the reference level never changes, whatever levels follow. */
  lemma {:induction false} StableLevelIsFixed(levels: seq<int>, more: seq<int>, log2: nat, threshold: int)
    requires LevelOf(levels, log2, threshold).stable
    ensures LevelOf(levels + more, log2, threshold).stable
    ensures LevelOf(levels + more, log2, threshold).stableAvg == LevelOf(levels, log2, threshold).stableAvg
    decreases |more|
  {
    hide Average, Chunks, Pow2;
    if more == [] {
      assert levels + more == levels;
    } else {
      var front, level := more[..|more| - 1], Last(more);
      StableLevelIsFixed(levels, front, log2, threshold);
      assert levels + more == levels + front + [level];
      var c := Chunks(levels + front, Pow2(log2));
      NextLevel(levels + front, level, Pow2(log2));
      LatchStays(c.windows, c.rest + [level], Settling(threshold));
    }
  }

  lemma {:induction false} FlattenLength(windows: seq<seq<int>>, w: nat)
    requires forall i :: 0 <= i < |windows| ==> |windows[i]| == w
    ensures |Flatten(windows)| == |windows| * w
    decreases |windows|
  {
    if windows != [] {
      var n := |windows| - 1;
      FlattenLength(windows[..n], w);
      assert (n + 1) * w == n * w + w;
    }
  }

  lemma WindowCount(levels: seq<int>, w: nat)
    requires w > 0
    ensures |Chunks(levels, w).windows| * w <= |levels| < (|Chunks(levels, w).windows| + 1) * w
  {
    hide Chunks, Flatten;
    ChunksMeaning(levels, w);
    var c := Chunks(levels, w);
    FlattenLength(c.windows, w);
    assert (|c.windows| + 1) * w == |c.windows| * w + w;
  }

  /** The average is declared stable with the last level of window number `threshold` + 2, or of the
      second one if that comes later; the reference is the average at that moment. */
  lemma StableFrom(levels: seq<int>, log2: nat, threshold: int)
    ensures var n := if threshold <= 0 then 2 else threshold + 2;
      var first, l := n * Pow2(log2), LevelOf(levels, log2, threshold);
      && (l.stable <==> |levels| >= first)
      && (l.stable ==> l.stableAvg == LevelOf(levels[..first], log2, threshold).avg)
  {
    hide Average, Chunks;
    var n, w := Settling(threshold), Pow2(log2);
    var first := n * w;
    Settles(levels, w, n);
    if |levels| >= first {
      assert levels == levels[..first] + levels[first..];
      Settles(levels[..first], w, n);
      StableLevelIsFixed(levels[..first], levels[first..], log2, threshold);
      var windows := Chunks(levels[..first], w).windows;
      WindowCount(levels[..first], w);
      CancelInt(|windows|, n, w);
      assert windows[..n] == windows;
    }
  }

  lemma Settles(levels: seq<int>, w: nat, n: nat)
    requires w > 0
    ensures |Chunks(levels, w).windows| >= n <==> |levels| >= n * w
  {
    hide Chunks;
    WindowCount(levels, w);
    var k := |Chunks(levels, w).windows|;
    if k >= n {
      MulMono(n, w, k, w);
    } else {
      MulMono(k + 1, w, n, w);
    }
  }

  // ---------------------------------------------------------------- the corrections

  const MAX_CORRECTION: int := 1500 * 0x1_0000_0000

  function ToInt64(x: int): int {
    (x + 0x8000_0000_0000_0000) % 0x1_0000_0000_0000_0000 - 0x8000_0000_0000_0000
  }

  /** The gains, with 24 fraction bits cut off as the cast does. */
  function UsbKp(rate: int): int32 {
    if rate == 44100 || rate == 48000 then 4_563402752 * 0x100_0000 / 1_000000000
    else if rate == 88200 || rate == 96000 then 9_39524096 * 0x100_0000 / 1_00000000
    else if rate == 176400 || rate == 192000 then 18_79048192 * 0x100_0000 / 1_00000000
    else 0
  }

  function I2sKp(rate: int): int32 {
    if rate == 44100 || rate == 48000 then 11_542724608 * 0x100_0000 / 1_000000000
    else if rate == 88200 || rate == 96000 then 5_905580032 * 0x100_0000 / 1_000000000
    else if rate == 176400 || rate == 192000 then 3_2749125632 * 0x100_0000 / 1_0000000000
    else 0
  }

  function Clamped(x: int): int {
    if x > MAX_CORRECTION then MAX_CORRECTION else if x < -MAX_CORRECTION then -MAX_CORRECTION else x
  }

  /** The proportional term of an error `d`, in 32- and 64-bit arithmetic. */
  function Term(kp: int32, d: int): int {
    ToInt64(ToInt64(kp * ToInt32(d)) * 256)
  }

  function Correction(kp: int32, level: Level): (c: int)
    ensures -MAX_CORRECTION <= c <= MAX_CORRECTION
  {
    if !level.stable then 0 else Clamped(Term(kp, level.avg - level.stableAvg))
  }

  /** `calc_usb_buffer_based_correction`: outside the guard band the short-term average decides. */
  function UsbCorrection(rate: int, long: Level, short: Level): (c: int)
    ensures -MAX_CORRECTION <= c <= MAX_CORRECTION
  {
    if short.stable && short.avg > 200 then MAX_CORRECTION
    else if short.stable && short.avg < -200 then -MAX_CORRECTION
    else Correction(UsbKp(rate), long)
  }

  /** The correction inside `rate_server`. */
  function I2sCorrection(rate: int, level: Level): (c: int)
    ensures -MAX_CORRECTION <= c <= MAX_CORRECTION
  {
    Correction(I2sKp(rate), level)
  }

  predicate FitsInt64(x: int) {
    -0x8000_0000_0000_0000 <= x < 0x8000_0000_0000_0000
  }

  lemma KeptInt64(x: int)
    ensures ToInt64(x) == x <==> FitsInt64(x)
  {
  }

  lemma ProductFits(kp: nat, d: int)
    requires kp < 0x8000_0000 && FitsInt32(d)
    ensures FitsInt64(kp * d)
  {
    if d >= 0 {
      MulMono(kp, d, 0x8000_0000, 0x8000_0000);
    } else {
      MulMono(kp, 0 - d, 0x8000_0000, 0x8000_0000);
      assert kp * (0 - d) == 0 - kp * d;
    }
  }

  /** The term is exact if and only if the shifted product fits 64 bits. */
  lemma TermExact(kp: int32, d: int)
    requires kp >= 0 && FitsInt32(d)
    ensures Term(kp, d) == kp * d * 256 <==> FitsInt64(kp * d * 256)
  {
    hide ToInt64, ToInt32;
    KeptInt32(d);
    ProductFits(kp, d);
    KeptInt64(kp * d);
    KeptInt64(kp * d * 256);
  }

  // ---------------------------------------------------------------- the widest swing

  /** A window's average only reaches the greatest level while every average before it has. */
  lemma {:induction false} ExtremeStays(windows: seq<seq<int>>, log2: nat, bound: int, n: nat)
    requires 1 <= n <= |windows| && 1 <= bound < 0x4000_0000
    requires forall i :: 0 <= i < |windows| ==> |windows[i]| == Pow2(log2) && Within(windows[i], -bound, bound)
    ensures Average(windows, log2) == bound ==> Average(windows[..n], log2) == bound
    ensures Average(windows, log2) == -bound ==> Average(windows[..n], log2) == -bound
    decreases |windows|
  {
    hide Mean, Within;
    var last := |windows| - 1;
    if n == |windows| {
      assert windows[..n] == windows;
    } else {
      MeanWithin(windows[last], log2, -bound, bound);
      AverageWithin(windows[..last], log2, -bound, bound);
      KeptInt32(Mean(windows[last], log2) + Average(windows[..last], log2));
      ExtremeStays(windows[..last], log2, bound, n);
      assert windows[..last][..n] == windows[..n];
    }
  }

  /** So the error is never twice the greatest level. */
  lemma SwingBelow(levels: seq<int>, log2: nat, threshold: int, bound: int)
    requires 1 <= bound < 0x4000_0000 && Within(levels, -bound, bound)
    ensures var l := LevelOf(levels, log2, threshold);
      l.stable ==> -(2 * bound - 1) <= l.avg - l.stableAvg <= 2 * bound - 1
  {
    hide Average, Chunks, Sum, Within, Pow2;
    var windows, n := Chunks(levels, Pow2(log2)).windows, Settling(threshold);
    LevelWithin(levels, log2, threshold, -bound, bound);
    ChunksMeaning(levels, Pow2(log2));
    WindowsWithin(levels, Pow2(log2), -bound, bound);
    if |windows| >= n {
      ExtremeStays(windows, log2, bound, n);
    }
  }

  // ---------------------------------------------------------------- and how far it reaches

  lemma {:induction false} PartWindow(levels: seq<int>, window: seq<int>, w: nat, k: nat)
    requires k < w && |window| == w && Chunks(levels, w).rest == []
    ensures Chunks(levels + window[..k], w) == Chunked(Chunks(levels, w).windows, window[..k])
  {
    hide Chunks;
    if k == 0 {
      assert levels + window[..0] == levels;
    } else {
      PartWindow(levels, window, w, k - 1);
      NextLevel(levels + window[..k - 1], window[k - 1], w);
      assert levels + window[..k - 1] + [window[k - 1]] == levels + window[..k];
      assert window[..k - 1] + [window[k - 1]] == window[..k];
    }
  }

  lemma WholeWindow(levels: seq<int>, window: seq<int>, w: nat)
    requires w > 0 && |window| == w && Chunks(levels, w).rest == []
    ensures Chunks(levels + window, w) == Chunked(Chunks(levels, w).windows + [window], [])
  {
    hide Chunks;
    PartWindow(levels, window, w, w - 1);
    NextLevel(levels + window[..w - 1], window[w - 1], w);
    assert levels + window[..w - 1] + [window[w - 1]] == levels + window;
    assert window[..w - 1] + [window[w - 1]] == window;
  }

  /** Levels that come in whole windows are cut into those windows. */
  lemma {:induction false} ChunksOfWindows(windows: seq<seq<int>>, w: nat)
    requires w > 0 && forall i :: 0 <= i < |windows| ==> |windows[i]| == w
    ensures Chunks(Flatten(windows), w) == Chunked(windows, [])
    decreases |windows|
  {
    hide Chunks;
    if windows == [] {
      Blank(0);
      NoLevels(w);
    } else {
      var n := |windows| - 1;
      ChunksOfWindows(windows[..n], w);
      WholeWindow(Flatten(windows[..n]), windows[n], w);
      assert windows[..n] + [windows[n]] == windows;
    }
  }

  lemma NoLevels(w: nat)
    ensures Chunks([], w) == Chunked([], [])
  {
  }

  function Flat(level: int, w: nat): seq<int> {
    seq(w, _ => level)
  }

  /** `settling` windows at `-low`, then `n` windows at `high`. */
  function Swing(low: int, high: int, w: nat, settling: nat, n: nat): (windows: seq<seq<int>>)
    ensures |windows| == settling + n
    ensures forall i :: 0 <= i < |windows| ==> windows[i] == Flat(if i < settling then -low else high, w)
  {
    seq(settling + n, i requires 0 <= i < settling + n => Flat(if i < settling then -low else high, w))
  }

  lemma FlatMean(level: int, log2: nat)
    ensures Mean(Flat(level, Pow2(log2)), log2) == level
  {
    MeanWithin(Flat(level, Pow2(log2)), log2, level, level);
  }

  lemma SettledAverage(low: int, high: int, log2: nat, settling: nat, n: nat)
    requires settling >= 1 && -0x4000_0000 < low <= 0x4000_0000
    ensures Average(Swing(low, high, Pow2(log2), settling, n)[..settling], log2) == -low
  {
    AverageWithin(Swing(low, high, Pow2(log2), settling, n)[..settling], log2, -low, -low);
  }

  /** Each window brings the average half way up, rounded down, until it is one short of `high`. */
  lemma {:induction false} Climb(low: int, high: int, log2: nat, settling: nat, n: nat)
    requires settling >= 1 && 0 <= low <= high && 1 <= high < 0x4000_0000
    ensures 1 <= high - Average(Swing(low, high, Pow2(log2), settling, n), log2) <= Max(1, low + high - n)
  {
    hide Mean, Swing, Average;
    var w := Pow2(log2);
    var windows := Swing(low, high, w, settling, n);
    if n == 0 {
      SettledAverage(low, high, log2, settling, 0);
      assert windows[..settling] == windows;
    } else {
      Climb(low, high, log2, settling, n - 1);
      var front := Swing(low, high, w, settling, n - 1);
      assert windows == front + [Flat(high, w)];
      NextAverage(front, Flat(high, w), log2);
      FlatMean(high, log2);
      MeanIs(Flat(high, w), log2);
      KeptInt32(high + Average(front, log2));
      Halfway(high, Average(front, log2));
    }
  }

  lemma MeanIs(window: seq<int>, log2: nat)
    ensures Mean(window, log2) == Sum(window) / Pow2(log2)
  {
  }

  lemma Halfway(high: int, avg: int)
    requires avg < high && high + avg >= 0
    ensures high - TruncDiv(high + avg, 2) == (high - avg + 1) / 2
  {
  }

  /** Every error up to twice the greatest level less one is reached by some list of levels. */
  lemma SwingReaches(d: nat, log2: nat, threshold: int, bound: int) returns (levels: seq<int>)
    requires 1 <= d <= 2 * bound - 1 && bound < 0x4000_0000
    ensures Within(levels, -bound, bound)
    ensures var l := LevelOf(levels, log2, threshold); l.stable && l.avg - l.stableAvg == d
  {
    hide Chunks, Average, Pow2, Swing;
    var low := (d + 1) / 2;
    var high := d + 1 - low;
    var settling, n := Settling(threshold), low + high;
    var windows := Swing(low, high, Pow2(log2), settling, n);
    levels := Flatten(windows);
    Climb(low, high, log2, settling, n);
    SettledAverage(low, high, log2, settling, n);
    ChunksOfWindows(windows, Pow2(log2));
    FlattenWithin(windows, -bound, bound);
  }

  lemma {:induction false} FlattenWithin(windows: seq<seq<int>>, low: int, high: int)
    requires forall i :: 0 <= i < |windows| ==> Within(windows[i], low, high)
    ensures Within(Flatten(windows), low, high)
    decreases |windows|
  {
    if windows != [] {
      FlattenWithin(windows[..|windows| - 1], low, high);
    }
  }

  // ---------------------------------------------------------------- exactly when the correction is right

  /** For levels within `bound` neither the product nor the shift overflows as long as the gain
      times the widest swing fits: the correction is the exact proportional term, clamped. */
  lemma CorrectionExact(kp: int32, levels: seq<int>, log2: nat, threshold: int, bound: int)
    requires kp >= 0 && 1 <= bound < 0x4000_0000 && Within(levels, -bound, bound)
    requires FitsInt64(kp * (2 * bound - 1) * 256)
    ensures var l := LevelOf(levels, log2, threshold);
      Correction(kp, l) == if l.stable then Clamped(kp * (l.avg - l.stableAvg) * 256) else 0
  {
    hide LevelOf, Within, Clamped, Term;
    SwingBelow(levels, log2, threshold, bound);
    var l := LevelOf(levels, log2, threshold);
    if l.stable {
      var d := l.avg - l.stableAvg;
      TermFits(kp, d, 2 * bound - 1);
      TermExact(kp, d);
    }
  }

  lemma TermFits(kp: nat, d: int, widest: nat)
    requires 0 - widest <= d <= widest && kp * widest * 256 < 0x8000_0000_0000_0000
    ensures FitsInt64(kp * d * 256)
  {
    if d >= 0 {
      MulMono(kp, d, kp, widest);
    } else {
      MulMono(kp, 0 - d, kp, widest);
      assert kp * (0 - d) == 0 - kp * d;
    }
  }

  /** `c` is `e`, held between -1500 and 1500 times 2^32. */
  predicate Saturates(c: int, e: int) {
    && (c == e <==> -6_442_450_944_000 <= e <= 6_442_450_944_000)
    && (e > 6_442_450_944_000 ==> c == 6_442_450_944_000)
    && (e < -6_442_450_944_000 ==> c == -6_442_450_944_000)
  }

  /** In that range the correction is the gain times the error times 256 up to its limit, and the
      limit beyond; without a stable average it is 0. */
  lemma CorrectionSaturates(kp: int32, levels: seq<int>, log2: nat, threshold: int, bound: int)
    requires kp >= 0 && 1 <= bound < 0x4000_0000 && Within(levels, -bound, bound)
    requires FitsInt64(kp * (2 * bound - 1) * 256)
    ensures var l := LevelOf(levels, log2, threshold);
      if l.stable then Saturates(Correction(kp, l), kp * (l.avg - l.stableAvg) * 256) else Correction(kp, l) == 0
  {
    hide LevelOf, Within, Term, FitsInt64;
    CorrectionExact(kp, levels, log2, threshold, bound);
    var l := LevelOf(levels, log2, threshold);
    if l.stable {
      ClampedSaturates(kp * (l.avg - l.stableAvg) * 256);
    }
  }

  lemma ClampedSaturates(e: int)
    ensures Saturates(Clamped(e), e)
  {
  }

  /** The gains of the three pairs of rates, with 24 fraction bits. */
  lemma Gains(rate: int)
    ensures UsbKp(rate) == match rate
                           case 44100 => 76561193 case 48000 => 76561193
                           case 88200 => 157625986 case 96000 => 157625986
                           case 176400 => 315251973 case 192000 => 315251973
                           case _ => 0
    ensures I2sKp(rate) == match rate
                           case 44100 => 193654783 case 48000 => 193654783
                           case 88200 => 99079191 case 96000 => 99079191
                           case 176400 => 54943915 case 192000 => 54943915
                           case _ => 0
  {
  }

  /** The correction has the sign of the error. */
  predicate PushesBack(kp: int32, l: Level) {
    l.stable ==>
      && (Correction(kp, l) > 0 <==> l.avg > l.stableAvg)
      && (Correction(kp, l) < 0 <==> l.avg < l.stableAvg)
  }

  /** One term too large wraps to the far negative end. */
  lemma JustTooLarge(kp: int32, d: int)
    requires kp > 0 && 0 < d && FitsInt32(d)
    requires kp * d * 256 >= 0x8000_0000_0000_0000 > kp * (d - 1) * 256
    ensures Clamped(Term(kp, d)) == -MAX_CORRECTION
  {
    hide ToInt32;
    KeptInt32(d);
    ProductFits(kp, d);
    KeptInt64(kp * d);
    assert kp * d == kp * (d - 1) + kp;
  }

  /** With a gain `kp` the correction pushes every buffer within `bound` back, whatever its history,
      if and only if the gain times the widest swing fits 64 bits. */
  lemma PushesBackExactly(kp: int32, log2: nat, threshold: int, bound: int)
    requires kp > 0 && 1 <= bound < 0x4000_0000
    ensures (forall levels :: Within(levels, -bound, bound) ==> PushesBack(kp, LevelOf(levels, log2, threshold)))
       <==> FitsInt64(kp * (2 * bound - 1) * 256)
  {
    hide LevelOf, Within, Correction, Clamped, Term;
    if FitsInt64(kp * (2 * bound - 1) * 256) {
      forall levels | Within(levels, -bound, bound)
        ensures PushesBack(kp, LevelOf(levels, log2, threshold))
      {
        CorrectionExact(kp, levels, log2, threshold, bound);
        var l := LevelOf(levels, log2, threshold);
        SignOfProduct(kp, l.avg - l.stableAvg);
        SignOfClamped(kp * (l.avg - l.stableAvg) * 256);
      }
    } else {
      var levels := WrongWay(kp, log2, threshold, bound);
      assert !PushesBack(kp, LevelOf(levels, log2, threshold));
    }
  }

  lemma SignOfClamped(x: int)
    ensures Clamped(x) > 0 <==> x > 0
    ensures Clamped(x) < 0 <==> x < 0
  {
  }

  /** Otherwise there are levels whose average lies above the stable one and that are answered with
      the full correction the other way. */
  lemma WrongWay(kp: int32, log2: nat, threshold: int, bound: int) returns (levels: seq<int>)
    requires kp > 0 && 1 <= bound < 0x4000_0000
    requires !FitsInt64(kp * (2 * bound - 1) * 256)
    ensures Within(levels, -bound, bound)
    ensures var l := LevelOf(levels, log2, threshold);
      l.stable && l.avg > l.stableAvg && Correction(kp, l) == -MAX_CORRECTION
  {
    hide LevelOf, Within, Clamped, Term;
    MulMono(0, 0, kp, 2 * bound - 1);
    var d := LeastTooLarge(kp, 2 * bound - 1);
    levels := SwingReaches(d, log2, threshold, bound);
    JustTooLarge(kp, d);
  }

  lemma {:induction false} LeastTooLarge(kp: nat, widest: nat) returns (d: nat)
    requires widest >= 1 && kp * widest * 256 >= 0x8000_0000_0000_0000
    ensures 1 <= d <= widest && kp * d * 256 >= 0x8000_0000_0000_0000 > kp * (d - 1) * 256
    decreases widest
  {
    if widest == 1 || kp * (widest - 1) * 256 < 0x8000_0000_0000_0000 {
      d := widest;
    } else {
      d := LeastTooLarge(kp, widest - 1);
    }
  }

  lemma GainsInRange(rate: int)
    ensures UsbKp(rate) >= 0 && I2sKp(rate) >= 0
    ensures UsbKp(rate) > 0 <==> I2sKp(rate) > 0
    ensures UsbKp(rate) > 0 <==> rate in {44100, 48000, 88200, 96000, 176400, 192000}
  {
  }

  /** The greatest level for which a gain is safe. */
  function SafeLevel(kp: int): int
    requires kp > 0
  {
    (0x7fff_ffff_ffff_ffff / (256 * kp) + 1) / 2
  }

  lemma SafeLevelExact(kp: int, bound: int)
    requires kp > 0 && bound >= 1
    ensures FitsInt64(kp * (2 * bound - 1) * 256) <==> bound <= SafeLevel(kp)
  {
    var widest, q := 2 * bound - 1, 0x7fff_ffff_ffff_ffff / (256 * kp);
    DivBounds(0x7fff_ffff_ffff_ffff, 256 * kp, q);
    assert kp * widest * 256 == widest * (256 * kp);
    CancelInt(q, widest, 256 * kp);
    MulMono(0, 0, kp, widest);
    if widest <= q {
      CancelInt(widest, q + 1, 256 * kp);
      assert widest * (256 * kp) <= q * (256 * kp) by {
        MulMono(widest, 256 * kp, q, 256 * kp);
      }
    } else {
      MulMono(q + 1, 256 * kp, widest, 256 * kp);
    }
  }

  lemma SafeLevelIs(kp: int, level: int)
    requires kp > 0
    requires (2 * level - 1) * (256 * kp) <= 0x7fff_ffff_ffff_ffff < (2 * level + 1) * (256 * kp)
    ensures SafeLevel(kp) == level
  {
    var q := 0x7fff_ffff_ffff_ffff / (256 * kp);
    DivBounds(0x7fff_ffff_ffff_ffff, 256 * kp, q);
    CancelInt(2 * level - 1, q + 1, 256 * kp);
    CancelInt(q, 2 * level + 1, 256 * kp);
  }

  /** With a gain `kp` every buffer within `bound` is pushed back, whatever its history, if and only
      if `bound` is at most that level. */
  lemma SafeLevelPushesBack(kp: int32, log2: nat, threshold: int, bound: int)
    requires kp > 0 && 1 <= bound < 0x4000_0000
    ensures (forall levels :: Within(levels, -bound, bound) ==> PushesBack(kp, LevelOf(levels, log2, threshold)))
       <==> bound <= SafeLevel(kp)
  {
    hide SafeLevel, LevelOf, Within, PushesBack, FitsInt64;
    PushesBackExactly(kp, log2, threshold, bound);
    SafeLevelExact(kp, bound);
  }

  lemma SafeLevelValues()
    ensures SafeLevel(UsbKp(48000)) == 235_294_120 && SafeLevel(I2sKp(48000)) == 93_023_256
    ensures SafeLevel(UsbKp(96000)) == 114_285_715 && SafeLevel(I2sKp(96000)) == 181_818_183
    ensures SafeLevel(UsbKp(192000)) == 57_142_857 && SafeLevel(I2sKp(192000)) == 327_868_855
  {
    hide SafeLevel;
    SafeLevelIs(UsbKp(48000), 235_294_120);
    SafeLevelIs(UsbKp(96000), 114_285_715);
    SafeLevelIs(UsbKp(192000), 57_142_857);
    SafeLevelIs(I2sKp(48000), 93_023_256);
    SafeLevelIs(I2sKp(96000), 181_818_183);
    SafeLevelIs(I2sKp(192000), 327_868_855);
  }

  /** The greatest safe level for each of the six gains, in samples from half full. */
  function UsbSafeLevel(rate: int): int {
    if rate == 44100 || rate == 48000 then 235_294_120
    else if rate == 88200 || rate == 96000 then 114_285_715
    else 57_142_857
  }

  function I2sSafeLevel(rate: int): int {
    if rate == 44100 || rate == 48000 then 93_023_256
    else if rate == 88200 || rate == 96000 then 181_818_183
    else 327_868_855
  }

  /** At every supported rate the correction pushes every buffer within `bound` back if and only if
      that is at most the level for the rate. */
  lemma SafeLevels(rate: int, log2: nat, threshold: int, bound: int)
    requires UsbKp(rate) > 0 && 1 <= bound < 0x4000_0000
    ensures (forall levels :: Within(levels, -bound, bound) ==>
               PushesBack(UsbKp(rate), LevelOf(levels, log2, threshold)))
       <==> bound <= UsbSafeLevel(rate)
    ensures (forall levels :: Within(levels, -bound, bound) ==>
               PushesBack(I2sKp(rate), LevelOf(levels, log2, threshold)))
       <==> bound <= I2sSafeLevel(rate)
  {
    hide SafeLevel, LevelOf, Within, PushesBack;
    GainsInRange(rate);
    SafeLevelValues();
    SafeLevelPushesBack(UsbKp(rate), log2, threshold, bound);
    SafeLevelPushesBack(I2sKp(rate), log2, threshold, bound);
  }

  /** Both corrections at every supported rate and for every buffer within the safe level: the gain
      times the error times 256, held between the limits. */
  lemma CorrectionsSaturate(rate: int, levels: seq<int>, log2: nat, threshold: int, bound: int, short: Level)
    requires UsbKp(rate) > 0 && 1 <= bound < 0x4000_0000 && Within(levels, -bound, bound)
    requires LevelOf(levels, log2, threshold).stable
    ensures var l := LevelOf(levels, log2, threshold);
      && (bound <= UsbSafeLevel(rate) && (short.stable ==> -200 <= short.avg <= 200) ==>
            Saturates(UsbCorrection(rate, l, short), UsbKp(rate) * (l.avg - l.stableAvg) * 256))
      && (bound <= I2sSafeLevel(rate) ==>
            Saturates(I2sCorrection(rate, l), I2sKp(rate) * (l.avg - l.stableAvg) * 256))
  {
    hide LevelOf, Within, Correction, Saturates, SafeLevel, FitsInt64;
    GainsInRange(rate);
    SafeLevelValues();
    SafeLevelExact(UsbKp(rate), bound);
    SafeLevelExact(I2sKp(rate), bound);
    if bound <= UsbSafeLevel(rate) {
      CorrectionSaturates(UsbKp(rate), levels, log2, threshold, bound);
    }
    if bound <= I2sSafeLevel(rate) {
      CorrectionSaturates(I2sKp(rate), levels, log2, threshold, bound);
    }
  }

  /** At every supported rate both corrections push every buffer within 2^25 samples back. */
  lemma CorrectionsPushBack(rate: int, levels: seq<int>, log2: nat, threshold: int)
    requires Within(levels, -0x200_0000, 0x200_0000) && UsbKp(rate) > 0
    ensures PushesBack(UsbKp(rate), LevelOf(levels, log2, threshold))
    ensures PushesBack(I2sKp(rate), LevelOf(levels, log2, threshold))
  {
    hide LevelOf, Correction, Within;
    GainsInRange(rate);
    PushesBackExactly(UsbKp(rate), log2, threshold, 0x200_0000);
    PushesBackExactly(I2sKp(rate), log2, threshold, 0x200_0000);
  }

  lemma SignOfProduct(k: int, d: int)
    requires k > 0
    ensures k * d > 0 <==> d > 0
    ensures k * d < 0 <==> d < 0
  {
    if d > 0 {
      MulMono(1, 1, k, d);
    } else if d < 0 {
      MulMono(1, 1, k, 0 - d);
    }
  }

  lemma StableMeansAveraged(windows: seq<seq<int>>, log2: nat, threshold: int)
    ensures LevelAfter(windows, log2, threshold).stable ==> windows != []
  {
  }

  /** The guard band end to end: while every level of the short-term average lies above 200 samples
      the correction is the full one, below -200 the full one the other way, and while every level
      lies inside the band the short-term average has no say. */
  lemma GuardActs(rate: int, long: Level, levels: seq<int>, log2: nat, threshold: int, low: int, high: int)
    requires Within(levels, low, high) && Halved(low, high) && LevelOf(levels, log2, threshold).stable
    ensures var c := UsbCorrection(rate, long, LevelOf(levels, log2, threshold));
      && (low > 200 ==> c == MAX_CORRECTION)
      && (high < -200 ==> c == -MAX_CORRECTION)
      && (-200 <= low && high <= 200 ==> c == Correction(UsbKp(rate), long))
  {
    hide LevelAfter, Chunks, Within, Sum, Pow2, Correction, UsbKp;
    LevelWithin(levels, log2, threshold, low, high);
    StableMeansAveraged(Chunks(levels, Pow2(log2)).windows, log2, threshold);
  }
}
