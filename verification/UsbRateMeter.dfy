/** adaptive_rate_callback.c: the USB data rate, measured over the last quarter-second buckets. */
module UsbRateMeter {
  import opened Words
  import opened RateWindow

  const SLOTS: nat := 64
  const TICKS_PER_SECOND: u32 := 100_000_000
  const BUCKET_TICKS: u32 := 25_000_000

  /** One USB transfer: when it came, and how many samples per channel it carried. */
  datatype Packet = Packet(time: u32, samples: u32)

  datatype RateInfo = RateInfo(samples: u32, ticks: u32)

  // ---------------------------------------------------------------- the plain list of packets

  function Received(packets: seq<Packet>): int {
    if packets == [] then 0 else Received(packets[..|packets| - 1]) + packets[|packets| - 1].samples
  }

  /** The opening of a bucket: which packet did it, its clock, and the samples up to and with it. */
  datatype Opening = Opening(index: nat, time: u32, count: int)

  /** Packet `x`, number `n`, opens a bucket when its clock reads a quarter of a second or more
      past the last opening. */
  function Extended(openings: seq<Opening>, n: nat, x: Packet, count: int): (longer: seq<Opening>)
    requires openings != []
    ensures longer != []
  {
    if Wrap32(x.time - Last(openings).time) >= BUCKET_TICKS then openings + [Opening(n, x.time, count)] else openings
  }

  /** Buckets open at the first packet, and at each packet whose clock reads a quarter of a second
      or more past the last opening. */
  function Openings(packets: seq<Packet>): (openings: seq<Opening>)
    requires packets != []
    ensures openings != []
    decreases |packets|
  {
    var n := |packets| - 1;
    if n == 0 then [Opening(0, packets[0].time, packets[0].samples)]
    else Extended(Openings(packets[..n]), n, packets[n], Received(packets))
  }

  /** The opening where the window of the next query begins: 64 closed buckets back, or the very
      first. */
  function WindowStart(packets: seq<Packet>): Opening
    requires packets != []
  {
    var openings := Openings(packets);
    openings[Max(0, |openings| - 1 - SLOTS)]
  }

  /** What a query made by packet `x` should report: the samples and the time since the window
      began. */
  function Reported(packets: seq<Packet>, x: Packet): RateInfo
    requires packets != []
  {
    var start := WindowStart(packets);
    RateInfo(Wrap32(Received(packets + [x]) - start.count), Wrap32(x.time - start.time))
  }

  /** What the openings mean, without the recursion. */
  predicate Quarterly(packets: seq<Packet>, openings: seq<Opening>) {
    && openings != [] && openings[0].index == 0
    && (forall j :: 0 <= j < |openings| ==> Marks(packets, openings[j]))
    && (forall j :: 0 < j < |openings| ==> Follows(packets, openings[j - 1], openings[j]))
    && NoneDue(packets, Last(openings), |packets|)
  }

  predicate Marks(packets: seq<Packet>, o: Opening) {
    && o.index < |packets| && o.time == packets[o.index].time
    && o.count == Received(packets[..o.index + 1])
  }

  /** No packet after `o` and before number `end` comes a quarter of a second past it. */
  predicate NoneDue(packets: seq<Packet>, o: Opening, end: nat) {
    forall i :: o.index < i < end && i < |packets| ==> Wrap32(packets[i].time - o.time) < 25_000_000
  }

  predicate Follows(packets: seq<Packet>, o: Opening, next: Opening) {
    && o.index < next.index
    && Wrap32(next.time - o.time) >= 25_000_000
    && NoneDue(packets, o, next.index)
  }

  /** The openings of a longer list. */
  lemma NextOpening(packets: seq<Packet>, x: Packet)
    requires packets != []
    ensures Received(packets + [x]) == Received(packets) + x.samples
    ensures Openings(packets + [x]) == Extended(Openings(packets), |packets|, x, Received(packets + [x]))
  {
    hide Extended, Wrap32;
    assert (packets + [x])[..|packets|] == packets;
  }

  lemma MarksStay(packets: seq<Packet>, x: Packet, o: Opening)
    requires Marks(packets, o)
    ensures Marks(packets + [x], o)
  {
    assert (packets + [x])[..o.index + 1] == packets[..o.index + 1];
  }

  lemma FollowsStays(packets: seq<Packet>, x: Packet, o: Opening, next: Opening)
    requires Follows(packets, o, next) && next.index < |packets|
    ensures Follows(packets + [x], o, next)
  {
  }

  lemma NewestMarks(packets: seq<Packet>, x: Packet)
    ensures Marks(packets + [x], Opening(|packets|, x.time, Received(packets + [x])))
  {
    assert (packets + [x])[..|packets| + 1] == packets + [x];
  }

  lemma NoneDueYet(packets: seq<Packet>, x: Packet, o: Opening)
    requires NoneDue(packets, o, |packets|)
    ensures NoneDue(packets + [x], o, |packets|)
    ensures Wrap32(x.time - o.time) < BUCKET_TICKS ==> NoneDue(packets + [x], o, |packets| + 1)
  {
  }

  lemma FollowsNow(packets: seq<Packet>, x: Packet, o: Opening, count: int)
    requires o.index < |packets| && NoneDue(packets, o, |packets|) && Wrap32(x.time - o.time) >= BUCKET_TICKS
    ensures Follows(packets + [x], o, Opening(|packets|, x.time, count))
  {
  }

  /** What the openings so far mean, still true of the longer list. */
  lemma OldOpenings(packets: seq<Packet>, x: Packet, openings: seq<Opening>)
    requires Quarterly(packets, openings)
    ensures forall j :: 0 <= j < |openings| ==> Marks(packets + [x], openings[j]) && openings[j].index < |packets|
    ensures forall j :: 0 < j < |openings| ==> Follows(packets + [x], openings[j - 1], openings[j])
  {
    hide Wrap32, Marks, NoneDue, Received, Follows;
    forall j | 0 <= j < |openings|
      ensures Marks(packets + [x], openings[j]) && openings[j].index < |packets|
    {
      MarksBound(packets, openings[j]);
      MarksStay(packets, x, openings[j]);
    }
    forall j | 0 < j < |openings|
      ensures Follows(packets + [x], openings[j - 1], openings[j])
    {
      FollowsStays(packets, x, openings[j - 1], openings[j]);
    }
  }

  /** A packet that comes too soon opens nothing. */
  lemma QuarterlyJoin(packets: seq<Packet>, x: Packet, openings: seq<Opening>)
    requires Quarterly(packets, openings) && Wrap32(x.time - Last(openings).time) < BUCKET_TICKS
    ensures Quarterly(packets + [x], openings)
  {
    hide Wrap32, Marks, NoneDue, Received, Follows;
    OldOpenings(packets, x, openings);
    NoneDueYet(packets, x, Last(openings));
  }

  lemma QuarterlyOpen(packets: seq<Packet>, x: Packet, openings: seq<Opening>, o: Opening)
    requires Quarterly(packets, openings) && Wrap32(x.time - Last(openings).time) >= BUCKET_TICKS
    requires o == Opening(|packets|, x.time, Received(packets + [x]))
    ensures Quarterly(packets + [x], openings + [o])
  {
    hide Wrap32, Marks, NoneDue, Received, Follows;
    OldOpenings(packets, x, openings);
    LastIndex(packets, openings);
    NewestMarks(packets, x);
    FollowsNow(packets, x, Last(openings), o.count);
    NothingAfter(packets + [x], o);
  }

  lemma LastIndex(packets: seq<Packet>, openings: seq<Opening>)
    requires Quarterly(packets, openings)
    ensures Last(openings).index < |packets| && NoneDue(packets, Last(openings), |packets|)
  {
  }

  lemma QuarterlyStep(packets: seq<Packet>, x: Packet, openings: seq<Opening>)
    requires Quarterly(packets, openings)
    ensures Quarterly(packets + [x], Extended(openings, |packets|, x, Received(packets + [x])))
  {
    hide Wrap32, Quarterly, Received, Extended, Last;
    NonEmpty(packets, openings);
    ExtendedIs(openings, |packets|, x, Received(packets + [x]));
    if Wrap32(x.time - Last(openings).time) >= BUCKET_TICKS {
      QuarterlyOpen(packets, x, openings, Opening(|packets|, x.time, Received(packets + [x])));
    } else {
      QuarterlyJoin(packets, x, openings);
    }
  }

  lemma ExtendedIs(openings: seq<Opening>, n: nat, x: Packet, count: int)
    requires openings != []
    ensures var longer := Extended(openings, n, x, count);
      if Wrap32(x.time - Last(openings).time) >= BUCKET_TICKS then longer == openings + [Opening(n, x.time, count)]
      else longer == openings
  {
    hide Wrap32, Last;
  }

  lemma NonEmpty(packets: seq<Packet>, openings: seq<Opening>)
    requires Quarterly(packets, openings)
    ensures openings != []
  {
  }

  lemma MarksBound(packets: seq<Packet>, o: Opening)
    requires Marks(packets, o)
    ensures o.index < |packets|
  {
  }

  lemma QuarterlyStart(x: Packet)
    ensures Quarterly([x], [Opening(0, x.time, x.samples)])
  {
    OneReceived(x);
    assert [x][..1] == [x];
  }

  lemma NothingAfter(packets: seq<Packet>, o: Opening)
    requires o.index == |packets| - 1
    ensures NoneDue(packets, o, |packets|)
  {
  }

  /** Each bucket runs from its opening to the first packet a quarter of a second past it. */
  lemma {:induction false} OpeningsAreQuarterly(packets: seq<Packet>)
    requires packets != []
    ensures Quarterly(packets, Openings(packets))
    decreases |packets|
  {
    hide Received, Quarterly, Extended;
    var n := |packets| - 1;
    var x := packets[n];
    if n == 0 {
      assert packets == [x];
      QuarterlyStart(x);
    } else {
      var front := packets[..n];
      assert packets == front + [x];
      OpeningsAreQuarterly(front);
      NextOpening(front, x);
      QuarterlyStep(front, x, Openings(front));
    }
  }

  // ---------------------------------------------------------------- true time

  /** Unwrapped arrival times of which the packets carry the low 32 bits. */
  predicate TrueTimes(packets: seq<Packet>, times: seq<int>, gap: nat) {
    && |times| == |packets|
    && (forall i :: 0 <= i < |times| ==> packets[i].time == Wrap32(times[i]))
    && (forall i :: 0 < i < |times| ==> times[i - 1] <= times[i] <= times[i - 1] + gap)
  }

  /** True times of the openings: each at least a quarter second after the one before and less
      than a quarter second plus `gap`, with `now` within a quarter second of the last. */
  predicate Paced(times: seq<int>, openings: seq<Opening>, gap: nat, now: int) {
    && openings != []
    && (forall j :: 0 <= j < |openings| ==> Stamped(times, openings[j]))
    && (forall j :: 0 < j < |openings| ==> Spaced(times, openings[j - 1], openings[j], gap))
    && 0 <= now - times[Last(openings).index] < BUCKET_TICKS
  }

  predicate Stamped(times: seq<int>, o: Opening) {
    o.index < |times| && o.time == Wrap32(times[o.index])
  }

  predicate Spaced(times: seq<int>, o: Opening, next: Opening, gap: nat) {
    && o.index < |times| && next.index < |times|
    && BUCKET_TICKS <= times[next.index] - times[o.index] < BUCKET_TICKS + gap
  }

  lemma StampedStays(times: seq<int>, t: int, o: Opening)
    requires Stamped(times, o)
    ensures Stamped(times + [t], o) && (times + [t])[o.index] == times[o.index]
  {
  }

  lemma SpacedStays(times: seq<int>, t: int, o: Opening, next: Opening, gap: nat)
    requires Spaced(times, o, next, gap)
    ensures Spaced(times + [t], o, next, gap)
  {
  }

  lemma OldPace(times: seq<int>, t: int, openings: seq<Opening>, gap: nat, now: int)
    requires Paced(times, openings, gap, now)
    ensures forall j :: 0 <= j < |openings| ==> Stamped(times + [t], openings[j])
    ensures forall j :: 0 < j < |openings| ==> Spaced(times + [t], openings[j - 1], openings[j], gap)
    ensures Last(openings).index < |times| && (times + [t])[Last(openings).index] == times[Last(openings).index]
    ensures Last(openings).time == Wrap32(times[Last(openings).index])
    ensures 0 <= now - times[Last(openings).index] < BUCKET_TICKS
  {
    hide Stamped, Spaced, Wrap32;
    forall j | 0 <= j < |openings|
      ensures Stamped(times + [t], openings[j])
    {
      StampedStays(times, t, openings[j]);
    }
    forall j | 0 < j < |openings|
      ensures Spaced(times + [t], openings[j - 1], openings[j], gap)
    {
      SpacedStays(times, t, openings[j - 1], openings[j], gap);
    }
    StampedMeans(times, Last(openings));
    StampedStays(times, t, Last(openings));
  }

  lemma StampedMeans(times: seq<int>, o: Opening)
    requires Stamped(times, o)
    ensures o.index < |times| && o.time == Wrap32(times[o.index])
  {
  }

  lemma PacedStep(times: seq<int>, openings: seq<Opening>, gap: nat, t: int, x: Packet, count: int)
    requires times != [] && Paced(times, openings, gap, Last(times))
    requires BUCKET_TICKS + gap < TWO32 && Last(times) <= t <= Last(times) + gap
    requires x.time == Wrap32(t)
    ensures Paced(times + [t], Extended(openings, |times|, x, count), gap, t)
  {
    hide Stamped, Spaced, Wrap32;
    OldPace(times, t, openings, gap, Last(times));
    WrapDifference(t, times[Last(openings).index]);
    NewPace(times, t, Last(openings), Opening(|times|, x.time, count), gap);
  }

  lemma NewPace(times: seq<int>, t: int, o: Opening, next: Opening, gap: nat)
    requires o.index < |times| && next.index == |times| && next.time == Wrap32(t)
    ensures Stamped(times + [t], next) && (times + [t])[next.index] == t
    ensures BUCKET_TICKS <= t - times[o.index] < BUCKET_TICKS + gap ==> Spaced(times + [t], o, next, gap)
  {
  }

  lemma WrapDifference(x: int, y: int)
    requires 0 <= x - y < TWO32
    ensures Wrap32(Wrap32(x) - Wrap32(y)) == x - y
  {
  }

  /** With no pause longer than `gap`, each bucket lasts less than a quarter second plus `gap`. */
  lemma {:induction false} BucketLength(packets: seq<Packet>, times: seq<int>, gap: nat)
    requires packets != [] && TrueTimes(packets, times, gap) && BUCKET_TICKS + gap < TWO32
    ensures Paced(times, Openings(packets), gap, Last(times))
    decreases |packets|
  {
    hide Wrap32, Paced, Extended, Received;
    var n := |packets| - 1;
    var x := packets[n];
    if n == 0 {
      PacedStart(times[0], gap, x.samples);
      assert times == [times[0]];
    } else {
      var front := packets[..n];
      assert packets == front + [x] && times == times[..n] + [times[n]];
      BucketLength(front, times[..n], gap);
      NextOpening(front, x);
      PacedStep(times[..n], Openings(front), gap, times[n], x, Received(packets));
    }
  }

  lemma PacedStart(t: int, gap: nat, count: int)
    ensures Paced([t], [Opening(0, Wrap32(t), count)], gap, t)
  {
  }

  lemma PacedAt(times: seq<int>, openings: seq<Opening>, gap: nat, now: int, j: nat)
    requires Paced(times, openings, gap, now) && j < |openings|
    ensures openings[j].index < |times| && openings[j].time == Wrap32(times[openings[j].index])
    ensures j == |openings| - 1 ==> 0 <= now - times[openings[j].index] < BUCKET_TICKS
  {
  }

  lemma {:induction false} StretchLength(times: seq<int>, openings: seq<Opening>, gap: nat, now: int, a: nat, b: nat)
    requires Paced(times, openings, gap, now) && a <= b < |openings|
    ensures var elapsed := times[openings[b].index] - times[openings[a].index];
            (b - a) * BUCKET_TICKS <= elapsed <= (b - a) * (BUCKET_TICKS + gap)
    decreases b
  {
    if a < b {
      StretchLength(times, openings, gap, now, a, b - 1);
      assert (b - a) * (BUCKET_TICKS + gap) == (b - 1 - a) * (BUCKET_TICKS + gap) + (BUCKET_TICKS + gap);
    }
  }

  /** As long as 65 buckets cannot take 2^32 ticks, the reported ticks are the true time since the
      window began, 64 buckets back, however often the reference clock has wrapped, and once 64
      buckets have been closed that is at least sixteen seconds. */
  lemma TicksAreTrueTime(packets: seq<Packet>, x: Packet, times: seq<int>, t: int, gap: nat)
    requires packets != [] && TrueTimes(packets + [x], times + [t], gap) && |times| == |packets|
    requires 65 * (25_000_000 + gap) <= TWO32
    ensures var openings := Openings(packets);
      var start := openings[if |openings| <= 65 then 0 else |openings| - 65].index;
      && start < |times| && Reported(packets, x).ticks == t - times[start]
      && (|openings| > 64 ==> Reported(packets, x).ticks >= 1_600_000_000)
  {
    hide Wrap32, Openings, Received, Paced, TrueTimes;
    FrontTimes(packets, x, times, t, gap);
    BucketLength(packets, times, gap);
    var openings := Openings(packets);
    var k := |openings| - 1;
    var first := Max(0, k - SLOTS);
    PacedAt(times, openings, gap, Last(times), first);
    PacedAt(times, openings, gap, Last(times), k);
    StretchLength(times, openings, gap, Last(times), first, k);
    MulMono(k - first, BUCKET_TICKS + gap, SLOTS, BUCKET_TICKS + gap);
    WrapDifference(t, times[openings[first].index]);
  }

  /** The reported samples are those of the packets after the one that opened the window. */
  lemma SamplesAreReceived(packets: seq<Packet>, x: Packet)
    requires packets != []
    ensures var openings := Openings(packets);
      var start := openings[if |openings| <= 65 then 0 else |openings| - 65].index;
      && start < |packets|
      && Reported(packets, x).samples == Wrap32(Received(packets[start + 1..] + [x]))
  {
    hide Openings, Wrap32, Received;
    var openings := Openings(packets);
    var start := openings[if |openings| <= 65 then 0 else |openings| - 65];
    OpeningsMark(packets, if |openings| <= 65 then 0 else |openings| - 65);
    ReceivedAfter(packets[..start.index + 1], packets[start.index + 1..] + [x]);
    assert packets[..start.index + 1] + (packets[start.index + 1..] + [x]) == packets + [x];
  }

  lemma OpeningsMark(packets: seq<Packet>, j: nat)
    requires packets != [] && j < |Openings(packets)|
    ensures Marks(packets, Openings(packets)[j])
  {
    hide Openings, Marks, Follows, NoneDue;
    OpeningsAreQuarterly(packets);
  }

  lemma {:induction false} ReceivedAfter(front: seq<Packet>, rest: seq<Packet>)
    ensures Received(front + rest) == Received(front) + Received(rest)
    decreases rest
  {
    if rest == [] {
      assert front + rest == front;
    } else {
      var n := |rest| - 1;
      assert (front + rest)[..|front + rest| - 1] == front + rest[..n];
      ReceivedAfter(front, rest[..n]);
    }
  }

  lemma FrontTimes(packets: seq<Packet>, x: Packet, times: seq<int>, t: int, gap: nat)
    requires packets != [] && TrueTimes(packets + [x], times + [t], gap) && |times| == |packets|
    ensures TrueTimes(packets, times, gap) && x.time == Wrap32(t) && Last(times) <= t <= Last(times) + gap
  {
    var longer, stamps := packets + [x], times + [t];
    assert forall i :: 0 <= i < |times| ==> longer[i] == packets[i] && stamps[i] == times[i];
    assert longer[|packets|] == x && stamps[|times|] == t;
  }

  // ---------------------------------------------------------------- closed buckets

  function Times(openings: seq<Opening>): (times: seq<int>)
    ensures |times| == |openings|
  {
    seq(|openings|, j requires 0 <= j < |openings| => openings[j].time)
  }

  function Counts(openings: seq<Opening>): (counts: seq<int>)
    ensures |counts| == |openings|
  {
    seq(|openings|, j requires 0 <= j < |openings| => openings[j].count)
  }

  /** The closed buckets, and what the open one holds. */
  function Spans(packets: seq<Packet>): seq<int>
    requires packets != []
  {
    Steps(Times(Openings(packets)))
  }

  function Sizes(packets: seq<Packet>): seq<int>
    requires packets != []
  {
    Steps(Counts(Openings(packets)))
  }

  function OpenSince(packets: seq<Packet>): u32
    requires packets != []
  {
    Last(Openings(packets)).time
  }

  function OpenSize(packets: seq<Packet>): u32
    requires packets != []
  {
    Wrap32(Received(packets) - Last(Openings(packets)).count)
  }

  lemma StepsOfOpenings(openings: seq<Opening>, o: Opening)
    requires openings != []
    ensures Steps(Times(openings + [o])) == Steps(Times(openings)) + [Wrap32(o.time - Last(openings).time)]
    ensures Steps(Counts(openings + [o])) == Steps(Counts(openings)) + [Wrap32(o.count - Last(openings).count)]
  {
    hide Steps, Wrap32;
    assert Times(openings + [o]) == Times(openings) + [o.time];
    assert Counts(openings + [o]) == Counts(openings) + [o.count];
    StepsAppend(Times(openings), o.time);
    StepsAppend(Counts(openings), o.count);
  }

  /** One more packet either joins the open bucket or closes it. */
  lemma NextPacket(packets: seq<Packet>, x: Packet)
    requires packets != []
    ensures var span, size := Wrap32(x.time - OpenSince(packets)), Wrap32(OpenSize(packets) + x.samples);
      var longer := packets + [x];
      if span >= BUCKET_TICKS then
        && Spans(longer) == Spans(packets) + [span] && Sizes(longer) == Sizes(packets) + [size]
        && OpenSince(longer) == x.time && OpenSize(longer) == 0
      else
        && Spans(longer) == Spans(packets) && Sizes(longer) == Sizes(packets)
        && OpenSince(longer) == OpenSince(packets) && OpenSize(longer) == size
  {
    hide Openings, Received, Steps, Times, Counts, Wrap32;
    NextOpening(packets, x);
    var last := Last(Openings(packets));
    WrapShift(Received(packets) - last.count, x.samples);
    WrapZero();
    StepsOfOpenings(Openings(packets), Opening(|packets|, x.time, Received(packets + [x])));
  }

  lemma WrapChain(a: int, b: int, c: int)
    ensures Wrap32(Wrap32(a - b) + Wrap32(b - c)) == Wrap32(a - c)
  {
  }

  /** The ring totals, together with the open bucket, cover the whole window. */
  lemma WindowTotals(packets: seq<Packet>, x: Packet)
    requires packets != []
    ensures Reported(packets, x) ==
      RateInfo(Wrap32(Wrap32(OpenSize(packets) + x.samples) + Wrap32(Sum(Recent(Sizes(packets), SLOTS)))),
               Wrap32(Wrap32(x.time - OpenSince(packets)) + Wrap32(Sum(Recent(Spans(packets), SLOTS)))))
  {
    hide Openings, Received, Steps, Sum, Recent, Wrap32;
    NextOpening(packets, x);
    var start, last := WindowStart(packets), Last(Openings(packets));
    WrapChain(Received(packets) + x.samples, last.count, start.count);
    WrapChain(x.time, last.time, start.time);
    WrapShift(Received(packets) - last.count, x.samples);
    RecentSteps(Times(Openings(packets)), SLOTS);
    RecentSteps(Counts(Openings(packets)), SLOTS);
  }

  lemma OneReceived(x: Packet)
    ensures Received([x]) == x.samples
  {
    assert [x][..0] == [];
  }

  lemma FirstPacket(x: Packet)
    ensures Spans([x]) == [] && Sizes([x]) == [] && OpenSince([x]) == x.time && OpenSize([x]) == 0
  {
    hide Received;
    OneReceived(x);
    WrapZero();
  }

  // ---------------------------------------------------------------- the meter

  /** The statics of one direction. */
  class Meter {
    const ring: BucketRing
    var firstTime: bool
    var firstTimestamp: u32
    var current: u32
    var dataSeen: bool
    var sofCount: u32

    /** The packets since the last reset took effect. */
    ghost var packets: seq<Packet>

    ghost predicate Valid()
      reads this, ring, ring.spans, ring.sizes
    {
      && ring.Valid() && ring.slots == SLOTS
      && (!firstTime ==>
            && packets != []
            && ring.closedSpans == Spans(packets) && ring.closedSizes == Sizes(packets)
            && firstTimestamp == OpenSince(packets) && current == OpenSize(packets))
    }

    constructor ()
      ensures Valid() && firstTime && !dataSeen && sofCount == 0
      ensures fresh(ring) && fresh(ring.spans) && fresh(ring.sizes)
    {
      ring := new BucketRing(SLOTS);
      firstTime, dataSeen := true, false;
      firstTimestamp, current, sofCount := 0, 0, 0;
      packets := [];
    }

    /** `determine_USB_audio_rate` for a transfer of `length` bytes. */
    method DetermineRate(timestamp: u32, length: u32, bytesPerFrame: nat, nominal: u32) returns (rate: RateInfo)
      requires Valid() && bytesPerFrame > 0
      modifies this, ring, ring.spans, ring.sizes
      ensures Valid() && dataSeen && !firstTime && sofCount == old(sofCount)
      ensures packets == (if old(firstTime) then [] else old(packets)) + [Packet(timestamp, length / bytesPerFrame)]
      ensures rate == if old(firstTime) then RateInfo(nominal, 100_000_000)
                      else Reported(old(packets), Packet(timestamp, length / bytesPerFrame))
    {
      hide Spans, Sizes, OpenSince, OpenSize, Reported, RingOf, Sum, Recent, Wrap32;
      SampleCount(length, bytesPerFrame);
      var samples: u32 := length / bytesPerFrame;
      ghost var packet := Packet(timestamp, samples);
      if !dataSeen {
        dataSeen := true;
      }
      if firstTime {
        firstTime := false;
        firstTimestamp := timestamp;
        current := 0;
        ring.Clear();
        packets := [packet];
        FirstPacket(packet);
        return RateInfo(nominal, TICKS_PER_SECOND);
      }
      NextPacket(packets, packet);
      WindowTotals(packets, packet);
      ring.Totals();
      current := Wrap32(current + samples);
      var timespan := Wrap32(timestamp - firstTimestamp);
      var olderSamples := SumArray(ring.sizes);
      var olderTicks := SumArray(ring.spans);
      rate := RateInfo(Wrap32(current + olderSamples), Wrap32(timespan + olderTicks));
      if timespan >= BUCKET_TICKS {
        ring.Close(timespan, current);
        current := 0;
        firstTimestamp := timestamp;
      }
      packets := packets + [packet];
    }

    /** `reset_state`. */
    method ResetState()
      requires Valid()
      modifies this`firstTime
      ensures Valid() && firstTime
    {
      firstTime := true;
    }

    /** `sof_toggle` for this direction, called at every start of frame. */
    method SofToggle()
      requires Valid()
      modifies this`firstTime, this`dataSeen, this`sofCount
      ensures Valid()
      ensures Watch(firstTime, dataSeen, sofCount) == Toggled(old(Watch(firstTime, dataSeen, sofCount)))
    {
      hide Spans, Sizes, OpenSince, OpenSize, RingOf, Sum, Recent, Wrap32;
      if dataSeen {
        sofCount := 0;
        dataSeen := false;
      } else {
        sofCount := Wrap32(sofCount + 1);
        if sofCount > 8 {
          ResetState();
        }
      }
    }
  }

  lemma SampleCount(length: u32, bytesPerFrame: nat)
    requires bytesPerFrame > 0
    ensures 0 <= length / bytesPerFrame <= length
  {
    var q := length / bytesPerFrame;
    DivBounds(length, bytesPerFrame, q);
    if q < 0 {
      MulMono(1, 0, bytesPerFrame, 0 - q - 1);
    } else {
      MulMono(q, 1, q, bytesPerFrame);
    }
  }

  // ---------------------------------------------------------------- silence

  datatype Watch = Watch(firstTime: bool, dataSeen: bool, sofCount: u32)

  function Toggled(w: Watch): Watch {
    if w.dataSeen then w.(sofCount := 0, dataSeen := false)
    else
      var count := Wrap32(w.sofCount + 1);
      Watch(w.firstTime || count > 8, false, count)
  }

  function Silence(w: Watch, frames: nat): Watch {
    if frames == 0 then w else Toggled(Silence(w, frames - 1))
  }

  /** After a transfer, the tenth start of frame without another one resets the meter, and none
      before it does; the wrapping count never brings an unreset meter back. */
  lemma {:induction false} SilenceResets(w: Watch, frames: nat)
    requires w.dataSeen && !w.firstTime
    ensures Silence(w, frames).firstTime <==> frames >= 10
  {
    SilenceCount(w, frames);
  }

  lemma {:induction false} SilenceCount(w: Watch, frames: nat)
    requires w.dataSeen && !w.firstTime
    ensures frames > 0 ==> Silence(w, frames) == Watch(frames >= 10, false, Wrap32(frames - 1))
  {
    hide Wrap32;
    if frames > 1 {
      SilenceCount(w, frames - 1);
      OneMoreSilent(frames);
    } else if frames == 1 {
      assert Silence(w, 0) == w;
      KeptWord32(0);
    }
  }

  lemma OneMoreSilent(frames: nat)
    requires frames > 1
    ensures Toggled(Watch(frames - 1 >= 10, false, Wrap32(frames - 2)))
         == Watch(frames >= 10, false, Wrap32(frames - 1))
  {
    hide Wrap32;
    NextCount(frames - 2);
    if frames <= 10 {
      KeptWord32(frames - 1);
    }
  }
}
