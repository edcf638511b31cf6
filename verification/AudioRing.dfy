/** appAudio.c: the sample ring between the microphone and the speech recogniser, against the plain
    list of samples stored. */
module AudioRing {
  import opened Words

  const FRAME_LEN: nat := 240

  // ---------------------------------------------------------------- ring arithmetic

  /** The ring holds the last `|ring|` samples of the list, each at its place modulo the length. */
  predicate HoldsRecent(ring: seq<int16>, list: seq<int16>) {
    |ring| > 0 && forall i :: 0 <= i < |list| && i + |ring| >= |list| ==> ring[i % |ring|] == list[i]
  }

  /** The put or get index after a step that stays inside the ring. */
  function Advanced(index: nat, step: nat, n: nat): nat {
    if index + step >= n then 0 else index + step
  }

  lemma AdvancedIndex(total: nat, step: nat, n: nat)
    requires n > 0 && total % n + step <= n
    ensures (total + step) % n == Advanced(total % n, step, n)
  {
    var q := total / n;
    assert total == q * n + total % n;
    if total % n + step < n {
      ModUnique(total + step, n, q, total % n + step);
    } else {
      ModUnique(total + step, n, q + 1, 0);
    }
  }

  lemma IndexWithin(total: nat, k: nat, n: nat)
    requires n > 0 && total % n + k < n
    ensures (total + k) % n == total % n + k
  {
    assert total == (total / n) * n + total % n;
    ModUnique(total + k, n, total / n, total % n + k);
  }

  /** A frame boundary of the list is one of the ring. */
  lemma FrameFits(taken: nat, n: nat)
    requires n > 0 && n % FRAME_LEN == 0 && taken % FRAME_LEN == 0
    ensures taken % n + FRAME_LEN <= n
  {
    var q, k, m := taken / n, taken / FRAME_LEN, n / FRAME_LEN;
    assert taken == n * q + taken % n;
    assert n == FRAME_LEN * m && taken == FRAME_LEN * k;
    assert n * q == FRAME_LEN * (m * q);
    assert taken % n == FRAME_LEN * (k - m * q);
  }

  lemma NextFrame(taken: nat, n: nat)
    requires n > 0 && n % FRAME_LEN == 0 && taken % FRAME_LEN == 0
    ensures (taken + FRAME_LEN) % FRAME_LEN == 0
    ensures (taken + FRAME_LEN) % n == Advanced(taken % n, FRAME_LEN, n)
  {
    FrameFits(taken, n);
    AdvancedIndex(taken, FRAME_LEN, n);
  }

  /** The put index less the get index, corrected by the length when negative. */
  function Distance(put: int, get: int, n: int): int {
    if put - get < 0 then put - get + n else put - get
  }

  lemma DistanceIsGap(stored: nat, taken: nat, n: nat)
    requires n > 0
    ensures Distance(stored % n, taken % n, n) == (stored - taken) % n
  {
    var a, b := stored / n, taken / n;
    assert stored == a * n + stored % n && taken == b * n + taken % n;
    if stored % n >= taken % n {
      assert stored - taken == (a - b) * n + (stored % n - taken % n);
      ModUnique(stored - taken, n, a - b, stored % n - taken % n);
    } else {
      assert stored - taken == (a - b - 1) * n + (stored % n - taken % n + n);
      ModUnique(stored - taken, n, a - b - 1, stored % n - taken % n + n);
    }
  }

  /** The reported count is the true number of unread samples exactly while that is not negative
      and less than the ring. */
  lemma GapTrue(stored: nat, taken: nat, n: nat)
    requires n > 0
    ensures (stored - taken) % n == stored - taken <==> 0 <= stored - taken < n
  {
    if 0 <= stored - taken < n {
      ModUnique(stored - taken, n, 0, stored - taken);
    }
  }

  lemma StoreKeeps(ring: seq<int16>, list: seq<int16>, brick: seq<int16>, next: seq<int16>)
    requires HoldsRecent(ring, list)
    requires |list| % |ring| + |brick| <= |ring| == |next|
    requires forall j :: 0 <= j < |ring| ==>
      next[j] == if |list| % |ring| <= j < |list| % |ring| + |brick| then brick[j - |list| % |ring|] else ring[j]
    ensures HoldsRecent(next, list + brick)
  {
    var n, at := |ring|, |list| % |ring|;
    var longer := list + brick;
    forall i | 0 <= i < |longer| && i + n >= |longer|
      ensures next[i % n] == longer[i]
    {
      if i >= |list| {
        IndexWithin(|list|, i - |list|, n);
      } else {
        var slot := i % n;
        if at <= slot < at + |brick| {
          IndexWithin(|list|, slot - at, n);
          SameSlot(i, |list| + (slot - at), n);
        }
      }
    }
  }

  /** The last position below `len` that shares the slot of position `at`. */
  function LastAt(len: nat, at: int, n: nat): (p: int)
    requires n > 0
    ensures len - n <= p < len && p % n == at % n
    ensures p == at <==> len - n <= at < len
  {
    var q := (len - 1 - at) / n;
    assert len - 1 - at == q * n + (len - 1 - at) % n;
    SameRest(at, q, n);
    if len - n <= at < len then
      ModUnique(len - 1 - at, n, 0, len - 1 - at);
      at
    else
      at + q * n
  }

  lemma SameRest(at: int, q: int, n: nat)
    requires n > 0
    ensures (at + q * n) % n == at % n
  {
    assert at + q * n == (at / n + q) * n + at % n;
    ModUnique(at + q * n, n, at / n + q, at % n);
  }

  /** `out` is what a reader finds at `offset` in the next frame: at each place the last sample that
      was stored there, if any was. A ring of no length holds one brick. */
  predicate FromNextFrame(n: nat, stored: seq<int16>, taken: nat, offset: int, out: seq<int16>) {
    if n == 0 then
      0 <= offset && offset + |out| <= |stored| ==> out == stored[offset..offset + |out|]
    else
      forall j :: 0 <= j < |out| && LastAt(|stored|, taken + offset + j, n) >= 0 ==>
        out[j] == stored[LastAt(|stored|, taken + offset + j, n)]
  }

  /** Whether a frame is reported to wait: the unread samples are counted modulo the length. */
  predicate FrameWaits(n: nat, stored: nat, taken: nat) {
    if n == 0 then stored >= FRAME_LEN else (stored - taken) % n >= FRAME_LEN
  }

  /** The report is right exactly in a ring that has not filled up, or holds a frame beyond a
      multiple of its length; passed over beyond its end, exactly less than a frame beyond one. */
  lemma ReportExact(stored: nat, taken: nat, n: nat)
    requires n >= 240
    ensures (FrameWaits(n, stored, taken) <==> stored - taken >= 240) <==>
            if stored < taken then (stored - taken) % n < 240
            else stored - taken < n || (stored - taken) % n >= 240
  {
    GapTrue(stored, taken, n);
  }

  // ---------------------------------------------------------------- the ring

  method CopySamples(dst: array<int16>, at: nat, src: array<int16>, from: nat, count: nat)
    requires dst != src && at + count <= dst.Length && from + count <= src.Length
    modifies dst
    ensures forall j :: 0 <= j < dst.Length ==>
      dst[j] == if at <= j < at + count then src[from + (j - at)] else old(dst[j])
  {
    for i := 0 to count
      invariant forall j :: 0 <= j < dst.Length ==>
        dst[j] == if at <= j < at + i then src[from + (j - at)] else old(dst[j])
    {
      dst[at + i] := src[from + i];
    }
  }

  class AppAudio {
    const audioBufferLen: nat
    var start: array<int16>
    var put: nat
    var get: nat
    var filledCount: nat
    var frameCounter: u32

    /** Every sample stored, and how many have been taken; for a ring of no length, the last brick. */
    ghost var stored: seq<int16>
    ghost var taken: nat

    ghost predicate Valid()
      reads this, start
    {
      && audioBufferLen % FRAME_LEN == 0
      && if audioBufferLen == 0 then
           get == 0 && put == filledCount == |stored| <= start.Length && start[..put] == stored
         else
           && start.Length == audioBufferLen && taken % FRAME_LEN == 0
           && put == |stored| % audioBufferLen && get == taken % audioBufferLen
           && filledCount == Min(|stored|, audioBufferLen)
           && HoldsRecent(start[..], stored)
    }

    constructor (length: nat)
      requires length % FRAME_LEN == 0
      ensures Valid() && audioBufferLen == length && stored == [] && taken == 0 && fresh(start)
    {
      audioBufferLen := length;
      start := new int16[length];
      put, get, filledCount, frameCounter := 0, 0, 0, 0;
      stored, taken := [], 0;
    }

    /** `AppAudioNumUnprocessedSamples`. */
    method NumUnprocessedSamples() returns (count: int)
      requires Valid()
      ensures audioBufferLen == 0 ==> count == |stored|
      ensures audioBufferLen > 0 ==> count == (|stored| - taken) % audioBufferLen
      ensures audioBufferLen > 0 ==>
        (count == |stored| - taken <==> 0 <= |stored| - taken < audioBufferLen)
    {
      count := put - get;
      if count < 0 {
        count := count + audioBufferLen;
      }
      if audioBufferLen > 0 {
        DistanceIsGap(|stored|, taken, audioBufferLen);
        GapTrue(|stored|, taken, audioBufferLen);
      }
    }

    /** `AppAudioFrameReady`. */
    method FrameReady() returns (ready: bool)
      requires Valid()
      ensures ready == FrameWaits(audioBufferLen, |stored|, taken)
      ensures audioBufferLen == 0 ==> ready == (|stored| >= 240)
    {
      var count := NumUnprocessedSamples();
      ready := count >= FRAME_LEN;
    }

    /** `AppAudioStoreBrick`, for a brick that does not run over the end of the buffer. */
    method StoreBrick(brick: array<int16>)
      requires Valid() && brick != start
      requires audioBufferLen > 0 ==> put + brick.Length <= audioBufferLen
      modifies this, start
      ensures Valid() && taken == old(taken) && frameCounter == old(frameCounter)
      ensures stored == if audioBufferLen == 0 then brick[..] else old(stored) + brick[..]
      ensures start == if audioBufferLen == 0 then brick else old(start)
    {
      if audioBufferLen == 0 {
        start := brick;
        get := 0;
        put, filledCount := brick.Length, brick.Length;
        stored := brick[..];
        return;
      }
      ghost var before := start[..];
      CopySamples(start, put, brick, 0, brick.Length);
      StoreKeeps(before, stored, brick[..], start[..]);
      AdvancedIndex(|stored|, brick.Length, audioBufferLen);
      put := put + brick.Length;
      if put >= audioBufferLen {
        put := 0;
      }
      filledCount := filledCount + brick.Length;
      if filledCount > audioBufferLen {
        filledCount := audioBufferLen;
      }
      stored := stored + brick[..];
    }

    /** The copying half of `AppAudioGetFrame`. */
    method CopyFrame(startOffset: int, count: nat, dst: array<int16>) returns (ready: bool)
      requires Valid() && dst != start && count <= dst.Length
      requires 0 <= get + startOffset && get + startOffset + count <= start.Length
      modifies dst
      ensures ready == FrameWaits(audioBufferLen, |stored|, taken)
      ensures ready ==> FromNextFrame(audioBufferLen, stored, taken, startOffset, dst[..count])
    {
      ready := FrameReady();
      if ready {
        CopySamples(dst, 0, start, get + startOffset, count);
        if audioBufferLen > 0 {
          WhatIsThere(start[..], stored, taken, startOffset, dst[..count]);
        }
      }
    }

    /** The advancing half. */
    method PassFrame()
      requires Valid()
      modifies this`get, this`frameCounter, this`taken
      ensures Valid() && frameCounter == Wrap32(old(frameCounter) + 1)
      ensures taken == if audioBufferLen > 0 then old(taken) + FRAME_LEN else old(taken)
    {
      hide HoldsRecent;
      if audioBufferLen > 0 {
        NextFrame(taken, audioBufferLen);
        taken := taken + FRAME_LEN;
      }
      get := get + FRAME_LEN;
      if get >= audioBufferLen {
        get := 0;
      }
      frameCounter := Wrap32(frameCounter + 1);
    }

    /** `AppAudioGetFrame`: copies `count` samples of the next frame from `startOffset` on, or, asked
        for none, just passes over a frame. */
    method GetFrame(startOffset: int, count: nat, dst: array<int16>) returns (ok: bool)
      requires Valid() && dst != start && count <= dst.Length
      requires count > 0 ==> 0 <= get + startOffset && get + startOffset + count <= start.Length
      modifies this`get, this`frameCounter, this`taken, dst
      ensures Valid()
      ensures taken == if ok && audioBufferLen > 0 then old(taken) + FRAME_LEN else old(taken)
      ensures frameCounter == if ok then Wrap32(old(frameCounter) + 1) else old(frameCounter)
      ensures count == 0 ==> ok
      ensures count > 0 ==> ok == FrameWaits(audioBufferLen, |stored|, old(taken))
      ensures count > 0 && ok ==> FromNextFrame(audioBufferLen, stored, old(taken), startOffset, dst[..count])
    {
      hide HoldsRecent, FrameWaits, FromNextFrame;
      if count > 0 {
        ok := CopyFrame(startOffset, count, dst);
        if !ok {
          return;
        }
      }
      PassFrame();
      ok := true;
    }
  }

  /** What is copied out of the ring is at each place the last sample stored there. */
  lemma WhatIsThere(ring: seq<int16>, list: seq<int16>, taken: nat, offset: int, out: seq<int16>)
    requires HoldsRecent(ring, list)
    requires 0 <= taken % |ring| + offset && taken % |ring| + offset + |out| <= |ring|
    requires forall j :: 0 <= j < |out| ==> out[j] == ring[taken % |ring| + offset + j]
    ensures FromNextFrame(|ring|, list, taken, offset, out)
  {
    assert taken == (taken / |ring|) * |ring| + taken % |ring|;
    forall j | 0 <= j < |out| && LastAt(|list|, taken + offset + j, |ring|) >= 0
      ensures out[j] == list[LastAt(|list|, taken + offset + j, |ring|)]
    {
      ModUnique(taken + offset + j, |ring|, taken / |ring|, taken % |ring| + offset + j);
    }
  }

  lemma FramesFurther(b: int, q: int, k: int)
    ensures FRAME_LEN * b + q * (FRAME_LEN * k) == FRAME_LEN * (b + q * k)
  {
  }

  lemma Apart(p: int, q: int, n: nat)
    requires n > 0 && p % n == q % n
    ensures p == q + (p / n - q / n) * n
  {
    assert p == (p / n) * n + p % n && q == (q / n) * n + q % n;
  }

  lemma Aligned(len: nat, taken: nat, n: nat)
    requires n > 0 && n % FRAME_LEN == 0 && len % FRAME_LEN == 0 && taken % FRAME_LEN == 0
    ensures LastAt(len, taken, n) + FRAME_LEN <= len
  {
    hide LastAt;
    var at, b, k := LastAt(len, taken, n), taken / FRAME_LEN, n / FRAME_LEN;
    var q := at / n - taken / n;
    Apart(at, taken, n);
    assert n == FRAME_LEN * k && taken == FRAME_LEN * b;
    FramesFurther(b, q, k);
    ghost var frames := b + q * k;
    assert at == FRAME_LEN * frames;
  }

  lemma SameFrame(len: nat, taken: nat, n: nat, j: nat)
    requires n > 0 && j < FRAME_LEN && LastAt(len, taken, n) + FRAME_LEN <= len
    ensures LastAt(len, taken + j, n) == LastAt(len, taken, n) + j
  {
    var at := LastAt(len, taken, n);
    Apart(at, taken, n);
    SameRest(taken + j, at / n - taken / n, n);
    OneInWindow(len, at + j, LastAt(len, taken + j, n), n);
  }

  lemma OneInWindow(len: nat, p: int, q: int, n: nat)
    requires n > 0 && len - n <= p < len && len - n <= q < len && p % n == q % n
    ensures p == q
  {
    if p < q {
      SameSlot(p, q, n);
    } else if q < p {
      SameSlot(q, p, n);
    }
  }

  /** A frame that is read whole is one stretch of the list, and the next one exactly in a ring
      that is not overrun. */
  lemma FrameOrder(n: nat, stored: seq<int16>, taken: nat, out: seq<int16>)
    requires n > 0 && n % FRAME_LEN == 0 && |stored| % FRAME_LEN == 0 && taken % FRAME_LEN == 0
    requires |out| == FRAME_LEN && FromNextFrame(n, stored, taken, 0, out)
    ensures var at := LastAt(|stored|, taken, n);
            && at + FRAME_LEN <= |stored|
            && (at >= 0 ==> out == stored[at..at + FRAME_LEN])
            && (at == taken <==> |stored| - n <= taken < |stored|)
  {
    var at := LastAt(|stored|, taken, n);
    Aligned(|stored|, taken, n);
    if at >= 0 {
      forall j | 0 <= j < FRAME_LEN
        ensures out[j] == stored[at + j]
      {
        SameFrame(|stored|, taken, n, j);
      }
    }
  }

  // ---------------------------------------------------------------- lists of calls

  /** What a client does with a ring in whole frames: stores one, asks for one, passes one over. */
  datatype Call = Store(frame: seq<int16>) | Get | Pass

  /** What it is told: nothing, or the frame from that position of the list on. */
  datatype Answer = Refused | From(at: int)

  function RingAnswer(n: nat, stored: seq<int16>, taken: nat): Answer
    requires n > 0
  {
    if FrameWaits(n, |stored|, taken) then From(LastAt(|stored|, taken, n)) else Refused
  }

  /** A queue without bounds. */
  function QueueAnswer(stored: seq<int16>, taken: nat): Answer {
    if |stored| - taken >= FRAME_LEN then From(taken) else Refused
  }

  function After(a: Answer, taken: nat): nat {
    if a.From? then taken + FRAME_LEN else taken
  }

  /** The answers of the ring to all `Get`s of a list of calls. */
  function RingAnswers(n: nat, stored: seq<int16>, taken: nat, calls: seq<Call>): seq<Answer>
    requires n > 0
    decreases calls
  {
    if calls == [] then [] else
      match calls[0]
      case Store(frame) => RingAnswers(n, stored + frame, taken, calls[1..])
      case Pass => RingAnswers(n, stored, taken + FRAME_LEN, calls[1..])
      case Get =>
        var a := RingAnswer(n, stored, taken);
        [a] + RingAnswers(n, stored, After(a, taken), calls[1..])
  }

  /** Those of the queue. */
  function QueueAnswers(stored: seq<int16>, taken: nat, calls: seq<Call>): seq<Answer>
    decreases calls
  {
    if calls == [] then [] else
      match calls[0]
      case Store(frame) => QueueAnswers(stored + frame, taken, calls[1..])
      case Pass => QueueAnswers(stored, taken + FRAME_LEN, calls[1..])
      case Get =>
        var a := QueueAnswer(stored, taken);
        [a] + QueueAnswers(stored, After(a, taken), calls[1..])
  }

  /** The ring has room for what is unread; passed over beyond its end, it looks empty. */
  predicate Within(n: nat, unread: int)
    requires n > 0
  {
    if unread < 0 then unread % n < FRAME_LEN else unread < n
  }

  /** Counting its own calls, the client never asks for a frame when the ring is full. */
  predicate AskedInTime(n: nat, stored: nat, taken: nat, calls: seq<Call>)
    requires n > 0
    decreases calls
  {
    if calls == [] then true else
      match calls[0]
      case Store(frame) => AskedInTime(n, stored + |frame|, taken, calls[1..])
      case Pass => AskedInTime(n, stored, taken + FRAME_LEN, calls[1..])
      case Get =>
        && Within(n, stored - taken)
        && AskedInTime(n, stored, if stored - taken >= FRAME_LEN then taken + FRAME_LEN else taken, calls[1..])
  }

  lemma AnswerExact(n: nat, stored: seq<int16>, taken: nat)
    requires n >= FRAME_LEN
    ensures RingAnswer(n, stored, taken) == QueueAnswer(stored, taken) <==> Within(n, |stored| - taken)
  {
    GapTrue(|stored|, taken, n);
  }

  /** A ring answers every call of a list as a queue would, if and only if it is never full when a
      frame is asked for. */
  lemma {:induction false} QueueExactly(n: nat, stored: seq<int16>, taken: nat, calls: seq<Call>)
    requires n >= FRAME_LEN
    ensures RingAnswers(n, stored, taken, calls) == QueueAnswers(stored, taken, calls)
            <==> AskedInTime(n, |stored|, taken, calls)
    decreases calls
  {
    hide RingAnswer, Within;
    if calls != [] {
      match calls[0]
      case Store(frame) => QueueExactly(n, stored + frame, taken, calls[1..]);
      case Pass => QueueExactly(n, stored, taken + FRAME_LEN, calls[1..]);
      case Get =>
        AnswerExact(n, stored, taken);
        var a, b := RingAnswer(n, stored, taken), QueueAnswer(stored, taken);
        var ring, queue := RingAnswers(n, stored, taken, calls), QueueAnswers(stored, taken, calls);
        assert ring[0] == a && queue[0] == b;
        assert ring[1..] == RingAnswers(n, stored, After(a, taken), calls[1..]);
        assert queue[1..] == QueueAnswers(stored, After(b, taken), calls[1..]);
        QueueExactly(n, stored, After(b, taken), calls[1..]);
    }
  }

  // ---------------------------------------------------------------- whole frames

  predicate WholeFrames(calls: seq<Call>) {
    forall i :: 0 <= i < |calls| ==> calls[i].Store? ==> |calls[i].frame| == FRAME_LEN
  }

  /** Everything stored by a list of calls. */
  function Stores(calls: seq<Call>): seq<int16> {
    if calls == [] then []
    else if calls[0].Store? then calls[0].frame + Stores(calls[1..])
    else Stores(calls[1..])
  }

  /** A client that stores whole frames never runs over the end of the buffer. */
  lemma {:induction false} StoresFit(n: nat, calls: seq<Call>)
    requires n > 0 && n % FRAME_LEN == 0 && WholeFrames(calls)
    ensures |Stores(calls)| % FRAME_LEN == 0 && |Stores(calls)| % n + FRAME_LEN <= n
    decreases calls
  {
    if calls != [] {
      StoresFit(n, calls[1..]);
    }
    FrameFits(|Stores(calls)|, n);
  }

  /** What the client hears: the frames it is given, one after the other. */
  function Heard(n: nat, stored: seq<int16>, taken: nat, calls: seq<Call>): seq<int16>
    requires n > 0
    decreases calls
  {
    if calls == [] then [] else
      match calls[0]
      case Store(frame) => Heard(n, stored + frame, taken, calls[1..])
      case Pass => Heard(n, stored, taken + FRAME_LEN, calls[1..])
      case Get =>
        var a := RingAnswer(n, stored, taken);
        (if a.From? && 0 <= a.at <= |stored| - FRAME_LEN then stored[a.at..a.at + FRAME_LEN] else [])
        + Heard(n, stored, After(a, taken), calls[1..])
  }

  /** Asked in time, the ring is first in, first out: what is heard is what was stored, from the
      first unread sample on, without gap or repetition. */
  lemma {:induction false} FirstInFirstOut(n: nat, stored: seq<int16>, taken: nat, calls: seq<Call>)
    requires n >= FRAME_LEN && taken <= |stored|
    requires AskedInTime(n, |stored|, taken, calls) && forall i :: 0 <= i < |calls| ==> !calls[i].Pass?
    ensures Heard(n, stored, taken, calls) <= (stored + Stores(calls))[taken..]
    decreases calls
  {
    hide RingAnswer, Within;
    if calls != [] {
      var rest := calls[1..];
      match calls[0]
      case Store(frame) =>
        FirstInFirstOut(n, stored + frame, taken, rest);
        assert (stored + frame) + Stores(rest) == stored + Stores(calls);
      case Get =>
        AnswerExact(n, stored, taken);
        var a := RingAnswer(n, stored, taken);
        FirstInFirstOut(n, stored, After(a, taken), rest);
        if a.From? {
          var list := stored + Stores(calls);
          assert list[taken..] == stored[taken..taken + FRAME_LEN] + list[taken + FRAME_LEN..];
        }
    }
  }

  lemma {:induction false} OnlyStores(n: nat, stored: seq<int16>, taken: nat, calls: seq<Call>)
    requires n > 0 && forall i :: 0 <= i < |calls| ==> calls[i].Store?
    ensures var all := stored + Stores(calls);
            && RingAnswers(n, stored, taken, calls + [Get]) == [RingAnswer(n, all, taken)]
            && QueueAnswers(stored, taken, calls + [Get]) == [QueueAnswer(all, taken)]
    decreases calls
  {
    hide RingAnswer, QueueAnswer;
    if calls == [] {
      assert stored + Stores(calls) == stored;
      assert (calls + [Get])[1..] == [];
    } else {
      OnlyStores(n, stored + calls[0].frame, taken, calls[1..]);
      assert (stored + calls[0].frame) + Stores(calls[1..]) == stored + Stores(calls);
      assert (calls + [Get])[1..] == calls[1..] + [Get];
    }
  }

  /** An empty ring, filled with a multiple of its length, has nothing to give. */
  lemma FullRingRefuses(n: nat, calls: seq<Call>)
    requires n >= FRAME_LEN && forall i :: 0 <= i < |calls| ==> calls[i].Store?
    requires |Stores(calls)| > 0 && |Stores(calls)| % n == 0
    ensures RingAnswers(n, [], 0, calls + [Get]) == [Refused]
    ensures QueueAnswers([], 0, calls + [Get]) == [From(0)]
  {
    hide LastAt;
    OnlyStores(n, [], 0, calls);
    assert [] + Stores(calls) == Stores(calls);
    if |Stores(calls)| < n {
      ModUnique(|Stores(calls)|, n, 0, |Stores(calls)|);
    }
  }

  /** One frame more, and the last frame stored is given out first. */
  lemma OverrunJumps(n: nat, calls: seq<Call>)
    requires n > FRAME_LEN && forall i :: 0 <= i < |calls| ==> calls[i].Store?
    requires |Stores(calls)| == n + FRAME_LEN
    ensures RingAnswers(n, [], 0, calls + [Get]) == [From(n)]
  {
    hide LastAt;
    OnlyStores(n, [], 0, calls);
    assert [] + Stores(calls) == Stores(calls);
    ModUnique(n + FRAME_LEN, n, 1, FRAME_LEN);
    ModUnique(n, n, 1, 0);
    ModUnique(0, n, 0, 0);
    OneInWindow(n + FRAME_LEN, n, LastAt(n + FRAME_LEN, 0, n), n);
  }
}
