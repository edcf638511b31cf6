/** usb_audio.c: how the USB callback wakes the sample-rate converter. The callback sends chunks
    into a stream buffer and notifies only on an exact fill level; the converter takes a frame of
    `frame` chunks for each notification. */
module AudioHandoff {
  import opened Words

  /** Fill level in bytes, notifications not yet taken, whether the callback has still to look at
      the level, and whether the converter has taken a notification but not yet its frame. */
  datatype Handoff = Handoff(level: nat, pending: nat, sent: bool, woken: bool)

  datatype Action = Send | Check | Wake | Receive | Reset

  function Step(chunk: nat, frame: nat, capacity: nat, s: Handoff, a: Action): Handoff {
    match a
    case Send =>
      if !s.sent && capacity - s.level >= chunk then s.(level := s.level + chunk, sent := true) else s
    case Check =>
      if !s.sent then s
      else s.(sent := false, pending := if s.level == chunk * (1 + frame) then s.pending + 1 else s.pending)
    case Wake =>
      if !s.woken && s.pending > 0 then s.(pending := s.pending - 1, woken := true) else s
    case Receive =>
      if s.woken then s.(level := s.level - Min(s.level, chunk * frame), woken := false) else s
    case Reset =>
      s.(level := 0)
  }

  function Run(chunk: nat, frame: nat, capacity: nat, s: Handoff, actions: seq<Action>): Handoff
    decreases |actions|
  {
    if actions == [] then s
    else Step(chunk, frame, capacity, Run(chunk, frame, capacity, s, actions[..|actions| - 1]), actions[|actions| - 1])
  }

  lemma {:induction false} RunAppend(chunk: nat, frame: nat, capacity: nat, s: Handoff, xs: seq<Action>,
                                     ys: seq<Action>)
    ensures Run(chunk, frame, capacity, s, xs + ys) ==
            Run(chunk, frame, capacity, Run(chunk, frame, capacity, s, xs), ys)
    decreases |ys|
  {
    if ys == [] {
      assert xs + ys == xs;
    } else {
      var n := |ys| - 1;
      assert (xs + ys)[..|xs + ys| - 1] == xs + ys[..n];
      RunAppend(chunk, frame, capacity, s, xs, ys[..n]);
    }
  }

  const START: Handoff := Handoff(0, 0, false, false)

  /** Between callbacks, enough audio for a frame and a chunk means the converter is, or is about
      to be, awake. */
  predicate WellNotified(chunk: nat, frame: nat, s: Handoff) {
    !s.sent && s.level >= chunk * (1 + frame) ==> s.pending > 0 || s.woken
  }

  // ---------------------------------------------------------------- whole chunks

  function Scaled(chunk: nat, s: Handoff): Handoff {
    s.(level := chunk * s.level)
  }

  lemma RoomForOne(chunk: nat, capacity: nat, k: nat)
    requires chunk > 0
    ensures capacity - chunk * k >= chunk <==> capacity / chunk - k >= 1
  {
    var q := capacity / chunk;
    DivBounds(capacity, chunk, q);
    if q >= k + 1 {
      MulMono(chunk, k + 1, chunk, q);
    } else {
      MulMono(chunk, q + 1, chunk, k + 1);
    }
  }

  lemma ScaledOrder(chunk: nat, x: nat, y: nat)
    requires chunk > 0
    ensures chunk * x == chunk * y <==> x == y
    ensures chunk * x >= chunk * y <==> x >= y
    ensures Min(chunk * x, chunk * y) == chunk * Min(x, y)
    ensures chunk * (x - y) == chunk * x - chunk * y
  {
    CancelInt(x, y, chunk);
    CancelInt(y, x, chunk);
  }

  lemma SendScales(chunk: nat, frame: nat, capacity: nat, s: Handoff)
    requires chunk > 0
    ensures Step(chunk, frame, capacity, Scaled(chunk, s), Send) ==
            Scaled(chunk, Step(1, frame, capacity / chunk, s, Send))
  {
    RoomForOne(chunk, capacity, s.level);
  }

  lemma CheckScales(chunk: nat, frame: nat, capacity: nat, s: Handoff)
    requires chunk > 0
    ensures Step(chunk, frame, capacity, Scaled(chunk, s), Check) ==
            Scaled(chunk, Step(1, frame, capacity / chunk, s, Check))
  {
    ScaledOrder(chunk, s.level, 1 + frame);
  }

  lemma ReceiveScales(chunk: nat, frame: nat, capacity: nat, s: Handoff)
    requires chunk > 0
    ensures Step(chunk, frame, capacity, Scaled(chunk, s), Receive) ==
            Scaled(chunk, Step(1, frame, capacity / chunk, s, Receive))
  {
    ScaledOrder(chunk, s.level, frame);
    ScaledOrder(chunk, s.level, Min(s.level, frame));
  }

  /** The byte machine only ever moves whole chunks. */
  lemma StepScales(chunk: nat, frame: nat, capacity: nat, s: Handoff, a: Action)
    requires chunk > 0
    ensures Step(chunk, frame, capacity, Scaled(chunk, s), a) == Scaled(chunk, Step(1, frame, capacity / chunk, s, a))
  {
    match a
    case Send => SendScales(chunk, frame, capacity, s);
    case Check => CheckScales(chunk, frame, capacity, s);
    case Receive => ReceiveScales(chunk, frame, capacity, s);
    case _ =>
  }

  lemma {:induction false} RunScales(chunk: nat, frame: nat, capacity: nat, actions: seq<Action>)
    requires chunk > 0
    ensures Run(chunk, frame, capacity, START, actions) ==
            Scaled(chunk, Run(1, frame, capacity / chunk, START, actions))
    decreases |actions|
  {
    if actions != [] {
      hide Step, Scaled;
      var n := |actions| - 1;
      RunScales(chunk, frame, capacity, actions[..n]);
      StepScales(chunk, frame, capacity, Run(1, frame, capacity / chunk, START, actions[..n]), actions[n]);
    }
  }

  // ---------------------------------------------------------------- the bound is enough

  /** What every step keeps: while the callback has yet to look, the exact level may be unannounced,
      but nothing above it. */
  predicate Announced(frame: nat, room: nat, s: Handoff) {
    && s.level <= room
    && (s.level >= (if s.sent then 2 else 1) + frame ==> s.pending > 0 || s.woken)
  }

  lemma {:induction false} RunAnnounced(frame: nat, room: nat, actions: seq<Action>)
    requires room <= 2 * frame
    ensures Announced(frame, room, Run(1, frame, room, START, actions))
    decreases |actions|
  {
    if actions != [] {
      RunAnnounced(frame, room, actions[..|actions| - 1]);
    }
  }

  // ---------------------------------------------------------------- and needed

  function Fill(n: nat): seq<Action> {
    if n == 0 then [] else Fill(n - 1) + [Send] + [Check]
  }

  lemma RunTwo(frame: nat, room: nat, actions: seq<Action>, a: Action, b: Action)
    ensures Run(1, frame, room, START, actions + [a] + [b])
         == Step(1, frame, room, Step(1, frame, room, Run(1, frame, room, START, actions), a), b)
  {
    hide Step;
    assert (actions + [a] + [b])[..|actions| + 1] == actions + [a];
    assert (actions + [a])[..|actions|] == actions;
  }

  lemma {:induction false} FillRun(frame: nat, room: nat, n: nat)
    requires n <= room
    ensures Run(1, frame, room, START, Fill(n)) == Handoff(n, if n > frame then 1 else 0, false, false)
  {
    if n > 0 {
      FillRun(frame, room, n - 1);
      RunTwo(frame, room, Fill(n - 1), Send, Check);
    }
  }

  /** With room for one chunk more than two frames, filling the buffer before the converter runs
      leaves a frame and a chunk unannounced. */
  lemma LostWakeUp(frame: nat, room: nat)
    requires room > 2 * frame
    ensures Run(1, frame, room, START, Fill(2 * frame + 1) + [Wake] + [Receive]) == Handoff(frame + 1, 0, false, false)
  {
    FillRun(frame, room, 2 * frame + 1);
    RunTwo(frame, room, Fill(2 * frame + 1), Wake, Receive);
  }

  /** No wake-up is ever lost, whatever the order of callbacks, conversions and buffer resets, if
      and only if the buffer cannot hold one chunk more than two frames. */
  lemma NoLostWakeUp(chunk: nat, frame: nat, capacity: nat)
    requires chunk > 0
    ensures (forall actions :: WellNotified(chunk, frame, Run(chunk, frame, capacity, START, actions)))
       <==> capacity < (2 * frame + 1) * chunk
  {
    var room := capacity / chunk;
    DivBounds(capacity, chunk, room);
    if room <= 2 * frame {
      MulMono(room + 1, chunk, 2 * frame + 1, chunk);
      forall actions
        ensures WellNotified(chunk, frame, Run(chunk, frame, capacity, START, actions))
      {
        RunScales(chunk, frame, capacity, actions);
        RunAnnounced(frame, room, actions);
        ScaledOrder(chunk, Run(1, frame, room, START, actions).level, 1 + frame);
      }
    } else {
      MulMono(2 * frame + 1, chunk, room, chunk);
      LostWakeUp(frame, room);
      var bad := Fill(2 * frame + 1) + [Wake] + [Receive];
      RunScales(chunk, frame, capacity, bad);
      assert !WellNotified(chunk, frame, Run(chunk, frame, capacity, START, bad));
    }
  }

  // ---------------------------------------------------------------- what a lost wake-up costs

  predicate Asleep(frame: nat, s: Handoff) {
    s.level > frame && s.pending == 0 && !s.woken && (s.sent ==> s.level > frame + 1)
  }

  lemma AsleepStep(frame: nat, room: nat, s: Handoff, a: Action)
    requires Asleep(frame, s) && a != Reset
    ensures Asleep(frame, Step(1, frame, room, s, a)) && Step(1, frame, room, s, a).level >= s.level
  {
  }

  lemma WithoutLast(actions: seq<Action>)
    requires actions != [] && Reset !in actions
    ensures var n := |actions| - 1; Reset !in actions[..n] && actions[n] != Reset
  {
    var n := |actions| - 1;
    assert actions[n] in actions && forall a :: a in actions[..n] ==> a in actions;
  }

  /** A lost wake-up is for ever: without a buffer reset the converter never runs again and the
      level never falls. */
  lemma {:induction false} LostForEver(frame: nat, room: nat, s: Handoff, actions: seq<Action>)
    requires Asleep(frame, s) && Reset !in actions
    ensures Asleep(frame, Run(1, frame, room, s, actions)) && Run(1, frame, room, s, actions).level >= s.level
    decreases |actions|
  {
    hide Step, Asleep;
    if actions != [] {
      var n := |actions| - 1;
      WithoutLast(actions);
      LostForEver(frame, room, s, actions[..n]);
      AsleepStep(frame, room, Run(1, frame, room, s, actions[..n]), actions[n]);
    }
  }

  /** The bound in the source, twice the converter's block, is the greatest that works. */
  lemma SourceCapacity(chunk: nat, frame: nat, actions: seq<Action>)
    requires chunk > 0
    ensures WellNotified(chunk, frame, Run(chunk, frame, 2 * (chunk * frame), START, actions))
    ensures Run(chunk, frame, 2 * (chunk * frame), START, actions).level <= 2 * (chunk * frame)
  {
    hide Run, WellNotified;
    var capacity := 2 * (chunk * frame);
    assert capacity == (2 * frame) * chunk < (2 * frame + 1) * chunk;
    NoLostWakeUp(chunk, frame, capacity);
    DivUnique(capacity, chunk, 2 * frame);
    RunScales(chunk, frame, capacity, actions);
    RunAnnounced(frame, 2 * frame, actions);
    MulMono(chunk, Run(1, frame, 2 * frame, START, actions).level, chunk, 2 * frame);
  }

  // ---------------------------------------------------------------- whole frames

  /** Notifications given for which no frame has been taken yet. */
  function Outstanding(s: Handoff): nat {
    s.pending + if s.woken then 1 else 0
  }

  /** Woken, with less than a frame to take. */
  predicate ShortFrame(frame: nat, s: Handoff) {
    s.woken && s.level < frame
  }

  /** At most one notification is outstanding, and the audio it announced is still there. */
  predicate Paired(frame: nat, room: nat, s: Handoff) {
    && s.level <= room && Outstanding(s) <= 1
    && (Outstanding(s) == 1 ==> s.level >= frame + if s.sent then 2 else 1)
  }

  lemma PairedStep(frame: nat, room: nat, s: Handoff, a: Action)
    requires room <= 2 * frame && Paired(frame, room, s) && a != Reset
    ensures Paired(frame, room, Step(1, frame, room, s, a))
  {
  }

  lemma {:induction false} RunPaired(frame: nat, room: nat, s: Handoff, actions: seq<Action>)
    requires room <= 2 * frame && Paired(frame, room, s) && Reset !in actions
    ensures Paired(frame, room, Run(1, frame, room, s, actions))
    decreases |actions|
  {
    hide Step, Paired;
    if actions != [] {
      var n := |actions| - 1;
      WithoutLast(actions);
      RunPaired(frame, room, s, actions[..n]);
      PairedStep(frame, room, Run(1, frame, room, s, actions[..n]), actions[n]);
    }
  }

  /** Within the bound and without a buffer reset, every frame the converter takes is whole. */
  lemma FramesAreWhole(frame: nat, room: nat, actions: seq<Action>)
    requires room <= 2 * frame && Reset !in actions
    ensures !ShortFrame(frame, Run(1, frame, room, START, actions))
  {
    RunPaired(frame, room, START, actions);
  }

  /** After a buffer reset every frame stays whole in every continuation if and only if no
      notification was outstanding when it came. */
  lemma FramesAfterReset(frame: nat, room: nat, s: Handoff)
    requires 1 <= frame && room <= 2 * frame
    ensures (forall actions | Reset !in actions ::
               !ShortFrame(frame, Run(1, frame, room, Step(1, frame, room, s, Reset), actions)))
       <==> Outstanding(s) == 0
  {
    var t := Step(1, frame, room, s, Reset);
    if Outstanding(s) == 0 {
      forall actions | Reset !in actions
        ensures !ShortFrame(frame, Run(1, frame, room, t, actions))
      {
        RunPaired(frame, room, t, actions);
      }
    } else if s.woken {
      assert ShortFrame(frame, Run(1, frame, room, t, []));
    } else {
      assert [Wake][..0] == [];
      assert Reset !in [Wake];
      assert ShortFrame(frame, Run(1, frame, room, t, [Wake]));
    }
  }

  /** Such a reset can come: one notification, not yet taken. */
  lemma ShortFrameHappens(frame: nat, room: nat)
    requires 1 <= frame < room
    ensures Outstanding(Run(1, frame, room, START, Fill(frame + 1))) == 1
  {
    FillRun(frame, room, frame + 1);
  }
}
