/** What a host reads: the replies to its UPLOADs, in whatever way the two tasks interleave. */
module DfuReplies {
  import opened Words
  import opened DfuTypes
  import opened DfuFlash
  import opened DfuMachine
  import opened DfuProtocol
  import DfuHandover
  import DfuSafety
  import opened DfuHost
  import opened DfuSchedule

  /** What the servicer hands to the host once the task has answered. */
  function Reply(d: DfuData): seq<byte> {
    d.buffer[..Min(d.xferLength, |d.buffer|)]
  }

  /** The replies of a run: one each time the servicer gets the semaphore. */
  function Replied(layout: Layout, s: System, actions: seq<Action>): seq<seq<byte>>
    decreases actions
  {
    if actions == [] then [] else HandedOut(s, actions[0]) + Replied(layout, Next(layout, s, actions[0]), actions[1..])
  }

  function HandedOut(s: System, a: Action): seq<seq<byte>> {
    if a.TakeSemaphore? && Enabled(s, a) then [Reply(s.dfu)] else []
  }

  /** The replies to the UPLOADs among commands that are performed one by one. */
  function PerformReplies(layout: Layout, d: DfuData, f: FlashData, cs: seq<Command>): seq<seq<byte>>
    requires AllLegal(cs) && Bounded(d)
    decreases cs
  {
    if cs == [] then [] else
      var (d', f') := Perform(layout, d, f, cs[0]);
      ReplyTo(cs[0], d') + PerformReplies(layout, d', f', cs[1..])
  }

  function ReplyTo(c: Command, d: DfuData): seq<seq<byte>> {
    if c.CmdUpload? then [Reply(d)] else []
  }

  // ---------------------------------------------------------------- an UPLOAD under way

  /** The request the task has been notified of and has not dispatched. */
  function Notified(s: System): Option<Request> {
    if s.bits != {} then Selected(s.bits) else Selected(DfuHandover.TaskBits(s.task))
  }

  /** The servicer waits for the semaphore exactly between its notification of an UPLOAD and the
      task's answer, and then for nothing but taking it. */
  predicate Awaiting(s: System) {
    && (s.semaphore ==> s.servicer.AwaitUpload? && s.bits == {} && s.task.Waiting?)
    && (s.servicer.AwaitUpload? && !s.semaphore <==> Notified(s) == Some(ReqUpload))
  }

  /** The reply that is still to come. */
  function Pending(layout: Layout, s: System): seq<seq<byte>>
    requires Bounded(s.dfu)
  {
    if s.servicer.AwaitUpload? || ((s.servicer.Filled? || s.servicer.Given?) && s.servicer.request == ReqUpload)
    then [Reply(Outcome(layout, s).0)]
    else []
  }

  lemma AlikeReply(x: (DfuData, FlashData), y: (DfuData, FlashData))
    requires Alike(x, y)
    ensures Reply(x.0) == Reply(y.0)
  {
  }

  lemma AwaitingStep(layout: Layout, s: System, a: Action)
    requires Alone(s) && Awaiting(s) && (a.Fill? ==> PoliteFill(s, a.command))
    ensures Awaiting(Next(layout, s, a))
  {
    hide PolledEarly, Handle, BusyFlash, DfuMachine.BusyEnd, Forecast, Patch;
    SingleBit(ReqUpload);
    if a.Notify? && Enabled(s, a) {
      SingleBit(s.servicer.request);
      assert s.bits + {s.servicer.request} == {s.servicer.request};
    }
    if a.Dispatch? && Enabled(s, a) && Notified(s) == Some(ReqUpload) {
      UploadFallThrough(layout, s.dfu, s.flash);
      UploadNotBusy(layout, s.dfu, s.flash);
    }
  }

  lemma UploadNotBusy(layout: Layout, d: DfuData, f: FlashData)
    requires Bounded(d)
    ensures !Busy(Handle(layout, d, f, ReqUpload).state)
  {
    HandleInBounds(layout, d, f, ReqUpload);
  }

  /** The semaphore is taken when the answer is there. */
  lemma TakenReply(layout: Layout, s: System)
    requires Alone(s) && Awaiting(s) && s.semaphore
    ensures Bounded(s.dfu) && Outcome(layout, s) == (s.dfu, s.flash)
  {
    hide Process;
    SingleBit(ReqUpload);
  }

  /** No reply is lost, invented or changed on the way. */
  lemma PendingStep(layout: Layout, s: System, a: Action)
    requires Alone(s) && Awaiting(s) && (a.Fill? ==> PoliteFill(s, a.command))
    ensures var t := Next(layout, s, a);
      && Bounded(s.dfu) && Bounded(t.dfu)
      && HandedOut(s, a) + Pending(layout, t) ==
         if a.Fill? && Enabled(s, a) && DfuSafety.Quiescent(s)
         then Pending(layout, s) + ReplyTo(a.command, Outcome(layout, t).0)
         else Pending(layout, s)
  {
    hide Outcome, Alike, Alone, PoliteFill, Reply;
    var t := Next(layout, s, a);
    FirstAction(layout, s, a);
    if a.TakeSemaphore? && Enabled(s, a) {
      TakenReply(layout, s);
    } else if !(a.Fill? && Enabled(s, a) && DfuSafety.Quiescent(s)) {
      AlikeReply(Outcome(layout, t), Outcome(layout, s));
      PollOnly(s, a);
    }
  }

  lemma PollOnly(s: System, a: Action)
    requires a.Fill? ==> PoliteFill(s, a.command)
    ensures a.Fill? && Enabled(s, a) && !DfuSafety.Quiescent(s) ==> a.command.CmdGetStatus?
  {
    hide PolledEarly;
  }

  lemma {:induction false} PerformRepliesAlike(layout: Layout, x: (DfuData, FlashData), y: (DfuData, FlashData),
                                               cs: seq<Command>)
    requires AllLegal(cs) && Alike(x, y) && Bounded(x.0) && Bounded(y.0) && !Busy(x.0.state)
    ensures PerformReplies(layout, x.0, x.1, cs) == PerformReplies(layout, y.0, y.1, cs)
    decreases cs
  {
    hide Perform, Alike, Untimed, Reply;
    if cs != [] {
      PerformAlike(layout, x, y, cs[0]);
      var (v, w) := (Perform(layout, x.0, x.1, cs[0]), Perform(layout, y.0, y.1, cs[0]));
      AlikeReply(v, w);
      PerformRepliesAlike(layout, v, w, cs[1..]);
    }
  }

  // ---------------------------------------------------------------- whole schedules

  lemma {:induction false} RepliedRun(layout: Layout, s: System, actions: seq<Action>)
    requires Alone(s) && Awaiting(s) && Polite(layout, s, actions)
    ensures var t := Run(layout, s, actions);
      && Alone(t) && Bounded(s.dfu) && Bounded(t.dfu)
      && Replied(layout, s, actions) + Pending(layout, t) ==
         var start := Outcome(layout, s);
         Pending(layout, s) + PerformReplies(layout, start.0, start.1, Commands(layout, s, actions))
    decreases actions
  {
    hide Outcome, Alone, Awaiting, Perform, Alike, PoliteFill, Next, DfuSafety.Quiescent, Pending, HandedOut, Reply,
         ReplyTo;
    AloneBounded(s);
    if actions != [] {
      var t, rest := Next(layout, s, actions[0]), actions[1..];
      FirstAction(layout, s, actions[0]);
      AwaitingStep(layout, s, actions[0]);
      PendingStep(layout, s, actions[0]);
      RepliedRun(layout, t, rest);
      OutcomeNotBusy(layout, t);
      var cs := Commands(layout, t, rest);
      var now, end := HandedOut(s, actions[0]), Pending(layout, Run(layout, t, rest));
      var after := PerformReplies(layout, Outcome(layout, t).0, Outcome(layout, t).1, cs);
      assert (now + Replied(layout, t, rest)) + end == now + (Replied(layout, t, rest) + end);
      assert now + (Pending(layout, t) + after) == (now + Pending(layout, t)) + after;
      if !(actions[0].Fill? && Enabled(s, actions[0]) && DfuSafety.Quiescent(s)) {
        PerformRepliesAlike(layout, Outcome(layout, t), Outcome(layout, s), cs);
      } else {
        assert ([actions[0].command] + cs)[1..] == cs;
        var reply := ReplyTo(actions[0].command, Outcome(layout, t).0);
        assert (Pending(layout, s) + reply) + after == Pending(layout, s) + (reply + after);
      }
    }
  }

  lemma RestAwaitsNothing(layout: Layout, s: System)
    requires Alone(s) && DfuSafety.Quiescent(s)
    ensures Bounded(s.dfu) && Pending(layout, s) == []
    ensures !s.semaphore ==> Awaiting(s)
  {
    SingleBit(ReqUpload);
  }

  /** In every polite schedule the host reads, one after the other, the replies its UPLOADs would
      get if the commands were performed one by one. */
  lemma RepliesOneByOne(layout: Layout, s: System, actions: seq<Action>)
    requires Rested(s) && Polite(layout, s, actions) && DfuSafety.Quiescent(Run(layout, s, actions))
    ensures Bounded(s.dfu)
    ensures Replied(layout, s, actions) == PerformReplies(layout, s.dfu, s.flash, Commands(layout, s, actions))
  {
    hide Outcome, Alone, Polite, Commands, PerformReplies, Replied, Pending, Awaiting;
    RestIsAlone(s);
    RestAwaitsNothing(layout, s);
    RepliedRun(layout, s, actions);
    AtRest(layout, s);
    RestAwaitsNothing(layout, Run(layout, s, actions));
    assert Replied(layout, s, actions) + [] == Replied(layout, s, actions);
  }

  lemma {:induction false} RepliesToLast(layout: Layout, d: DfuData, f: FlashData, cs: seq<Command>, c: Command)
    requires AllLegal(cs) && c.Legal() && Bounded(d)
    ensures AllLegal(cs + [c])
    ensures var (e, g) := PerformAll(layout, d, f, cs);
      PerformReplies(layout, d, f, cs + [c])
      == PerformReplies(layout, d, f, cs) + ReplyTo(c, Perform(layout, e, g, c).0)
    decreases cs
  {
    hide Perform, Reply, ReplyTo;
    if cs == [] {
      assert [] + [c] == [c] && [c][1..] == [];
      var (e, g) := Perform(layout, d, f, c);
      assert PerformReplies(layout, e, g, []) == [];
    } else {
      var (e, g) := Perform(layout, d, f, cs[0]);
      assert (cs + [c])[1..] == cs[1..] + [c];
      RepliesToLast(layout, e, g, cs[1..], c);
    }
  }

  /** All replies, one behind the other. */
  function Concat(replies: seq<seq<byte>>): seq<byte> {
    if replies == [] then [] else Concat(replies[..|replies| - 1]) + replies[|replies| - 1]
  }
}
