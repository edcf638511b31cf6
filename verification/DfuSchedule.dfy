/** A host that waits for every request to finish, and at most polls meanwhile: whatever the
    interleaving of the two tasks, its commands take effect one by one. */
module DfuSchedule {
  import opened Words
  import opened DfuTypes
  import opened DfuFlash
  import opened DfuMachine
  import opened DfuProtocol
  import DfuHandover
  import DfuSafety
  import opened DfuHost

  // ---------------------------------------------------------------- commands one by one

  /** Any command as one indivisible operation. */
  function Perform(layout: Layout, d: DfuData, f: FlashData, c: Command): (r: (DfuData, FlashData))
    requires c.Legal() && |d.buffer| == SECTOR_SIZE && d.fragNumber < NUM_FRAGMENTS
    ensures |r.0.buffer| == SECTOR_SIZE && r.0.fragNumber < NUM_FRAGMENTS
  {
    if c.CmdSetTransferBlock? then (FillWith(d, c), f) else Transact(layout, d, f, c)
  }

  predicate AllLegal(cs: seq<Command>) {
    forall i :: 0 <= i < |cs| ==> cs[i].Legal()
  }

  function PerformAll(layout: Layout, d: DfuData, f: FlashData, cs: seq<Command>): (r: (DfuData, FlashData))
    requires AllLegal(cs) && |d.buffer| == SECTOR_SIZE && d.fragNumber < NUM_FRAGMENTS
    ensures |r.0.buffer| == SECTOR_SIZE && r.0.fragNumber < NUM_FRAGMENTS
    decreases cs
  {
    if cs == [] then (d, f)
    else
      var (d', f') := Perform(layout, d, f, cs[0]);
      PerformAll(layout, d', f', cs[1..])
  }

  lemma {:induction false} ServedPerforms(layout: Layout, d: DfuData, f: FlashData, cs: seq<Command>)
    requires Served(cs) && |d.buffer| == SECTOR_SIZE && d.fragNumber < NUM_FRAGMENTS
    ensures AllLegal(cs) && PerformAll(layout, d, f, cs) == TransactAll(layout, d, f, cs)
    decreases cs
  {
    hide Transact;
    if cs != [] {
      var (d', f') := Transact(layout, d, f, cs[0]);
      ServedPerforms(layout, d', f', cs[1..]);
    }
  }

  /** Equal but for the record of the last time-out. */
  predicate Alike(x: (DfuData, FlashData), y: (DfuData, FlashData)) {
    Untimed(x.0) == Untimed(y.0) && x.1 == y.1
  }

  // ---------------------------------------------------------------- one request in flight

  /** The request on its way from the servicer to the task. */
  function InFlight(s: System): Option<Request> {
    if s.servicer.Filled? || s.servicer.Given? then Some(s.servicer.request)
    else if s.servicer.Polling? && !Busy(s.servicer.seen) then Some(ReqGetStatus)
    else if s.bits != {} then Selected(s.bits)
    else Selected(DfuHandover.TaskBits(s.task))
  }

  /** The record once the servicer has answered a GETSTATUS it has looked at. */
  function Answered(s: System): DfuData {
    if s.servicer.Polling? && !Busy(s.servicer.seen)
    then FillGetStatus(s.servicer.seen, s.dfu, s.servicer.now, s.servicer.later)
    else s.dfu
  }

  predicate Bounded(d: DfuData) {
    |d.buffer| == SECTOR_SIZE && d.fragNumber < NUM_FRAGMENTS
  }

  /** What record and flash come to once the tasks have finished what they are doing. */
  function Outcome(layout: Layout, s: System): (r: (DfuData, FlashData))
    requires Bounded(s.dfu)
    ensures Bounded(r.0)
  {
    match s.task
    case BusyBegun =>
      var (g, outcome) := BusyFlash(layout, s.dfu, s.flash);
      (DfuMachine.BusyEnd(s.dfu, outcome), g)
    case BusyDone(outcome) =>
      (DfuMachine.BusyEnd(s.dfu, outcome), s.flash)
    case _ =>
      var d := Answered(s);
      if InFlight(s).None? then (d, s.flash) else Process(layout, d, s.flash, InFlight(s).value)
  }

  /** At most one request is under way, and nobody but a host that polls in time is beside it. */
  predicate Alone(s: System) {
    && s.counter == (if s.servicer.Given? || s.bits != {} || s.task.Woken? then 1 else 0)
    && (s.servicer.Filled? || s.servicer.Given? ==> s.bits == {} && s.task.Waiting?)
    && (s.servicer.Polling? && !Busy(s.servicer.seen) ==> s.bits == {} && s.task.Waiting?)
    && (s.servicer.Polling? && Busy(s.servicer.seen) ==>
          && s.bits == {} && !s.task.Woken? && !s.task.Counted?
          && !PolledEarly(s.dfu, s.servicer.now))
    && (s.bits != {} ==> s.task.Waiting? && Selected(s.bits).Some?)
    && (s.task.Woken? || s.task.Counted? ==> Selected(DfuHandover.TaskBits(s.task)).Some?)
    && (s.task.Counted? ==> s.task.value == 1)
    && Bounded(s.dfu) && (Busy(s.dfu.state) <==> s.task.BusyBegun? || s.task.BusyDone?)
  }

  /** A host that sends a command only to a system at rest, or polls a busy one in time. */
  predicate PoliteFill(s: System, c: Command) {
    Enabled(s, Fill(c)) ==>
      || DfuSafety.Quiescent(s)
      || ((s.task.BusyBegun? || s.task.BusyDone?) && c.CmdGetStatus? && !PolledEarly(s.dfu, c.now))
  }

  lemma SingleBit(r: Request)
    ensures Selected({r}) == Some(r) && Selected({}) == None
  {
  }

  // ---------------------------------------------------------------- single steps

  lemma FillAlone(layout: Layout, s: System, c: Command)
    requires Alone(s) && PoliteFill(s, c)
    ensures Alone(Next(layout, s, Fill(c)))
  {
    hide PolledEarly, Patch;
  }

  lemma FillOutcome(layout: Layout, s: System, c: Command)
    requires Alone(s) && PoliteFill(s, c) && Enabled(s, Fill(c))
    ensures Bounded(Next(layout, s, Fill(c)).dfu)
    ensures Outcome(layout, Next(layout, s, Fill(c))) ==
      if DfuSafety.Quiescent(s) then Perform(layout, s.dfu, s.flash, c) else Outcome(layout, s)
  {
    hide PolledEarly, Patch, Process, BusyFlash, DfuMachine.BusyEnd;
  }

  lemma AnswerStep(layout: Layout, s: System)
    requires Alone(s) && Enabled(s, Answer)
    ensures var t := Next(layout, s, Answer); Alone(t) && Alike(Outcome(layout, t), Outcome(layout, s))
  {
    hide PolledEarly, Process, Forecast;
    if Busy(s.servicer.seen) {
      BusyAlike(layout, s);
    }
  }

  /** A poll answered in time touches nothing but the record of the time-out. */
  lemma BusyAlike(layout: Layout, s: System)
    requires Alone(s) && Enabled(s, Answer) && Busy(s.servicer.seen)
    ensures var t := Next(layout, s, Answer);
      && t == s.(dfu := t.dfu, servicer := Ready) && Untimed(t.dfu) == Untimed(s.dfu) && Bounded(t.dfu)
      && Alike(Outcome(layout, t), Outcome(layout, s))
  {
    hide PolledEarly, Process, Forecast;
    var t := Next(layout, s, Answer);
    EndAlike(s.dfu, t.dfu);
  }

  lemma EndAlike(d: DfuData, e: DfuData)
    requires Untimed(d) == Untimed(e) && d.fragNumber < NUM_FRAGMENTS
    ensures forall outcome :: Untimed(DfuMachine.BusyEnd(d, outcome)) == Untimed(DfuMachine.BusyEnd(e, outcome))
  {
    hide Zeros;
  }

  lemma HandOverStep(layout: Layout, s: System, a: Action)
    requires Alone(s) && Enabled(s, a) && (a.Give? || a.Notify? || a.Wake? || a.TakeCounter? || a.TakeSemaphore?)
    ensures var t := Next(layout, s, a); Alone(t) && Outcome(layout, t) == Outcome(layout, s)
  {
    hide PolledEarly, Process, BusyFlash, DfuMachine.BusyEnd, Selected;
    if a.Notify? {
      SingleBit(s.servicer.request);
      assert s.bits + {s.servicer.request} == {s.servicer.request};
    }
  }

  lemma DispatchStep(layout: Layout, s: System)
    requires Alone(s) && Enabled(s, Dispatch)
    ensures var t := Next(layout, s, Dispatch); Alone(t) && Outcome(layout, t) == Outcome(layout, s)
  {
    hide PolledEarly, Handle, BusyFlash, DfuMachine.BusyEnd, Selected;
    SingleBit(ReqDnload);
    HandleInBounds(layout, s.dfu, s.flash, Selected(s.task.bits).value);
  }

  lemma EndNotBusy(d: DfuData, outcome: DfuStatus)
    requires Bounded(d)
    ensures Bounded(DfuMachine.BusyEnd(d, outcome)) && !Busy(DfuMachine.BusyEnd(d, outcome).state)
  {
  }

  lemma EarlyByTiming(d: DfuData, e: DfuData, now: u32)
    requires DfuSafety.SameTiming(d, e)
    ensures PolledEarly(d, now) == PolledEarly(e, now)
  {
  }

  lemma BusyStep(layout: Layout, s: System, a: Action)
    requires Alone(s) && Enabled(s, a) && (a.FlashWork? || a.EndBusy?)
    ensures var t := Next(layout, s, a); Alone(t) && Outcome(layout, t) == Outcome(layout, s)
  {
    hide PolledEarly, Process, BusyFlash;
    if a.EndBusy? {
      SingleBit(ReqDnload);
      DfuSafety.BusyEndTiming(s.dfu, s.task.outcome);
      EndNotBusy(s.dfu, s.task.outcome);
      if s.servicer.Polling? {
        EarlyByTiming(s.dfu, DfuMachine.BusyEnd(s.dfu, s.task.outcome), s.servicer.now);
      }
    }
  }

  lemma OtherStep(layout: Layout, s: System, a: Action)
    requires Alone(s) && !a.Fill?
    ensures Alone(Next(layout, s, a))
    ensures Alike(Outcome(layout, Next(layout, s, a)), Outcome(layout, s))
  {
    hide Outcome, Step, Alone;
    AloneBounded(s);
    if Enabled(s, a) {
      match a
      case Answer => AnswerStep(layout, s);
      case Dispatch => DispatchStep(layout, s);
      case FlashWork => BusyStep(layout, s, a);
      case EndBusy => BusyStep(layout, s, a);
      case _ => HandOverStep(layout, s, a);
    }
  }

  lemma AloneBounded(s: System)
    requires Alone(s)
    ensures Bounded(s.dfu)
  {
  }

  // ---------------------------------------------------------------- commands and the time-out record

  lemma ErrorAlike(d: DfuData, e: DfuData)
    requires Untimed(d) == Untimed(e)
    ensures Untimed(ToError(d, ErrStalledPkt)) == Untimed(ToError(e, ErrStalledPkt))
    ensures Untimed(ResetState(d)) == Untimed(ResetState(e))
    ensures Untimed(ResetDownloadBuffer(d)) == Untimed(ResetDownloadBuffer(e))
  {
  }

  lemma UploadAlike(layout: Layout, d: DfuData, e: DfuData, f: FlashData)
    requires Untimed(d) == Untimed(e)
    ensures Untimed(HandleUpload(layout, d, f)) == Untimed(HandleUpload(layout, e, f))
  {
    hide Zeros, Patch, ToError, ReadFrom;
    var x, y := d.(buffer := Zeros(SECTOR_SIZE), xferLength := 0), e.(buffer := Zeros(SECTOR_SIZE), xferLength := 0);
    ErrorAlike(x, y);
  }

  lemma HandleAlike(layout: Layout, d: DfuData, e: DfuData, f: FlashData, r: Request)
    requires Untimed(d) == Untimed(e)
    ensures Untimed(Handle(layout, d, f, r)) == Untimed(Handle(layout, e, f, r))
  {
    hide Zeros, Patch, ToError, ResetState, ResetDownloadBuffer, HandleUpload;
    match r
    case ReqUpload =>
      UploadFallThrough(layout, d, f);
      UploadFallThrough(layout, e, f);
      UploadAlike(layout, d, e, f);
    case ReqDnload => DnloadAlike(d, e);
    case _ => ErrorAlike(d, e);
  }

  lemma DnloadAlike(d: DfuData, e: DfuData)
    requires Untimed(d) == Untimed(e)
    ensures Untimed(HandleDnload(d)) == Untimed(HandleDnload(e))
  {
    hide Zeros, ToError;
    ErrorAlike(d, e);
  }

  lemma ProcessAlike(layout: Layout, d: DfuData, e: DfuData, f: FlashData, r: Request)
    requires Untimed(d) == Untimed(e) && Bounded(d) && Bounded(e)
    ensures Alike(Process(layout, d, f, r), Process(layout, e, f, r))
    ensures !Busy(Process(layout, d, f, r).0.state)
  {
    hide Handle, DfuMachine.BusyEnd;
    HandleAlike(layout, d, e, f, r);
    HandleInBounds(layout, d, f, r);
    HandleInBounds(layout, e, f, r);
    var begun := Handle(layout, d, f, r);
    EndAlike(begun, Handle(layout, e, f, r));
    if Busy(begun.state) {
      EndNotBusy(begun, BusyFlash(layout, begun, f).1);
    }
  }

  lemma FillAlike(d: DfuData, e: DfuData, c: Command)
    requires c.Legal() && Untimed(d) == Untimed(e) && !Busy(d.state) && !c.CmdSetTransferBlock?
    ensures Untimed(Serviced(d, c)) == Untimed(Serviced(e, c))
  {
  }

  /** A command given at rest does not depend on the time-outs before it. */
  lemma PerformAlike(layout: Layout, x: (DfuData, FlashData), y: (DfuData, FlashData), c: Command)
    requires c.Legal() && Alike(x, y) && Bounded(x.0) && Bounded(y.0) && !Busy(x.0.state)
    ensures Alike(Perform(layout, x.0, x.1, c), Perform(layout, y.0, y.1, c))
    ensures !Busy(Perform(layout, x.0, x.1, c).0.state)
  {
    hide Process, Serviced;
    if !c.CmdSetTransferBlock? {
      FillAlike(x.0, y.0, c);
      ServicedBounds(x.0, c);
      ServicedBounds(y.0, c);
      ProcessAlike(layout, Serviced(x.0, c), Serviced(y.0, c), x.1, RequestOf(c));
    }
  }

  lemma ServicedBounds(d: DfuData, c: Command)
    requires c.Legal() && Bounded(d)
    ensures Bounded(Serviced(d, c))
  {
  }

  lemma {:induction false} PerformAllAlike(layout: Layout, x: (DfuData, FlashData), y: (DfuData, FlashData),
                                           cs: seq<Command>)
    requires AllLegal(cs) && Alike(x, y) && Bounded(x.0) && Bounded(y.0) && !Busy(x.0.state)
    ensures Alike(PerformAll(layout, x.0, x.1, cs), PerformAll(layout, y.0, y.1, cs))
    decreases cs
  {
    hide Perform, Alike, Untimed;
    if cs != [] {
      PerformAlike(layout, x, y, cs[0]);
      PerformAllAlike(layout, Perform(layout, x.0, x.1, cs[0]), Perform(layout, y.0, y.1, cs[0]), cs[1..]);
    }
  }

  lemma OutcomeNotBusy(layout: Layout, s: System)
    requires Alone(s)
    ensures !Busy(Outcome(layout, s).0.state)
  {
    hide BusyFlash, DfuMachine.BusyEnd, Process, PolledEarly, Forecast;
    match s.task
    case BusyBegun => EndNotBusy(s.dfu, BusyFlash(layout, s.dfu, s.flash).1);
    case BusyDone(outcome) => EndNotBusy(s.dfu, outcome);
    case _ =>
      if InFlight(s).Some? {
        AnsweredBounds(s);
        ProcessAlike(layout, Answered(s), Answered(s), s.flash, InFlight(s).value);
      } else {
        AnsweredBounds(s);
      }
  }

  lemma AnsweredBounds(s: System)
    requires Bounded(s.dfu)
    ensures Bounded(Answered(s)) && Answered(s).state == s.dfu.state
  {
  }

  // ---------------------------------------------------------------- whole schedules

  /** Every command of the schedule is sent politely. */
  ghost predicate Polite(layout: Layout, s: System, actions: seq<Action>)
    decreases actions
  {
    actions == [] ||
    ((actions[0].Fill? ==> PoliteFill(s, actions[0].command)) &&
        Polite(layout, Next(layout, s, actions[0]), actions[1..]))
  }

  /** The commands that a schedule gives to a system at rest, in order. */
  function Commands(layout: Layout, s: System, actions: seq<Action>): (cs: seq<Command>)
    ensures AllLegal(cs)
    decreases actions
  {
    if actions == [] then [] else
      var rest := Commands(layout, Next(layout, s, actions[0]), actions[1..]);
      if actions[0].Fill? && Enabled(s, actions[0]) && DfuSafety.Quiescent(s) then [actions[0].command] + rest else rest
  }

  lemma AlikeThrough(x: (DfuData, FlashData), y: (DfuData, FlashData), z: (DfuData, FlashData))
    requires Alike(x, y) && Alike(y, z)
    ensures Alike(x, z)
  {
  }

  lemma FirstAction(layout: Layout, s: System, a: Action)
    requires Alone(s) && (a.Fill? ==> PoliteFill(s, a.command))
    ensures var t := Next(layout, s, a);
      && Alone(t) && Bounded(t.dfu) && Bounded(s.dfu)
      && if a.Fill? && Enabled(s, a) && DfuSafety.Quiescent(s)
         then Outcome(layout, s) == (s.dfu, s.flash) && Outcome(layout, t) == Perform(layout, s.dfu, s.flash, a.command)
         else Alike(Outcome(layout, t), Outcome(layout, s))
  {
    hide Perform, PoliteFill, Step;
    AloneBounded(s);
    if a.Fill? {
      FillAlone(layout, s, a.command);
      if Enabled(s, a) {
        FillOutcome(layout, s, a.command);
        AtRest(layout, s);
      }
    } else {
      OtherStep(layout, s, a);
    }
    AloneBounded(Next(layout, s, a));
  }

  lemma AtRest(layout: Layout, s: System)
    requires Alone(s)
    ensures DfuSafety.Quiescent(s) ==> Outcome(layout, s) == (s.dfu, s.flash)
  {
    hide Process;
    SingleBit(ReqDnload);
  }

  /** In every polite schedule the two tasks together do what the commands, one by one, say. */
  lemma {:induction false} PoliteRun(layout: Layout, s: System, actions: seq<Action>)
    requires Alone(s) && Polite(layout, s, actions)
    ensures Alone(Run(layout, s, actions)) && Bounded(s.dfu) && Bounded(Run(layout, s, actions).dfu)
    ensures var start := Outcome(layout, s);
      Alike(Outcome(layout, Run(layout, s, actions)),
            PerformAll(layout, start.0, start.1, Commands(layout, s, actions)))
    decreases actions
  {
    hide Outcome, Alone, Perform, Alike, PoliteFill, Next, DfuSafety.Quiescent;
    AloneBounded(s);
    if actions == [] {
      SelfAlike(Outcome(layout, s));
    } else {
      var t, rest := Next(layout, s, actions[0]), actions[1..];
      FirstAction(layout, s, actions[0]);
      PoliteRun(layout, t, rest);
      OutcomeNotBusy(layout, t);
      var cs := Commands(layout, t, rest);
      if !(actions[0].Fill? && Enabled(s, actions[0]) && DfuSafety.Quiescent(s)) {
        PerformAllAlike(layout, Outcome(layout, t), Outcome(layout, s), cs);
        var (x, y) := (Outcome(layout, t), Outcome(layout, s));
        AlikeThrough(Outcome(layout, Run(layout, t, rest)), PerformAll(layout, x.0, x.1, cs),
                     PerformAll(layout, y.0, y.1, cs));
      } else {
        assert ([actions[0].command] + cs)[1..] == cs;
      }
    }
  }

  lemma SelfAlike(x: (DfuData, FlashData))
    ensures Alike(x, x)
  {
  }

  /** From a system at rest, for every interleaving of the two tasks, and however often and in
      whatever state the host polls in time while they work: once the system rests again, record
      and flash are what the commands make of them one by one, the record of the last time-out
      excepted. */
  lemma CommandsOneByOne(layout: Layout, s: System, actions: seq<Action>)
    requires Rested(s) && Polite(layout, s, actions) && DfuSafety.Quiescent(Run(layout, s, actions))
    ensures Bounded(s.dfu)
    ensures var t := Run(layout, s, actions);
      && Rested(t)
      && Alike((t.dfu, t.flash), PerformAll(layout, s.dfu, s.flash, Commands(layout, s, actions)))
  {
    hide Outcome, PerformAll, Commands, Polite;
    RestIsAlone(s);
    PoliteRun(layout, s, actions);
    AtRest(layout, s);
    AtRest(layout, Run(layout, s, actions));
    DfuHandover.HandoverRun(layout, s, actions);
    DfuSafety.RecordRun(layout, s, actions);
  }

  lemma RestIsAlone(s: System)
    requires Rested(s)
    ensures Alone(s)
  {
  }

  // ---------------------------------------------------------------- one transaction after the other

  lemma {:induction false} FillFree(layout: Layout, s: System, actions: seq<Action>)
    requires forall i :: 0 <= i < |actions| ==> !actions[i].Fill?
    ensures Polite(layout, s, actions) && Commands(layout, s, actions) == []
    decreases actions
  {
    hide Next;
    if actions != [] {
      FillFree(layout, Next(layout, s, actions[0]), actions[1..]);
    }
  }

  lemma {:induction false} PoliteAppend(layout: Layout, s: System, first: seq<Action>, second: seq<Action>)
    requires Polite(layout, s, first) && Polite(layout, Run(layout, s, first), second)
    ensures Polite(layout, s, first + second)
    ensures Commands(layout, s, first + second) ==
            Commands(layout, s, first) + Commands(layout, Run(layout, s, first), second)
    decreases first
  {
    hide Next, PoliteFill;
    if first == [] {
      assert first + second == second;
    } else {
      assert (first + second)[1..] == first[1..] + second;
      PoliteAppend(layout, Next(layout, s, first[0]), first[1..], second);
    }
  }

  lemma TransactionPolite(layout: Layout, s: System, c: Command)
    requires Rested(s) && c.Legal()
    ensures Polite(layout, s, Transaction(c)) && Commands(layout, s, Transaction(c)) == [c]
  {
    hide Next;
    var t, rest := Next(layout, s, Fill(c)), Transaction(c)[1..];
    FillFree(layout, t, rest);
    assert Transaction(c)[0] == Fill(c);
  }

  /** Transactions in turn are a polite schedule of their commands. */
  lemma {:induction false} TransactionsPolite(layout: Layout, s: System, cs: seq<Command>)
    requires Rested(s) && Served(cs)
    ensures Polite(layout, s, Transactions(cs)) && Commands(layout, s, Transactions(cs)) == cs
    decreases cs
  {
    hide Polite, Commands, Run, Rested, Transaction;
    if cs == [] {
      FillFree(layout, s, []);
    } else {
      TransactionPolite(layout, s, cs[0]);
      TransactionRun(layout, s, cs[0]);
      TransactionsPolite(layout, Run(layout, s, Transaction(cs[0])), cs[1..]);
      PoliteAppend(layout, s, Transaction(cs[0]), Transactions(cs[1..]));
      assert [cs[0]] + cs[1..] == cs;
    }
  }
}
