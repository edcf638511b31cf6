/** What every interleaving keeps true of the shared record and of the flash. */
module DfuSafety {
  import opened Words
  import opened DfuTypes
  import opened DfuFlash
  import opened DfuMachine
  import opened DfuProtocol
  import opened DfuHandover

  // ---------------------------------------------------------------- the shared record

  predicate BlankFrom(buffer: seq<byte>, at: nat) {
    forall i :: at <= i < |buffer| ==> buffer[i] == 0
  }

  /** A DNLOAD has put its data in the buffer and the task has not dealt with it yet. */
  predicate DnloadInFlight(s: System) {
    || s.servicer == Filled(ReqDnload)
    || s.servicer == Given(ReqDnload)
    || ReqDnload in s.bits
    || ReqDnload in TaskBits(s.task)
  }

  predicate LiveState(state: DfuState) {
    state !in {AppIdle, AppDetach, ManifestWaitReset}
  }

  predicate ShapeKept(d: DfuData) {
    && |d.buffer| == SECTOR_SIZE
    && d.fragNumber < NUM_FRAGMENTS
    && LiveState(d.state)
    && (d.state == DfuError <==> d.status != StatusOk)
    && (d.moveToError ==> d.moveToErrorStatus == ErrStalledPkt)
    && (Busy(d.state) ==> d.inProgress)
    && (d.state in {DfuIdle, DfuError, UploadIdle, DnloadIdle} ==> !d.inProgress)
    && (d.state in {DfuIdle, DfuError, UploadIdle, ManifestSync, Manifest} ==> d.fragNumber == 0 && d.blockNumber == 0)
  }

  /** Nothing lies beyond the current fragment, and the fragment itself is blank unless it is
      being assembled, has been uploaded into or a DNLOAD is on its way. */
  predicate BufferKept(d: DfuData, inFlight: bool) {
    && BlankFrom(d.buffer, (d.fragNumber + 1) * XFER_SIZE)
    && (|| BlankFrom(d.buffer, d.fragNumber * XFER_SIZE)
        || d.state == UploadIdle
        || d.state == DnBusy
        || (d.state == DnloadSync && d.inProgress)
        || inFlight)
  }

  predicate RecordKept(s: System) {
    && ShapeKept(s.dfu)
    && BufferKept(s.dfu, DnloadInFlight(s))
    && (Busy(s.dfu.state) <==> s.task.BusyBegun? || s.task.BusyDone?)
  }

  lemma FillKeeps(d: DfuData, c: Command, inFlight: bool)
    requires c.Legal() && ShapeKept(d) && BufferKept(d, inFlight)
    ensures ShapeKept(FillWith(d, c))
    ensures BufferKept(FillWith(d, c), inFlight || c.CmdDnload?)
  {
  }

  lemma UploadKeeps(layout: Layout, d: DfuData, f: FlashData, inFlight: bool)
    requires ShapeKept(d)
    ensures ShapeKept(HandleUpload(layout, d, f)) && BufferKept(HandleUpload(layout, d, f), inFlight)
  {
    var data := ReadFrom(layout, f, d.altSetting, d.transferBlock, XFER_SIZE);
    assert BlankFrom(Patch(Zeros(SECTOR_SIZE), 0, data), |data|);
  }

  lemma HandleKeeps(layout: Layout, d: DfuData, f: FlashData, r: Request, inFlight: bool)
    requires ShapeKept(d) && !Busy(d.state) && BufferKept(d, inFlight || r == ReqDnload)
    ensures ShapeKept(Handle(layout, d, f, r)) && BufferKept(Handle(layout, d, f, r), inFlight)
  {
    hide HandleUpload, HandleDnload, HandleGetStatus, ResetState, ToError, ShapeKept, BufferKept;
    match r
    case ReqDnload => DnloadKeeps(d, inFlight);
    case ReqUpload =>
      UploadKeeps(layout, d, f, inFlight);
      UploadFallThrough(layout, d, f);
    case ReqGetStatus => GetStatusKeeps(d, inFlight);
    case _ =>
      ErrorKeeps(d, inFlight);
      ResetKeeps(d, inFlight);
  }

  lemma DnloadKeeps(d: DfuData, inFlight: bool)
    requires ShapeKept(d) && BufferKept(d, true) && !Busy(d.state)
    ensures ShapeKept(HandleDnload(d)) && BufferKept(HandleDnload(d), inFlight)
  {
  }

  lemma GetStatusKeeps(d: DfuData, inFlight: bool)
    requires ShapeKept(d) && BufferKept(d, inFlight) && !Busy(d.state)
    ensures ShapeKept(HandleGetStatus(d)) && BufferKept(HandleGetStatus(d), inFlight)
  {
  }

  lemma ResetKeeps(d: DfuData, inFlight: bool)
    ensures ShapeKept(ResetState(d)) && BufferKept(ResetState(d), inFlight)
  {
  }

  lemma EndBusyKeeps(d: DfuData, outcome: DfuStatus, inFlight: bool)
    requires ShapeKept(d) && Busy(d.state) && BufferKept(d, inFlight)
    ensures ShapeKept(DfuMachine.BusyEnd(d, outcome)) && BufferKept(DfuMachine.BusyEnd(d, outcome), inFlight)
    ensures !Busy(DfuMachine.BusyEnd(d, outcome).state)
  {
  }

  lemma ErrorKeeps(d: DfuData, inFlight: bool)
    ensures ShapeKept(ToError(d, ErrStalledPkt)) && BufferKept(ToError(d, ErrStalledPkt), inFlight)
    ensures !Busy(ToError(d, ErrStalledPkt).state)
  {
  }

  lemma DispatchKeeps(layout: Layout, s: System)
    requires s.task.Counted? && Handover(s) && RecordKept(s)
    ensures RecordKept(Dispatched(layout, s))
  {
    hide Handle, ShapeKept, BufferKept, ToError, UploadHeld;
    NotBusyYet(s);
    if s.task.value != 1 {
      ErrorKeeps(s.dfu, DnloadInFlight(Dispatched(layout, s)));
    } else {
      var r := Selected(s.task.bits).value;
      HandleKeeps(layout, s.dfu, s.flash, r, DnloadInFlight(Dispatched(layout, s)));
    }
  }

  lemma NotBusyYet(s: System)
    requires RecordKept(s) && s.task.Counted?
    ensures !Busy(s.dfu.state) && ShapeKept(s.dfu)
  {
  }

  lemma RecordStep(layout: Layout, s: System, a: Action)
    requires Handover(s) && RecordKept(s)
    ensures RecordKept(Next(layout, s, a))
  {
    if Enabled(s, a) {
      match a
      case Fill(c) => FillKeeps(s.dfu, c, DnloadInFlight(s));
      case Dispatch => DispatchKeeps(layout, s);
      case EndBusy => EndBusyKeeps(s.dfu, s.task.outcome, DnloadInFlight(s));
      case _ =>
    }
  }

  lemma {:induction false} RecordRun(layout: Layout, s: System, actions: seq<Action>)
    requires Handover(s) && RecordKept(s)
    ensures RecordKept(Run(layout, s, actions))
    decreases actions
  {
    if actions != [] {
      RecordStep(layout, s, actions[0]);
      HandoverStep(layout, s, actions[0]);
      RecordRun(layout, Next(layout, s, actions[0]), actions[1..]);
    }
  }

  /** Nobody is in the middle of anything. */
  predicate Quiescent(s: System) {
    s.servicer.Ready? && s.task.Waiting? && s.bits == {}
  }

  /** Every quiescent state an interleaving can reach: only eight of the states occur, a 128-byte
      fragment fits the buffer, idle and error states have nothing in progress and start at
      block and fragment 0, and outside a transfer the buffer is blank behind the fragments
      assembled so far. A non-zero status is reported exactly in dfuERROR. */
  lemma QuiescentStates(layout: Layout, contents: seq<byte>, actions: seq<Action>)
    ensures var s := Run(layout, Start(contents), actions);
            Quiescent(s) ==>
              && LiveState(s.dfu.state) && !Busy(s.dfu.state)
              && (s.dfu.fragNumber + 1) * XFER_SIZE <= |s.dfu.buffer| == SECTOR_SIZE
              && (s.dfu.state in {DfuIdle, DfuError} ==>
                    !s.dfu.inProgress && s.dfu.blockNumber == 0 && s.dfu.fragNumber == 0)
              && (s.dfu.state in {DfuIdle, DnloadIdle, DfuError} ==>
                    BlankFrom(s.dfu.buffer, s.dfu.fragNumber * XFER_SIZE))
              && (s.dfu.state == DfuError <==> s.dfu.status != StatusOk)
  {
    HandoverRun(layout, Start(contents), actions);
    RecordRun(layout, Start(contents), actions);
  }

  // ---------------------------------------------------------------- the servicer's forecast

  /** GETSTATUS as one uninterrupted transaction, up to the first state the task enters. */
  function GetStatusActions(now: u32, later: u32): seq<Action> {
    [Fill(CmdGetStatus(now, later)), Answer] + DeliverActions() + [Dispatch]
  }

  lemma GetStatusRun(layout: Layout, s: System, now: u32, later: u32)
    requires Quiescent(s) && Handover(s) && RecordKept(s)
    ensures Run(layout, s, GetStatusActions(now, later)).dfu ==
            if Lost(s) then ToError(FillGetStatus(s.dfu.state, s.dfu, now, later), ErrStalledPkt)
            else HandleGetStatus(FillGetStatus(s.dfu.state, s.dfu, now, later))
  {
    var asked := Next(layout, s, Fill(CmdGetStatus(now, later)));
    var answered := Next(layout, asked, Answer);
    RunCons(layout, s, Fill(CmdGetStatus(now, later)), [Answer]);
    RunCons(layout, asked, Answer, []);
    Deliver(layout, answered);
    RunAppend(layout, s, [Fill(CmdGetStatus(now, later)), Answer], DeliverActions());
    RunAppend(layout, s, [Fill(CmdGetStatus(now, later)), Answer] + DeliverActions(), [Dispatch]);
    RunCons(layout, Run(layout, answered, DeliverActions()), Dispatch, []);
  }

  /** A task that waits after a loss waits in dfuERROR with errSTALLEDPKT. */
  predicate LossShows(s: System) {
    Lost(s) && s.task.Waiting? ==> s.dfu.state == DfuError && s.dfu.status == ErrStalledPkt
  }

  lemma LossShowsStep(layout: Layout, s: System, a: Action)
    requires Handover(s) && LossShows(s)
    ensures LossShows(Next(layout, s, a))
  {
    hide UploadHeld, Handle, BusyFlash, ResetState, Forecast, PolledEarly;
  }

  lemma {:induction false} LossShowsRun(layout: Layout, s: System, actions: seq<Action>)
    requires Handover(s) && LossShows(s)
    ensures LossShows(Run(layout, s, actions))
    decreases actions
  {
    if actions != [] {
      LossShowsStep(layout, s, actions[0]);
      HandoverStep(layout, s, actions[0]);
      LossShowsRun(layout, Next(layout, s, actions[0]), actions[1..]);
    }
  }

  /** From any reachable state without a backlog, the state the servicer announces is the first
      one the task enters on that same request, entry to dfuDNBUSY and dfuMANIFEST included, and
      the status it reports is the one the task then has, an error exactly with dfuERROR. Only
      dfuDNBUSY is announced with a time-out. That holds after a lost request too: by then the
      engine sits in dfuERROR and stays there. */
  lemma ForecastComesTrue(layout: Layout, contents: seq<byte>, actions: seq<Action>, now: u32, later: u32)
    requires Quiescent(Run(layout, Start(contents), actions))
    ensures var s := Run(layout, Start(contents), actions);
            var t := Run(layout, s, GetStatusActions(now, later));
            var answer := Forecast(s.dfu.state, s.dfu, now);
            && t.dfu.state == answer.nextState && t.dfu.status == answer.currentStatus
            && (answer.currentStatus != StatusOk <==> answer.nextState == DfuError)
            && (answer.nextState != DnBusy ==> answer.timeoutMs == 0)
  {
    HandoverRun(layout, Start(contents), actions);
    RecordRun(layout, Start(contents), actions);
    LossShowsRun(layout, Start(contents), actions);
    GetStatusRun(layout, Run(layout, Start(contents), actions), now, later);
  }

  // ---------------------------------------------------------------- time-outs

  /** The record of the time-out is that of the last answer: what was announced, and the clock after
      it; nothing else touches it. */
  lemma LastAnswer(layout: Layout, s: System, a: Action)
    ensures var d, e := s.dfu, Next(layout, s, a).dfu;
      if a.Answer? && Enabled(s, a) then
        && e.previousTimeoutMs == Forecast(s.servicer.seen, d, s.servicer.now).timeoutMs
        && e.timeoutStart == s.servicer.later
      else SameTiming(d, e)
  {
    hide PolledEarly, BusyFlash, Dispatched, DfuMachine.BusyEnd, Forecast;
    if Enabled(s, a) {
      match a
      case Dispatch => DispatchTiming(layout, s);
      case EndBusy => BusyEndTiming(s.dfu, s.task.outcome);
      case _ =>
    }
  }

  /** The time-outs the servicer ever records. */
  predicate TimeoutKept(d: DfuData) {
    d.previousTimeoutMs in {0, TIMEOUT_BUFFER_MS, TIMEOUT_WRITE_MS, TIMEOUT_ERASE_MS}
  }

  predicate SameTiming(d: DfuData, e: DfuData) {
    d.previousTimeoutMs == e.previousTimeoutMs && d.timeoutStart == e.timeoutStart
  }

  lemma HandleTiming(layout: Layout, d: DfuData, f: FlashData, r: Request)
    ensures SameTiming(d, Handle(layout, d, f, r))
  {
    hide Patch, Zeros, ReadFrom;
    if r == ReqUpload {
      UploadFallThrough(layout, d, f);
    }
  }

  lemma BusyEndTiming(d: DfuData, outcome: DfuStatus)
    requires d.fragNumber < NUM_FRAGMENTS
    ensures SameTiming(d, DfuMachine.BusyEnd(d, outcome))
  {
    hide ToError, Zeros;
    forall e: DfuData, status: DfuStatus
      ensures SameTiming(e, ToError(e, status))
    {
      ErrorTiming(e, status);
    }
  }

  lemma ErrorTiming(d: DfuData, status: DfuStatus)
    ensures SameTiming(d, ToError(d, status))
  {
  }

  lemma DispatchTiming(layout: Layout, s: System)
    requires s.task.Counted?
    ensures SameTiming(s.dfu, Dispatched(layout, s).dfu)
  {
    hide Handle, Zeros;
    if s.task.value == 1 && Selected(s.task.bits).Some? {
      HandleTiming(layout, s.dfu, s.flash, Selected(s.task.bits).value);
    }
  }

  lemma TimeoutStep(layout: Layout, s: System, a: Action)
    requires TimeoutKept(s.dfu)
    ensures TimeoutKept(Next(layout, s, a).dfu)
  {
    hide PolledEarly, BusyFlash, Dispatched, DfuMachine.BusyEnd;
    if Enabled(s, a) {
      match a
      case Dispatch => DispatchTiming(layout, s);
      case EndBusy => BusyEndTiming(s.dfu, s.task.outcome);
      case _ =>
    }
  }

  lemma {:induction false} TimeoutRun(layout: Layout, s: System, actions: seq<Action>)
    requires TimeoutKept(s.dfu)
    ensures TimeoutKept(Run(layout, s, actions).dfu)
    decreases actions
  {
    if actions != [] {
      TimeoutStep(layout, s, actions[0]);
      TimeoutRun(layout, Next(layout, s, actions[0]), actions[1..]);
    }
  }

  /** In every run the early-poll test is the window it is meant to be: a poll is early exactly
      when it comes 1 to `timeout` ticks after the last answer, modulo 2^32. */
  lemma EarlyPollInRuns(layout: Layout, contents: seq<byte>, actions: seq<Action>, now: u32)
    ensures var d := Run(layout, Start(contents), actions).dfu;
            && TimeoutKept(d)
            && (PolledEarly(d, now) <==>
                  1 <= Wrap32(now - d.timeoutStart) <= TICKS_PER_MS * d.previousTimeoutMs)
  {
    TimeoutRun(layout, Start(contents), actions);
    EarlyPollWindow(Run(layout, Start(contents), actions).dfu, now);
  }

  // ---------------------------------------------------------------- early polls

  /** In every run, the servicer answers a poll that it saw arrive in a busy state: when it comes 1
      to `timeout` ticks after the last answer it announces dfuERROR and raises the flag with
      errSTALLEDPKT; otherwise it leaves the flag alone and repeats what the record says, with the
      same time-out. */
  lemma PollWhileBusy(layout: Layout, contents: seq<byte>, actions: seq<Action>)
    ensures var s := Run(layout, Start(contents), actions);
      s.servicer.Polling? && Busy(s.servicer.seen) ==>
        var d, e := s.dfu, Next(layout, s, Answer).dfu;
        var answer := Forecast(s.servicer.seen, d, s.servicer.now);
        if 1 <= (s.servicer.now - d.timeoutStart) % 0x1_0000_0000 <= 100_000 * d.previousTimeoutMs then
          answer.nextState == DfuError && e.moveToError && e.moveToErrorStatus == ErrStalledPkt
        else
          && e.moveToError == d.moveToError
          && answer == StatusPacket(d.state, d.status, d.previousTimeoutMs)
  {
    var s := Run(layout, Start(contents), actions);
    if s.servicer.Polling? && Busy(s.servicer.seen) {
      EarlyPollInRuns(layout, contents, actions, s.servicer.now);
      AnswerWhileBusy(layout, s);
    }
  }

  lemma AnswerWhileBusy(layout: Layout, s: System)
    requires s.servicer.Polling? && Busy(s.servicer.seen)
    ensures var d, e, early := s.dfu, Next(layout, s, Answer).dfu, PolledEarly(s.dfu, s.servicer.now);
      && Forecast(s.servicer.seen, d, s.servicer.now) ==
         (if early then StatusPacket(DfuError, d.status, 0) else StatusPacket(d.state, d.status, d.previousTimeoutMs))
      && e.moveToError == (early || d.moveToError)
      && (early ==> e.moveToErrorStatus == ErrStalledPkt)
  {
    hide PolledEarly;
  }

  /** A run in which a busy phase ends under the flag: it ends in dfuERROR with errSTALLEDPKT. */
  ghost predicate BusyFails(layout: Layout, s: System, actions: seq<Action>) {
    exists k :: 0 <= k < |actions| && actions[k].EndBusy? && FlagUp(layout, s, actions, k)
                && FailedAt(Run(layout, s, actions[..k + 1]).dfu)
  }

  predicate FailedAt(d: DfuData) {
    d.state == DfuError && d.status == ErrStalledPkt
  }

  /** While the task is busy only the end of that phase brings the flag down. */
  lemma {:induction false} BusyUnderFlag(layout: Layout, s: System, actions: seq<Action>)
    requires Handover(s) && RecordKept(s) && s.dfu.moveToError && (s.task.BusyBegun? || s.task.BusyDone?)
    ensures BusyFails(layout, s, actions)
         || var t := Run(layout, s, actions); t.dfu.moveToError && (t.task.BusyBegun? || t.task.BusyDone?)
    decreases actions
  {
    hide Next;
    if actions != [] {
      var t, rest := Next(layout, s, actions[0]), actions[1..];
      assert actions[..1] == [actions[0]] + [];
      RunCons(layout, s, actions[0], []);
      BusyUnderFlagStep(layout, s, actions[0]);
      if t.dfu.moveToError && (t.task.BusyBegun? || t.task.BusyDone?) {
        RecordStep(layout, s, actions[0]);
        HandoverStep(layout, s, actions[0]);
        BusyUnderFlag(layout, t, rest);
        if BusyFails(layout, t, rest) {
          var k :| 0 <= k < |rest| && rest[k].EndBusy? && FlagUp(layout, t, rest, k)
                   && FailedAt(Run(layout, t, rest[..k + 1]).dfu);
          RunsLater(layout, s, actions, k);
        }
      } else {
        assert actions[0].EndBusy? && FlagUp(layout, s, actions, 0);
      }
    }
  }

  lemma BusyUnderFlagStep(layout: Layout, s: System, a: Action)
    requires Handover(s) && RecordKept(s) && s.dfu.moveToError && (s.task.BusyBegun? || s.task.BusyDone?)
    ensures var t := Next(layout, s, a);
      if a.EndBusy? && Enabled(s, a) then FailedAt(t.dfu)
      else t.dfu.moveToError && (t.task.BusyBegun? || t.task.BusyDone?)
  {
    hide PolledEarly, Forecast, BusyFlash;
  }

  lemma RunsLater(layout: Layout, s: System, actions: seq<Action>, k: nat)
    requires s.dfu.moveToError && k + 1 < |actions|
    requires FlagUp(layout, Next(layout, s, actions[0]), actions[1..], k)
    ensures FlagUp(layout, s, actions, k + 1)
    ensures Run(layout, s, actions[..k + 2]) == Run(layout, Next(layout, s, actions[0]), actions[1..][..k + 1])
  {
    hide Next;
    var t, rest := Next(layout, s, actions[0]), actions[1..];
    forall j | 0 < j <= k + 2
      ensures Run(layout, s, actions[..j]) == Run(layout, t, rest[..j - 1])
    {
      assert actions[..j] == [actions[0]] + rest[..j - 1];
      RunCons(layout, s, actions[0], rest[..j - 1]);
    }
  }

  /** From the poll to its end, in every run: a host that polls a busy task too early has its
      download or manifest fail with errSTALLEDPKT when the busy phase ends, whatever happens in
      between. */
  lemma EarlyPollFails(layout: Layout, contents: seq<byte>, actions: seq<Action>, more: seq<Action>)
    requires var s := Run(layout, Start(contents), actions);
      && s.servicer.Polling? && Busy(s.servicer.seen) && (s.task.BusyBegun? || s.task.BusyDone?)
      && 1 <= (s.servicer.now - s.dfu.timeoutStart) % 0x1_0000_0000 <= 100_000 * s.dfu.previousTimeoutMs
    ensures var s := Next(layout, Run(layout, Start(contents), actions), Answer);
      BusyFails(layout, s, more)
      || var t := Run(layout, s, more); t.dfu.moveToError && (t.task.BusyBegun? || t.task.BusyDone?)
  {
    hide BusyFails;
    var s := Run(layout, Start(contents), actions);
    PollWhileBusy(layout, contents, actions);
    HandoverRun(layout, Start(contents), actions);
    RecordRun(layout, Start(contents), actions);
    RecordStep(layout, s, Answer);
    HandoverStep(layout, s, Answer);
    BusyUnderFlag(layout, Next(layout, s, Answer), more);
  }

  /** The flag an early poll raises is up after each of the first `count` actions. */
  ghost predicate FlagUp(layout: Layout, s: System, actions: seq<Action>, count: nat)
    requires count <= |actions|
  {
    forall j :: 0 <= j <= count ==> Run(layout, s, actions[..j]).dfu.moveToError
  }

  /** The flag comes down only when the engine is reset or fails, and a busy phase that ends
      under it fails with errSTALLEDPKT. */
  lemma FlagStep(layout: Layout, s: System, a: Action)
    requires Handover(s) && RecordKept(s) && s.dfu.moveToError
    ensures var t := Next(layout, s, a);
            && (a.EndBusy? && Enabled(s, a) ==> t.dfu.state == DfuError && t.dfu.status == ErrStalledPkt)
            && (!t.dfu.moveToError ==> (a.Dispatch? || a.EndBusy?) && t.dfu.state in {DfuIdle, DfuError})
  {
  }

  /** In every run from a state in which the host has polled too early, the flag stays up until
      one action, the first to bring it down, leaves the engine in dfuIDLE or dfuERROR; if that
      action ends a busy phase, it does so in dfuERROR with errSTALLEDPKT. */
  lemma {:induction false} EarlyPollIsFatal(layout: Layout, s: System, actions: seq<Action>)
    requires Handover(s) && RecordKept(s) && s.dfu.moveToError
    requires !Run(layout, s, actions).dfu.moveToError
    ensures exists k :: 0 <= k < |actions| && FlagUp(layout, s, actions, k) && BroughtDown(layout, s, actions, k)
    decreases actions
  {
    var t, rest := Next(layout, s, actions[0]), actions[1..];
    FlagStep(layout, s, actions[0]);
    assert actions[..1] == [actions[0]] + [];
    RunCons(layout, s, actions[0], []);
    if t.dfu.moveToError {
      RecordStep(layout, s, actions[0]);
      HandoverStep(layout, s, actions[0]);
      EarlyPollIsFatal(layout, t, rest);
      var k :| 0 <= k < |rest| && FlagUp(layout, t, rest, k) && BroughtDown(layout, t, rest, k);
      FlagLater(layout, s, actions, k);
    } else {
      assert FlagUp(layout, s, actions, 0) && BroughtDown(layout, s, actions, 0);
    }
  }

  /** The story of a run told one action later. */
  lemma FlagLater(layout: Layout, s: System, actions: seq<Action>, k: nat)
    requires s.dfu.moveToError && k + 1 < |actions|
    requires FlagUp(layout, Next(layout, s, actions[0]), actions[1..], k)
    requires BroughtDown(layout, Next(layout, s, actions[0]), actions[1..], k)
    ensures FlagUp(layout, s, actions, k + 1) && BroughtDown(layout, s, actions, k + 1)
  {
    hide Next;
    RunsLater(layout, s, actions, k);
  }

  ghost predicate BroughtDown(layout: Layout, s: System, actions: seq<Action>, k: nat)
    requires k < |actions|
  {
    var t := Run(layout, s, actions[..k + 1]).dfu;
    && !t.moveToError
    && (actions[k].Dispatch? || actions[k].EndBusy?)
    && t.state in {DfuIdle, DfuError}
    && (actions[k].EndBusy? ==> t.state == DfuError && t.status == ErrStalledPkt)
  }
}
