/** The servicer task and the state-machine task running against each other.

    A system is advanced by actions; an action that is not enabled leaves it as it is, so
    every list of actions is an interleaving and every interleaving is a list of actions. */
module DfuProtocol {
  import opened Words
  import opened DfuTypes
  import opened DfuFlash
  import opened DfuMachine

  /** A host command as it reaches the servicer, with its arguments and clock readings. */
  datatype Command =
    | CmdDnload(data: seq<byte>)
    | CmdUpload
    | CmdGetStatus(now: u32, later: u32)
    | CmdClrStatus
    | CmdAbort
    | CmdSetAlternate(alt: byte)
    | CmdSetTransferBlock(block: u16)
  {
    /** The servicer's length assertion. */
    predicate Legal() {
      CmdDnload? ==> |data| <= XFER_SIZE
    }
  }

  /** Where the servicer is in its current call. */
  datatype ServicerPc =
    | Ready
    | Polling(now: u32, later: u32, seen: DfuState)
    | Filled(request: Request)
    | Given(request: Request)
    | AwaitUpload

  /** Where the state-machine task is in its loop. */
  datatype TaskPc =
    | Waiting
    | Woken(bits: set<Request>)
    | Counted(bits: set<Request>, value: nat)
    | BusyBegun
    | BusyDone(outcome: DfuStatus)

  /** How often each half of the hand-over has happened so far. */
  datatype History = History(gives: nat, notifies: nat, consumed: nat, wakes: nat, takes: nat)

  datatype System = System(
    dfu: DfuData,
    flash: FlashData,
    servicer: ServicerPc,
    task: TaskPc,
    bits: set<Request>,
    counter: nat,
    semaphore: bool,
    history: History)

  datatype Action =
    | Fill(command: Command)
    | Answer
    | Give
    | Notify
    | TakeSemaphore
    | Wake
    | TakeCounter
    | Dispatch
    | FlashWork
    | EndBusy

  function RequestOf(c: Command): Request
    requires !c.CmdSetTransferBlock?
  {
    match c
    case CmdDnload(_) => ReqDnload
    case CmdUpload => ReqUpload
    case CmdGetStatus(_, _) => ReqGetStatus
    case CmdClrStatus => ReqClrStatus
    case CmdAbort => ReqAbort
    case CmdSetAlternate(_) => ReqSetAlternate
  }

  /** The servicer's writes to the shared record before it notifies; GETSTATUS only looks at
      the state here and writes when it answers. */
  function FillWith(d: DfuData, c: Command): DfuData
    requires c.Legal()
  {
    match c
    case CmdDnload(data) => FillDnload(d, data)
    case CmdSetAlternate(alt) => d.(altSetting := alt)
    case CmdSetTransferBlock(block) => d.(transferBlock := block)
    case _ => d
  }

  predicate Enabled(s: System, a: Action) {
    match a
    case Fill(c) => s.servicer.Ready? && c.Legal()
    case Answer => s.servicer.Polling?
    case Give => s.servicer.Filled?
    case Notify => s.servicer.Given?
    case TakeSemaphore => s.servicer.AwaitUpload? && s.semaphore
    case Wake => s.task.Waiting? && s.bits != {}
    case TakeCounter => s.task.Woken?
    case Dispatch => s.task.Counted?
    case FlashWork => s.task.BusyBegun? && |s.dfu.buffer| == SECTOR_SIZE
    case EndBusy => s.task.BusyDone? && s.dfu.fragNumber < NUM_FRAGMENTS
  }

  /** The case the switch over the notification value picks, if the value is a single bit. */
  function Selected(bits: set<Request>): Option<Request> {
    if bits == {ReqDnload} then Some(ReqDnload)
    else if bits == {ReqUpload} then Some(ReqUpload)
    else if bits == {ReqGetStatus} then Some(ReqGetStatus)
    else if bits == {ReqClrStatus} then Some(ReqClrStatus)
    else if bits == {ReqAbort} then Some(ReqAbort)
    else if bits == {ReqSetAlternate} then Some(ReqSetAlternate)
    else None
  }

  /** The task acts on what it took: the counter decides whether the bits can be trusted. */
  function Dispatched(layout: Layout, s: System): System
    requires s.task.Counted?
  {
    if s.task.value != 1 then
      s.(dfu := ToError(s.dfu, ErrStalledPkt), task := Waiting)
    else
      match Selected(s.task.bits)
      case None => s.(task := Waiting)
      case Some(r) =>
        var d := Handle(layout, s.dfu, s.flash, r);
        s.(dfu := d,
           task := if Busy(d.state) then BusyBegun else Waiting,
           semaphore := s.semaphore || r == ReqUpload)
  }

  function Step(layout: Layout, s: System, a: Action): System
    requires Enabled(s, a)
  {
    match a
    case Fill(c) =>
      s.(dfu := FillWith(s.dfu, c),
         servicer := match c
                     case CmdSetTransferBlock(_) => Ready
                     case CmdGetStatus(now, later) => Polling(now, later, s.dfu.state)
                     case _ => Filled(RequestOf(c)))
    case Answer =>
      var Polling(now, later, seen) := s.servicer;
      s.(dfu := FillGetStatus(seen, s.dfu, now, later),
         servicer := if Busy(seen) then Ready else Filled(ReqGetStatus))
    case Give =>
      s.(counter := s.counter + 1, servicer := Given(s.servicer.request),
         history := s.history.(gives := s.history.gives + 1))
    case Notify =>
      s.(bits := s.bits + {s.servicer.request},
         servicer := if s.servicer.request == ReqUpload then AwaitUpload else Ready,
         history := s.history.(notifies := s.history.notifies + 1))
    case TakeSemaphore =>
      s.(semaphore := false, servicer := Ready)
    case Wake =>
      s.(bits := {}, task := Woken(s.bits),
         history := s.history.(wakes := s.history.wakes + 1, consumed := s.history.notifies))
    case TakeCounter =>
      s.(counter := if s.counter == 0 then 0 else s.counter - 1,
         task := Counted(s.task.bits, s.counter),
         history := s.history.(takes := s.history.takes + 1))
    case Dispatch =>
      Dispatched(layout, s)
    case FlashWork =>
      var (g, outcome) := BusyFlash(layout, s.dfu, s.flash);
      s.(flash := g, task := BusyDone(outcome))
    case EndBusy =>
      s.(dfu := DfuMachine.BusyEnd(s.dfu, s.task.outcome), task := Waiting)
  }

  function Next(layout: Layout, s: System, a: Action): System {
    if Enabled(s, a) then Step(layout, s, a) else s
  }

  function Run(layout: Layout, s: System, actions: seq<Action>): System
    decreases actions
  {
    if actions == [] then s
    else Run(layout, Next(layout, s, actions[0]), actions[1..])
  }

  /** The system once the task has initialised the record: any flash contents, nothing latched. */
  function Start(contents: seq<byte>): System {
    System(
      DfuData(0, DfuIdle, StatusOk, false, false, StatusOk, 0, 0, 0, 0, Zeros(SECTOR_SIZE), 0, 0),
      FlashData(0, 0, 0, contents),
      Ready, Waiting, {}, 0, false, History(0, 0, 0, 0, 0))
  }

  lemma {:induction false} RunAppend(layout: Layout, s: System, first: seq<Action>, second: seq<Action>)
    ensures Run(layout, s, first + second) == Run(layout, Run(layout, s, first), second)
    decreases first
  {
    if first == [] {
      assert first + second == second;
    } else {
      assert (first + second)[1..] == first[1..] + second;
      RunAppend(layout, Next(layout, s, first[0]), first[1..], second);
    }
  }

  /** Runs one action and leaves the rest, for concrete traces. */
  lemma RunCons(layout: Layout, s: System, a: Action, rest: seq<Action>)
    ensures Run(layout, s, [a] + rest) == Run(layout, Next(layout, s, a), rest)
  {
    assert ([a] + rest)[1..] == rest;
  }

  /** The hand-over of one request to an idle task, step by step. */
  function DeliverActions(): seq<Action> {
    [Give, Notify, Wake, TakeCounter]
  }

  lemma Deliver(layout: Layout, s: System)
    requires s.servicer.Filled? && s.task.Waiting? && s.bits == {}
    ensures Run(layout, s, DeliverActions()) ==
            s.(servicer := if s.servicer.request == ReqUpload then AwaitUpload else Ready,
               task := Counted({s.servicer.request}, s.counter + 1),
               history := History(s.history.gives + 1, s.history.notifies + 1, s.history.notifies + 1,
                                  s.history.wakes + 1, s.history.takes + 1))
  {
    RunCons(layout, s, Give, [Notify, Wake, TakeCounter]);
    var given := Next(layout, s, Give);
    RunCons(layout, given, Notify, [Wake, TakeCounter]);
    var notified := Next(layout, given, Notify);
    assert notified.bits == {s.servicer.request};
    RunCons(layout, notified, Wake, [TakeCounter]);
    RunCons(layout, Next(layout, notified, Wake), TakeCounter, []);
  }
}
