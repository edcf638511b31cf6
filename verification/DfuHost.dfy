/** A host that waits for every request to finish: what its transactions add up to. */
module DfuHost {
  import Words
  import opened DfuTypes
  import opened DfuFlash
  import opened DfuMachine
  import opened DfuProtocol
  import DfuHandover
  import DfuSafety

  // ---------------------------------------------------------------- one transaction

  /** A command from the servicer's first move to the end of all the work it causes; steps the
      command does not need are disabled and change nothing. */
  function Transaction(c: Command): seq<Action> {
    [Fill(c), Answer] + (DeliverActions() + [Dispatch, FlashWork, EndBusy, TakeSemaphore])
  }

  /** The servicer's half of a command. */
  function Serviced(d: DfuData, c: Command): DfuData
    requires c.Legal()
  {
    match c
    case CmdGetStatus(now, later) => FillGetStatus(d.state, d, now, later)
    case _ => FillWith(d, c)
  }

  /** A command as one indivisible operation on the record and the flash. */
  function Transact(layout: Layout, d: DfuData, f: FlashData, c: Command): (DfuData, FlashData)
    requires c.Legal() && !c.CmdSetTransferBlock?
    requires |d.buffer| == SECTOR_SIZE && d.fragNumber < NUM_FRAGMENTS
    ensures Transact(layout, d, f, c).0.fragNumber < NUM_FRAGMENTS
    ensures |Transact(layout, d, f, c).0.buffer| == SECTOR_SIZE
  {
    Process(layout, Serviced(d, c), f, RequestOf(c))
  }

  /** The record without what only the time-outs use. */
  function Untimed(d: DfuData): DfuData {
    d.(previousTimeoutMs := 0, timeoutStart := 0)
  }

  /** Ready for the next command, with nothing lost so far. */
  predicate Rested(s: System) {
    DfuSafety.Quiescent(s) && !s.semaphore && !DfuHandover.Lost(s) && DfuHandover.Handover(s) && DfuSafety.RecordKept(s)
  }

  lemma ServicedRun(layout: Layout, s: System, c: Command)
    requires Rested(s) && c.Legal() && !c.CmdSetTransferBlock?
    ensures Run(layout, s, [Fill(c), Answer]) == s.(dfu := Serviced(s.dfu, c), servicer := Filled(RequestOf(c)))
  {
    RunCons(layout, s, Fill(c), [Answer]);
    RunCons(layout, Next(layout, s, Fill(c)), Answer, []);
  }

  /** The busy phase of a dispatched request, if it has one. */
  lemma BusyRun(layout: Layout, s: System)
    requires |s.dfu.buffer| == SECTOR_SIZE && s.dfu.fragNumber < NUM_FRAGMENTS
    requires s.task == if Busy(s.dfu.state) then BusyBegun else Waiting
    ensures Run(layout, s, [FlashWork, EndBusy]) ==
            if Busy(s.dfu.state) then
              var (g, outcome) := BusyFlash(layout, s.dfu, s.flash);
              s.(dfu := DfuMachine.BusyEnd(s.dfu, outcome), flash := g, task := Waiting)
            else s
  {
    RunCons(layout, s, FlashWork, [EndBusy]);
    RunCons(layout, Next(layout, s, FlashWork), EndBusy, []);
  }

  lemma RecordBounds(s: System)
    requires DfuSafety.RecordKept(s)
    ensures |s.dfu.buffer| == SECTOR_SIZE && s.dfu.fragNumber < NUM_FRAGMENTS
  {
  }

  /** The task's part of a transaction, from the counter read to rest. */
  lemma WorkRun(layout: Layout, s: System, r: Request)
    requires s.task == Counted({r}, 1) && s.bits == {} && !s.semaphore && DfuSafety.RecordKept(s)
    requires s.servicer == if r == ReqUpload then AwaitUpload else Ready
    ensures var (d, f) := Process(layout, s.dfu, s.flash, r);
            Run(layout, s, [Dispatch, FlashWork, EndBusy, TakeSemaphore])
            == s.(dfu := d, flash := f, task := Waiting, servicer := Ready)
  {
    hide Handle, BusyFlash, DfuMachine.BusyEnd, DfuSafety.ShapeKept, DfuSafety.BufferKept;
    RecordBounds(s);
    HandleInBounds(layout, s.dfu, s.flash, r);
    assert Selected({r}) == Words.Some(r);
    var dispatched := Next(layout, s, Dispatch);
    RunCons(layout, s, Dispatch, [FlashWork, EndBusy, TakeSemaphore]);
    RunAppend(layout, dispatched, [FlashWork, EndBusy], [TakeSemaphore]);
    BusyRun(layout, dispatched);
    RunCons(layout, Run(layout, dispatched, [FlashWork, EndBusy]), TakeSemaphore, []);
  }

  /** The two tasks together, undisturbed, are the indivisible operation. */
  lemma TransactionRun(layout: Layout, s: System, c: Command)
    requires Rested(s) && c.Legal() && !c.CmdSetTransferBlock?
    ensures var t := Run(layout, s, Transaction(c));
            Rested(t) && (t.dfu, t.flash) == Transact(layout, s.dfu, s.flash, c)
  {
    var asked := Run(layout, s, [Fill(c), Answer]);
    var counted := Run(layout, asked, DeliverActions());
    ServicedRun(layout, s, c);
    Deliver(layout, asked);
    RunAppend(layout, s, [Fill(c), Answer], DeliverActions() + [Dispatch, FlashWork, EndBusy, TakeSemaphore]);
    RunAppend(layout, asked, DeliverActions(), [Dispatch, FlashWork, EndBusy, TakeSemaphore]);
    DfuHandover.HandoverRun(layout, s, Transaction(c));
    DfuSafety.RecordRun(layout, s, Transaction(c));
    RunAppend(layout, s, [Fill(c), Answer], DeliverActions());
    DfuSafety.RecordRun(layout, s, [Fill(c), Answer] + DeliverActions());
    WorkRun(layout, counted, RequestOf(c));
  }

  // ---------------------------------------------------------------- many transactions

  predicate Served(cs: seq<Command>) {
    forall i :: 0 <= i < |cs| ==> cs[i].Legal() && !cs[i].CmdSetTransferBlock?
  }

  function Transactions(cs: seq<Command>): seq<Action> {
    if cs == [] then [] else Transaction(cs[0]) + Transactions(cs[1..])
  }

  function TransactAll(layout: Layout, d: DfuData, f: FlashData, cs: seq<Command>): (r: (DfuData, FlashData))
    requires Served(cs) && |d.buffer| == SECTOR_SIZE && d.fragNumber < NUM_FRAGMENTS
    ensures |r.0.buffer| == SECTOR_SIZE && r.0.fragNumber < NUM_FRAGMENTS
    decreases cs
  {
    if cs == [] then (d, f)
    else
      var (d', f') := Transact(layout, d, f, cs[0]);
      TransactAll(layout, d', f', cs[1..])
  }

  lemma {:induction false} TransactionsRun(layout: Layout, s: System, cs: seq<Command>)
    requires Rested(s) && Served(cs)
    ensures var t := Run(layout, s, Transactions(cs));
            Rested(t) && (t.dfu, t.flash) == TransactAll(layout, s.dfu, s.flash, cs)
    decreases cs
  {
    if cs != [] {
      TransactionRun(layout, s, cs[0]);
      RunAppend(layout, s, Transaction(cs[0]), Transactions(cs[1..]));
      TransactionsRun(layout, Run(layout, s, Transaction(cs[0])), cs[1..]);
    }
  }

  lemma {:induction false} TransactAppend(layout: Layout, d: DfuData, f: FlashData, first: seq<Command>,
                                          second: seq<Command>)
    requires Served(first) && Served(second) && |d.buffer| == SECTOR_SIZE && d.fragNumber < NUM_FRAGMENTS
    ensures Served(first + second)
    ensures TransactAll(layout, d, f, first + second) ==
            var (d', f') := TransactAll(layout, d, f, first);
            TransactAll(layout, d', f', second)
    decreases first
  {
    if first == [] {
      assert first + second == second;
    } else {
      var (d', f') := Transact(layout, d, f, first[0]);
      assert (first + second)[1..] == first[1..] + second;
      TransactAppend(layout, d', f', first[1..], second);
    }
  }
}
