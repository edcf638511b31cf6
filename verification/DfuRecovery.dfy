/** Single commands to a system at rest, and what a host can do after an error. */
module DfuRecovery {
  import opened Words
  import opened DfuTypes
  import opened DfuFlash
  import opened DfuMachine
  import opened DfuProtocol
  import DfuHandover
  import DfuSafety
  import opened DfuPartitions
  import opened DfuHost
  import opened DfuSchedule
  import opened DfuDownload
  import opened DfuRetry
  import opened DfuAnswers

  // ---------------------------------------------------------------- one command

  /** In `state` with this status, the transfer state as after power-up and no flag up. */
  predicate Blank(d: DfuData, state: DfuState, status: DfuStatus) {
    && d.state == state && d.status == status
    && !d.inProgress && !d.moveToError && d.moveToErrorStatus == StatusOk
    && d.xferLength == 0 && d.blockNumber == 0 && d.fragNumber == 0
    && DfuSafety.BlankFrom(d.buffer, 0) && |d.buffer| == 4096
  }

  lemma ResetIsBlank(d: DfuData, status: DfuStatus)
    ensures Blank(ResetState(d), DfuIdle, StatusOk) && Blank(ToError(d, status), DfuError, status)
    ensures forall e: DfuData :: e in {ResetState(d), ToError(d, status)} ==>
              e.altSetting == d.altSetting && e.transferBlock == d.transferBlock
  {
  }

  lemma BlankAlike(d: DfuData, e: DfuData, state: DfuState, status: DfuStatus)
    requires Untimed(d) == Untimed(e) && Blank(d, state, status)
    ensures Blank(e, state, status) && e.altSetting == d.altSetting && e.transferBlock == d.transferBlock
  {
    assert e.buffer == d.buffer;
  }

  lemma OneCommand(layout: Layout, s: System, c: Command, actions: seq<Action>)
    requires Rested(s) && Gives(layout, s, actions, [c])
    ensures |s.dfu.buffer| == SECTOR_SIZE && s.dfu.fragNumber < NUM_FRAGMENTS && c.Legal() && !c.CmdSetTransferBlock?
    ensures var t := Run(layout, s, actions);
      var (e, g) := Transact(layout, s.dfu, s.flash, c);
      Rested(t) && Untimed(t.dfu) == Untimed(e) && t.flash == g
  {
    hide Transact, Gives, Rested;
    GivesTransacts(layout, s, actions, [c]);
    OnlyOne(layout, s, c, actions);
    assert [c][1..] == [];
  }

  lemma OnlyOne(layout: Layout, s: System, c: Command, actions: seq<Action>)
    requires Gives(layout, s, actions, [c])
    ensures Served([c]) && c.Legal() && !c.CmdSetTransferBlock?
  {
    assert [c][0] == c;
  }

  /** CLRSTATUS clears an error, whatever its status, and is one itself anywhere else. */
  lemma ClearStatus(layout: Layout, s: System, actions: seq<Action>)
    requires Rested(s) && Gives(layout, s, actions, [CmdClrStatus])
    ensures var t := Run(layout, s, actions);
      && Rested(t) && t.flash == s.flash
      && t.dfu.altSetting == s.dfu.altSetting && t.dfu.transferBlock == s.dfu.transferBlock
      && if s.dfu.state == DfuError then Blank(t.dfu, DfuIdle, StatusOk) else Blank(t.dfu, DfuError, ErrStalledPkt)
  {
    hide Gives, Rested, Blank, ResetState, ToError;
    OneCommand(layout, s, CmdClrStatus, actions);
    var e := Transact(layout, s.dfu, s.flash, CmdClrStatus).0;
    ResetIsBlank(s.dfu, ErrStalledPkt);
    ClearTransacts(layout, s.dfu, s.flash);
    if s.dfu.state == DfuError {
      BlankAlike(e, Run(layout, s, actions).dfu, DfuIdle, StatusOk);
    } else {
      BlankAlike(e, Run(layout, s, actions).dfu, DfuError, ErrStalledPkt);
    }
  }

  lemma ClearTransacts(layout: Layout, d: DfuData, f: FlashData)
    requires |d.buffer| == SECTOR_SIZE && d.fragNumber < NUM_FRAGMENTS
    ensures Transact(layout, d, f, CmdClrStatus) ==
            (if d.state == DfuError then ResetState(d) else ToError(d, ErrStalledPkt), f)
  {
  }

  /** ABORT ends a download or an upload between two transfers, and is an error anywhere else. */
  lemma Abort(layout: Layout, s: System, actions: seq<Action>)
    requires Rested(s) && Gives(layout, s, actions, [CmdAbort])
    ensures var t := Run(layout, s, actions);
      && Rested(t) && t.flash == s.flash
      && t.dfu.altSetting == s.dfu.altSetting && t.dfu.transferBlock == s.dfu.transferBlock
      && if s.dfu.state == UploadIdle || s.dfu.state == DnloadIdle then Blank(t.dfu, DfuIdle, StatusOk)
         else Blank(t.dfu, DfuError, ErrStalledPkt)
  {
    hide Gives, Rested, Blank, ResetState, ToError;
    OneCommand(layout, s, CmdAbort, actions);
    var e := Transact(layout, s.dfu, s.flash, CmdAbort).0;
    ResetIsBlank(s.dfu, ErrStalledPkt);
    AnyAbortTransacts(layout, s.dfu, s.flash);
    if s.dfu.state == UploadIdle || s.dfu.state == DnloadIdle {
      BlankAlike(e, Run(layout, s, actions).dfu, DfuIdle, StatusOk);
    } else {
      BlankAlike(e, Run(layout, s, actions).dfu, DfuError, ErrStalledPkt);
    }
  }

  lemma AnyAbortTransacts(layout: Layout, d: DfuData, f: FlashData)
    requires |d.buffer| == SECTOR_SIZE && d.fragNumber < NUM_FRAGMENTS
    ensures Transact(layout, d, f, CmdAbort) ==
            (if d.state == UploadIdle || d.state == DnloadIdle then ResetState(d) else ToError(d, ErrStalledPkt), f)
  {
  }

  /** SETALTERNATE resets the engine in every state, an error included. */
  lemma SetAlternate(layout: Layout, s: System, alt: byte, actions: seq<Action>)
    requires Rested(s) && Gives(layout, s, actions, [CmdSetAlternate(alt)])
    ensures var t := Run(layout, s, actions);
      && Rested(t) && t.flash == s.flash && Blank(t.dfu, DfuIdle, StatusOk)
      && t.dfu.altSetting == alt && t.dfu.transferBlock == s.dfu.transferBlock
  {
    hide Gives, Rested, Blank, ResetState;
    OneCommand(layout, s, CmdSetAlternate(alt), actions);
    AlternateTransacts(layout, s.dfu, s.flash, alt);
    ResetIsBlank(s.dfu.(altSetting := alt), ErrStalledPkt);
    BlankAlike(ResetState(s.dfu.(altSetting := alt)), Run(layout, s, actions).dfu, DfuIdle, StatusOk);
  }

  /** A DNLOAD is taken in dfuIDLE, unless it is empty, and in dfuDNLOAD-IDLE, where an empty one
      ends the download; anywhere else it is an error. */
  lemma Dnload(layout: Layout, s: System, data: seq<byte>, actions: seq<Action>)
    requires Rested(s) && Gives(layout, s, actions, [CmdDnload(data)])
    ensures var t := Run(layout, s, actions);
      && Rested(t) && t.flash == s.flash && t.dfu.altSetting == s.dfu.altSetting
      && if (s.dfu.state == DfuIdle || s.dfu.state == DnloadIdle) && data != [] then
           && t.dfu.state == DnloadSync && t.dfu.inProgress && t.dfu.status == s.dfu.status
           && t.dfu.fragNumber == s.dfu.fragNumber && t.dfu.blockNumber == s.dfu.blockNumber
           && t.dfu.xferLength == |data|
           && var at := 128 * s.dfu.fragNumber;
              && |data| <= 128 && at + 128 <= |s.dfu.buffer| == |t.dfu.buffer|
              && t.dfu.buffer == s.dfu.buffer[..at] + data + s.dfu.buffer[at + |data|..]
         else if s.dfu.state == DnloadIdle then
           t.dfu.state == ManifestSync && t.dfu.inProgress && t.dfu.status == s.dfu.status
         else
           Blank(t.dfu, DfuError, ErrStalledPkt)
  {
    hide Gives, Rested, Blank, ToError, Patch;
    OneCommand(layout, s, CmdDnload(data), actions);
    var e := Transact(layout, s.dfu, s.flash, CmdDnload(data)).0;
    assert data == [] <==> |data| == 0;
    PatchIs(s.dfu.buffer, s.dfu.fragNumber * XFER_SIZE, data);
    ResetIsBlank(FillDnload(s.dfu, data), ErrStalledPkt);
    if e == ToError(FillDnload(s.dfu, data), ErrStalledPkt) {
      BlankAlike(e, Run(layout, s, actions).dfu, DfuError, ErrStalledPkt);
    }
  }

  lemma PatchIs(memory: seq<byte>, at: nat, data: seq<byte>)
    requires at + |data| <= |memory|
    ensures Patch(memory, at, data) == memory[..at] + data + memory[at + |data|..]
  {
  }

  /** An UPLOAD anywhere but in dfuIDLE and dfuUPLOAD-IDLE is an error. */
  lemma UploadRefused(layout: Layout, s: System, actions: seq<Action>)
    requires Rested(s) && Gives(layout, s, actions, [CmdUpload])
    requires s.dfu.state != DfuIdle && s.dfu.state != UploadIdle
    ensures var t := Run(layout, s, actions);
      && Rested(t) && t.flash == s.flash && Blank(t.dfu, DfuError, ErrStalledPkt)
      && t.dfu.altSetting == s.dfu.altSetting && t.dfu.transferBlock == s.dfu.transferBlock
  {
    hide Gives, Rested, Blank, ToError;
    OneCommand(layout, s, CmdUpload, actions);
    UploadFallThrough(layout, s.dfu, s.flash);
    var cleared := s.dfu.(buffer := Zeros(SECTOR_SIZE), xferLength := 0);
    ResetIsBlank(cleared, ErrStalledPkt);
    ErrorState(cleared);
    BlankAlike(ToError(cleared, ErrStalledPkt), Run(layout, s, actions).dfu, DfuError, ErrStalledPkt);
  }

  lemma ErrorState(d: DfuData)
    ensures ToError(d, ErrStalledPkt).state == DfuError
  {
  }

  /** SETTRANSFERBLOCK sets the number of the next upload block and nothing else. */
  lemma SetTransferBlock(layout: Layout, s: System, block: u16)
    requires Rested(s)
    ensures Run(layout, s, [Fill(CmdSetTransferBlock(block))]) == s.(dfu := s.dfu.(transferBlock := block))
  {
    RunCons(layout, s, Fill(CmdSetTransferBlock(block)), []);
  }

  // ---------------------------------------------------------------- after a refused download

  /** The commands that bring the engine back to dfuIDLE after an error, to go on with `next`. */
  predicate Recovers(cs: seq<Command>, alt: byte, next: byte) {
    || (cs == [CmdClrStatus] && next == alt)
    || cs == [CmdSetAlternate(next)]
    || cs == [CmdClrStatus, CmdSetAlternate(next)]
  }

  lemma RecoverTransacts(layout: Layout, d: DfuData, f: FlashData, cs: seq<Command>, next: byte)
    requires |d.buffer| == SECTOR_SIZE && d.fragNumber < NUM_FRAGMENTS && d.state == DfuError
    requires Recovers(cs, d.altSetting, next)
    ensures Served(cs)
    ensures TransactAll(layout, d, f, cs) == (ResetState(d.(altSetting := next)), f)
  {
    hide Transact;
    ClearTransacts(layout, d, f);
    AlternateTransacts(layout, d, f, next);
    AlternateTransacts(layout, ResetState(d), f, next);
    var (e, g) := Transact(layout, d, f, cs[0]);
    if |cs| == 1 {
      assert cs[1..] == [];
    } else {
      assert cs[1..] == [CmdSetAlternate(next)];
      var (e', g') := Transact(layout, e, g, CmdSetAlternate(next));
      assert cs[1..][0] == CmdSetAlternate(next) && cs[1..][1..] == [];
      assert TransactAll(layout, e, g, cs[1..]) == (e', g');
    }
  }

  /** The engine comes back, the flash stays as it is. */
  lemma Recovered(layout: Layout, s: System, next: byte, cs: seq<Command>, actions: seq<Action>)
    requires Rested(s) && s.dfu.state == DfuError && Recovers(cs, s.dfu.altSetting, next)
    requires Gives(layout, s, actions, cs)
    ensures var t := Run(layout, s, actions);
      Rested(t) && Blank(t.dfu, DfuIdle, StatusOk) && t.dfu.altSetting == next && t.flash == s.flash
  {
    hide Gives, Rested, Blank, ResetState, Recovers;
    GivesTransacts(layout, s, actions, cs);
    RecoverTransacts(layout, s.dfu, s.flash, cs, next);
    ResetIsBlank(s.dfu.(altSetting := next), ErrStalledPkt);
    BlankAlike(ResetState(s.dfu.(altSetting := next)), Run(layout, s, actions).dfu, DfuIdle, StatusOk);
  }

  /** A host that stops at the first refused sector is told errADDRESS. */
  lemma ToldRefused(layout: Layout, s: System, alt: byte, frags: seq<seq<byte>>, cs: seq<Command>, actions: seq<Action>)
    requires layout.WellFormed() && (alt == 1 || alt == 2) && Accounted(layout, s.flash, 0)
    requires Rested(s) && s.dfu.state == DfuIdle && !s.dfu.moveToError && s.dfu.altSetting == alt
    requires Fragments(frags) && Sending(cs, frags)
    requires Room(layout, s.flash, alt) >= 0 && |frags| == Fitting(Room(layout, s.flash, alt)) + NUM_FRAGMENTS
    requires Gives(layout, s, actions, cs)
    ensures Tells(Run(layout, s, actions), StatusPacket(DfuError, ErrAddress, 0))
  {
    hide Sending, Room, Fitting, Fragments, Accounted, Rested, Polite, Commands;
    DownloadRefused(layout, s, alt, frags, cs, actions);
  }

  /** From the refusal over the recovery to the next download, for all schedules of the last two:
      the latch has survived with less than a sector of room, so that the next download, into
      whatever alternate, succeeds if and only if it is shorter than a sector; that one writes
      nothing and opens the latch. */
  lemma AfterRefusal(layout: Layout, s: System, next: byte, cs: seq<Command>, frags: seq<seq<byte>>,
                     again: seq<Command>, close: seq<Command>, actions: seq<Action>, others: seq<Action>)
    requires layout.WellFormed() && (next == 1 || next == 2)
    requires Rested(s) && s.dfu.state == DfuError && Recovers(cs, s.dfu.altSetting, next)
    requires s.flash.dnBaseAddr != 0 && Accounted(layout, s.flash, 0)
    requires 0 <= s.flash.bytesAvail - s.flash.totalLen < SECTOR_SIZE
    requires Gives(layout, s, actions, cs)
    requires frags != [] && Fragments(frags) && Sending(again, frags) && FragmentCommands(close, [])
    requires var t := Run(layout, s, actions);
      && Polite(layout, t, others) && Commands(layout, t, others) == again + close
      && DfuSafety.Quiescent(Run(layout, t, others))
    ensures var u := Run(layout, Run(layout, s, actions), others);
      && Rested(u) && u.flash.contents == s.flash.contents
      && (u.dfu.state == DfuIdle <==> |frags| < 32)
      && (u.dfu.state == DfuIdle <==> u.flash.dnBaseAddr == 0)
      && (u.dfu.state != DfuIdle ==> u.dfu.state == DfuError)
  {
    hide Sending, Laid, Latch, Polite, Commands, Rested, Recovers, Gives, Base, Room, Fitting;
    hide DfuSafety.Quiescent;
    var t := Run(layout, s, actions);
    Recovered(layout, s, next, cs, actions);
    OwnPartition(layout, s.flash, next);
    DownloadImage(layout, t, next, frags, again, close, others);
    NoneFits(Room(layout, s.flash, next), |frags|);
    LaidNone(s.flash.contents, Base(layout, s.flash, next));
    assert frags[..0] == [];
  }

  lemma NoneFits(room: nat, n: nat)
    requires room < SECTOR_SIZE
    ensures Fitting(room) == 0
    ensures XFER_SIZE * WholePart(n) <= room <==> n < 32
    ensures n < 32 ==> WholePart(n) == 0
  {
  }

  /** The whole story: a download that stops at its first refused sector, the recovery, and the
      next download, each by any such schedule. */
  lemma RefusedAndAgain(layout: Layout, s: System, alt: byte, next: byte, first: seq<seq<byte>>, sent: seq<Command>,
                        cs: seq<Command>, frags: seq<seq<byte>>, again: seq<Command>, close: seq<Command>,
                        refused: seq<Action>, actions: seq<Action>, others: seq<Action>)
    requires layout.WellFormed() && (alt == 1 || alt == 2) && (next == 1 || next == 2)
    requires Accounted(layout, s.flash, 0)
    requires Rested(s) && s.dfu.state == DfuIdle && !s.dfu.moveToError && s.dfu.altSetting == alt
    requires Fragments(first) && Sending(sent, first) && Gives(layout, s, refused, sent)
    requires Room(layout, s.flash, alt) >= 0 && |first| == Fitting(Room(layout, s.flash, alt)) + NUM_FRAGMENTS
    requires Recovers(cs, alt, next) && Gives(layout, Run(layout, s, refused), actions, cs)
    requires frags != [] && Fragments(frags) && Sending(again, frags) && FragmentCommands(close, [])
    requires Gives(layout, Run(layout, Run(layout, s, refused), actions), others, again + close)
    ensures var u := Run(layout, Run(layout, Run(layout, s, refused), actions), others);
      && Rested(u)
      && u.flash.contents == Laid(s.flash.contents, Base(layout, s.flash, alt), first[..|first| - NUM_FRAGMENTS])
      && (u.dfu.state == DfuIdle <==> |frags| < 32)
      && (u.dfu.state == DfuIdle <==> u.flash.dnBaseAddr == 0)
  {
    hide Sending, Laid, Latch, Polite, Commands, Rested, Recovers, Base, Room, Fitting, Fragments, Accounted;
    hide DfuSafety.Quiescent, Run;
    DownloadRefused(layout, s, alt, first, sent, refused);
    BaseNotZero(layout, s.flash, alt);
    AfterRefusal(layout, Run(layout, s, refused), next, cs, frags, again, close, actions, others);
  }

  lemma BaseNotZero(layout: Layout, f: FlashData, alt: byte)
    requires layout.WellFormed() && (alt == 1 || alt == 2)
    ensures Base(layout, f, alt) != 0
  {
  }
}
