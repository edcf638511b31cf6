/** Downloads that follow one another: what an interrupted download leaves for the next. */
module DfuRetry {
  import opened Words
  import opened DfuTypes
  import opened DfuFlash
  import opened DfuMachine
  import opened DfuProtocol
  import DfuHandover
  import DfuSafety
  import opened DfuPartitions
  import opened DfuHost
  import opened DfuSchedule
  import opened DfuDownload

  /** The ways to break off a download into `alt` and go on with `next`. */
  predicate Stops(stop: seq<Command>, alt: byte, next: byte) {
    || (stop == [CmdAbort] && next == alt)
    || stop == [CmdSetAlternate(next)]
    || stop == [CmdAbort, CmdSetAlternate(next)]
  }

  lemma AbortTransacts(layout: Layout, d: DfuData, f: FlashData)
    requires |d.buffer| == SECTOR_SIZE && d.fragNumber < NUM_FRAGMENTS && d.state == DnloadIdle
    ensures Transact(layout, d, f, CmdAbort) == (ResetState(d), f)
  {
  }

  lemma AlternateTransacts(layout: Layout, d: DfuData, f: FlashData, next: byte)
    requires |d.buffer| == SECTOR_SIZE && d.fragNumber < NUM_FRAGMENTS
    ensures Transact(layout, d, f, CmdSetAlternate(next)) == (ResetState(d.(altSetting := next)), f)
  {
  }

  lemma StopTransacts(layout: Layout, d: DfuData, f: FlashData, stop: seq<Command>, next: byte)
    requires |d.buffer| == SECTOR_SIZE && d.fragNumber < NUM_FRAGMENTS && d.state == DnloadIdle
    requires Stops(stop, d.altSetting, next)
    ensures Served(stop)
    ensures TransactAll(layout, d, f, stop) == (ResetState(d.(altSetting := next)), f)
  {
    hide Transact;
    AbortTransacts(layout, d, f);
    AlternateTransacts(layout, d, f, next);
    AlternateTransacts(layout, ResetState(d), f, next);
    var (e, g) := Transact(layout, d, f, stop[0]);
    if |stop| == 1 {
      assert stop[1..] == [];
    } else {
      assert stop[1..] == [CmdSetAlternate(next)];
      var (e', g') := Transact(layout, e, g, CmdSetAlternate(next));
      assert stop[1..][0] == CmdSetAlternate(next) && stop[1..][1..] == [];
      assert TransactAll(layout, e, g, stop[1..]) == (e', g');
    }
  }

  /** What is left by a download of `first` into `alt` that is broken off: the whole sectors, and
      an idle engine. Once a sector is written the latch holds its partition, whatever the next
      alternate, and has that much less room. */
  predicate Interrupted(layout: Layout, start: FlashData, alt: byte, next: byte, first: seq<seq<byte>>,
                        d: DfuData, f: FlashData)
    requires (alt == 1 || alt == 2) && (next == 1 || next == 2) && Fragments(first)
  {
    var w := WholePart(|first|);
    && d.state == DfuIdle && !d.moveToError && d.altSetting == next
    && f.contents == Laid(start.contents, Base(layout, start, alt), first[..w])
    && Accounted(layout, f, 0)
    && if w == 0 then
         f == start
       else
         && f.dnBaseAddr == Base(layout, start, alt)
         && f.bytesAvail - f.totalLen == Room(layout, start, alt) - XFER_SIZE * w
  }

  lemma BrokenOff(layout: Layout, d: DfuData, f: FlashData, start: FlashData, alt: byte, next: byte,
                  first: seq<seq<byte>>, stop: seq<Command>)
    requires layout.WellFormed() && (alt == 1 || alt == 2) && (next == 1 || next == 2) && Accounted(layout, start, 0)
    requires first != [] && Fragments(first) && Fits(layout, start, alt, |first|) && Stops(stop, alt, next)
    requires var w := WholePart(|first|); Downloaded(layout, d, f, start, alt, first[..w], first[w..])
    ensures Served(stop) && |d.buffer| == SECTOR_SIZE && d.fragNumber < NUM_FRAGMENTS
    ensures var (e, g) := TransactAll(layout, d, f, stop); Interrupted(layout, start, alt, next, first, e, g)
  {
    hide Transact, Laid, Latch, TransactAll, Accounted, Room;
    var w := WholePart(|first|);
    DownloadedFacts(layout, d, f, start, alt, first[..w], first[w..]);
    DownloadedContents(layout, d, f, start, alt, first[..w], first[w..]);
    StopTransacts(layout, d, f, stop, next);
    MidwayAccounts(layout, start, alt, first[..w]);
    FromTheStart(layout, Midway(layout, start, alt, first[..w]), Wrap16(w / NUM_FRAGMENTS));
  }

  lemma FromTheStart(layout: Layout, f: FlashData, block: u16)
    requires Accounted(layout, f, block)
    ensures Accounted(layout, f, 0)
  {
  }

  /** For every interleaving of the two tasks with a host that waits its turn. */
  lemma InterruptedDownload(layout: Layout, s: System, alt: byte, next: byte, first: seq<seq<byte>>,
                            cs: seq<Command>, stop: seq<Command>, actions: seq<Action>)
    requires layout.WellFormed() && (alt == 1 || alt == 2) && (next == 1 || next == 2)
    requires Accounted(layout, s.flash, 0)
    requires Rested(s) && s.dfu.state == DfuIdle && !s.dfu.moveToError && s.dfu.altSetting == alt
    requires first != [] && Fragments(first) && Sending(cs, first) && Stops(stop, alt, next)
    requires Fits(layout, s.flash, alt, |first|)
    requires Polite(layout, s, actions) && Commands(layout, s, actions) == cs + stop
    requires DfuSafety.Quiescent(Run(layout, s, actions))
    ensures var t := Run(layout, s, actions);
            Rested(t) && Interrupted(layout, s.flash, alt, next, first, t.dfu, t.flash)
  {
    hide Transact, TransactAll, Sending, Laid, Room, Base, Latch, Fits, Polite, Commands, Downloaded, Accounted;
    hide DfuHandover.Handover, DfuSafety.RecordKept, Stops, PerformAll, DfuSafety.Quiescent;
    var w := WholePart(|first|);
    RestedRecord(s);
    NothingYet(layout, s.dfu, s.flash, alt);
    SendingOnly(cs, first);
    assert first == [] + [] + first;
    SendFragments(layout, s.dfu, s.flash, s.flash, alt, [], [], cs, first, first);
    var (e, g) := TransactAll(layout, s.dfu, s.flash, cs);
    BrokenOff(layout, e, g, s.flash, alt, next, first, stop);
    TransactAppend(layout, s.dfu, s.flash, cs, stop);
    CommandsOneByOne(layout, s, actions);
    ServedPerforms(layout, s.dfu, s.flash, cs + stop);
  }

  /** The alternate whose partition a download into `next` goes to after `w` fragments in whole
      sectors have gone to that of `alt`. */
  function Target(alt: byte, next: byte, w: nat): byte {
    if w == 0 then next else alt
  }

  lemma NextRoom(layout: Layout, start: FlashData, alt: byte, next: byte, first: seq<seq<byte>>, d: DfuData,
                 f: FlashData)
    requires layout.WellFormed() && (alt == 1 || alt == 2) && (next == 1 || next == 2)
    requires start.dnBaseAddr == 0 && Fragments(first) && Interrupted(layout, start, alt, next, first, d, f)
    ensures var w := WholePart(|first|);
      && Base(layout, f, next) == OwnBase(layout, Target(alt, next, w))
      && Room(layout, f, next) == OwnSize(layout, Target(alt, next, w)) - XFER_SIZE * w
      && f.contents == Laid(start.contents, OwnBase(layout, alt), first[..w])
  {
    hide Laid, Latch, Base, Room;
    OwnPartition(layout, start, alt);
    OwnPartition(layout, f, next);
    LatchAccounted(layout, start, alt, 0);
  }

  /** A download that follows an interrupted one, from an open latch and for all schedules of both.
      It goes into its own partition if and only if the first has not written a sector or had the
      same partition; otherwise it goes over the other one. And it succeeds if and only if its
      whole sectors fit what the first has left of the partition it goes into. */
  lemma NextDownload(layout: Layout, s: System, alt: byte, next: byte, first: seq<seq<byte>>, frags: seq<seq<byte>>,
                     cs: seq<Command>, stop: seq<Command>, again: seq<Command>, close: seq<Command>,
                     actions: seq<Action>, others: seq<Action>)
    requires layout.WellFormed() && (alt == 1 || alt == 2) && (next == 1 || next == 2)
    requires Rested(s) && s.dfu.state == DfuIdle && !s.dfu.moveToError && s.dfu.altSetting == alt
    requires s.flash.dnBaseAddr == 0
    requires first != [] && Fragments(first) && Sending(cs, first) && Stops(stop, alt, next)
    requires XFER_SIZE * WholePart(|first|) <= OwnSize(layout, alt)
    requires Polite(layout, s, actions) && Commands(layout, s, actions) == cs + stop
    requires DfuSafety.Quiescent(Run(layout, s, actions))
    requires frags != [] && Fragments(frags) && Sending(again, frags) && FragmentCommands(close, [])
    requires var t := Run(layout, s, actions);
      && Polite(layout, t, others) && Commands(layout, t, others) == again + close
      && DfuSafety.Quiescent(Run(layout, t, others))
    ensures var t := Run(layout, s, actions);
      var u := Run(layout, t, others);
      var w, v := WholePart(|first|), WholePart(|frags|);
      && Base(layout, t.flash, next) == OwnBase(layout, Target(alt, next, w))
      && (Base(layout, t.flash, next) == OwnBase(layout, next)
          <==> w == 0 || OwnBase(layout, alt) == OwnBase(layout, next))
      && (u.dfu.state == DfuIdle <==> XFER_SIZE * (w + v) <= OwnSize(layout, Target(alt, next, w)))
      && (u.dfu.state == DfuIdle ==>
            u.flash.contents == Laid(Laid(s.flash.contents, OwnBase(layout, alt), first[..w]),
                                     OwnBase(layout, Target(alt, next, w)), frags[..v]))
  {
    hide Transact, Sending, Laid, Room, Base, Latch, Polite, Commands, Rested, OwnBase, OwnSize, Stops, Accounted;
    hide DfuSafety.Quiescent;
    Unlatched(layout, s.flash);
    OwnPartition(layout, s.flash, alt);
    var t := Run(layout, s, actions);
    InterruptedDownload(layout, s, alt, next, first, cs, stop, actions);
    NextRoom(layout, s.flash, alt, next, first, t.dfu, t.flash);
    DownloadImage(layout, t, next, frags, again, close, others);
  }

  lemma Unlatched(layout: Layout, f: FlashData)
    requires f.dnBaseAddr == 0
    ensures Accounted(layout, f, 0)
  {
  }

  // ---------------------------------------------------------------- two hosts

  /** A host that sends `frags`, one command after the other. */
  function Sender(frags: seq<seq<byte>>): seq<Command> {
    seq(3 * |frags|, i requires 0 <= i < 3 * |frags| =>
      if i % 3 == 0 then CmdDnload(frags[i / 3]) else CmdGetStatus(0, 0))
  }

  function Closing(): seq<Command> {
    [CmdDnload([]), CmdGetStatus(0, 0), CmdGetStatus(0, 0)]
  }

  lemma SenderSends(frags: seq<seq<byte>>)
    ensures Sending(Sender(frags), frags)
  {
    forall i | 0 <= i < |frags|
      ensures FragmentCommands(Sender(frags)[3 * i..3 * i + 3], frags[i])
    {
      var three := Sender(frags)[3 * i..3 * i + 3];
      assert three[0] == Sender(frags)[3 * i] && three[1] == Sender(frags)[3 * i + 1]
          && three[2] == Sender(frags)[3 * i + 2];
    }
  }

  lemma StopServed(stop: seq<Command>, alt: byte, next: byte)
    requires Stops(stop, alt, next)
    ensures Served(stop)
  {
  }

  lemma ServedAppend(cs: seq<Command>, rest: seq<Command>)
    requires Served(cs) && Served(rest)
    ensures Served(cs + rest)
  {
  }

  lemma InTurn(layout: Layout, s: System, cs: seq<Command>)
    requires Rested(s) && Served(cs)
    ensures Polite(layout, s, Transactions(cs)) && Commands(layout, s, Transactions(cs)) == cs
    ensures Rested(Run(layout, s, Transactions(cs))) && DfuSafety.Quiescent(Run(layout, s, Transactions(cs)))
  {
    hide Polite, Commands, Transact, TransactAll;
    TransactionsPolite(layout, s, cs);
    RestedBounded(s);
    TransactionsRun(layout, s, cs);
  }

  /** A download, one that breaks it off, and another: what the whole schedule comes to. */
  lemma TwoDownloads(layout: Layout, s: System, alt: byte, next: byte, first: seq<seq<byte>>, frags: seq<seq<byte>>,
                     stop: seq<Command>)
    requires layout.WellFormed() && (alt == 1 || alt == 2) && (next == 1 || next == 2)
    requires Rested(s) && s.dfu.state == DfuIdle && !s.dfu.moveToError && s.dfu.altSetting == alt
    requires s.flash.dnBaseAddr == 0 && Stops(stop, alt, next)
    requires first != [] && Fragments(first) && XFER_SIZE * WholePart(|first|) <= OwnSize(layout, alt)
    requires frags != [] && Fragments(frags)
    ensures var u := Run(layout, s, Transactions(Sender(first) + stop) + Transactions(Sender(frags) + Closing()));
      var w, v := WholePart(|first|), WholePart(|frags|);
      && (u.dfu.state == DfuIdle <==> XFER_SIZE * (w + v) <= OwnSize(layout, Target(alt, next, w)))
      && (u.dfu.state == DfuIdle ==>
            u.flash.contents == Laid(Laid(s.flash.contents, OwnBase(layout, alt), first[..w]),
                                     OwnBase(layout, Target(alt, next, w)), frags[..v]))
  {
    hide Transact, Sending, Laid, Room, Base, Latch, Polite, Commands, Rested, OwnBase, OwnSize, Stops, Accounted;
    hide DfuSafety.Quiescent, Sender, Transactions, Fragments;
    var cs, again := Sender(first), Sender(frags);
    var actions, others := Transactions(cs + stop), Transactions(again + Closing());
    SenderSends(first);
    SenderSends(frags);
    SendingOnly(cs, first);
    SendingOnly(again, frags);
    StopServed(stop, alt, next);
    CloseServed(Closing());
    ServedAppend(cs, stop);
    ServedAppend(again, Closing());
    InTurn(layout, s, cs + stop);
    InTurn(layout, Run(layout, s, actions), again + Closing());
    NextDownload(layout, s, alt, next, first, frags, cs, stop, again, Closing(), actions, others);
    RunAppend(layout, s, actions, others);
  }

  /** Fragments of one byte for all the sectors a partition has. */
  function Filling(layout: Layout, alt: byte): seq<seq<byte>>
    requires OwnSize(layout, alt) >= 0
  {
    seq(NUM_FRAGMENTS * (OwnSize(layout, alt) / SECTOR_SIZE), _ => [0])
  }

  /** In every layout an image that fits is refused when it is sent a second time after an abort. */
  lemma RetryRefused(layout: Layout, s: System, alt: byte)
    requires layout.WellFormed() && (alt == 1 || alt == 2) && OwnSize(layout, alt) >= SECTOR_SIZE
    requires Rested(s) && s.dfu.state == DfuIdle && !s.dfu.moveToError && s.dfu.altSetting == alt
    requires s.flash.dnBaseAddr == 0
    ensures var frags := Filling(layout, alt);
      && Fits(layout, s.flash, alt, |frags|)
      && Run(layout, s, Transactions(Sender(frags) + [CmdAbort]) + Transactions(Sender(frags) + Closing())).dfu.state
         != DfuIdle
  {
    hide Rested, Latch, Base, Room, Laid, Transactions, Sender, Run;
    var frags := Filling(layout, alt);
    Unlatched(layout, s.flash);
    OwnPartition(layout, s.flash, alt);
    assert WholePart(|frags|) == |frags|;
    TwoDownloads(layout, s, alt, alt, frags, frags, [CmdAbort]);
  }

  /** And a data image sent after an aborted download of one upgrade sector lies over the upgrade
      image. */
  lemma DataOverUpgrade(layout: Layout, s: System, first: seq<seq<byte>>, frags: seq<seq<byte>>)
    requires layout.WellFormed() && Fragments(first) && |first| == NUM_FRAGMENTS && frags != [] && Fragments(frags)
    requires Rested(s) && s.dfu.state == DfuIdle && !s.dfu.moveToError && s.dfu.altSetting == 1
    requires s.flash.dnBaseAddr == 0
    requires SECTOR_SIZE + XFER_SIZE * WholePart(|frags|) <= layout.dataAddr - layout.upgradeAddr
    ensures var v := WholePart(|frags|);
      Run(layout, s, Transactions(Sender(first) + [CmdAbort, CmdSetAlternate(2)])
                     + Transactions(Sender(frags) + Closing())).flash.contents
      == Laid(Laid(s.flash.contents, layout.upgradeAddr, first), layout.upgradeAddr, frags[..v])
  {
    hide Rested, Laid, Transactions, Sender, Run, Fragments;
    assert WholePart(|first|) == |first| && first[..|first|] == first;
    TwoDownloads(layout, s, 1, 2, first, frags, [CmdAbort, CmdSetAlternate(2)]);
  }
}
