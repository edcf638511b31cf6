/** What a host is told: the answers to its GETSTATUS in the course of a download. */
module DfuAnswers {
  import opened Words
  import opened DfuTypes
  import opened DfuFlash
  import opened DfuMachine
  import opened DfuProtocol
  import DfuHandover
  import DfuSafety
  import opened DfuPartitions
  import opened DfuHost
  import opened DfuSchedule
  import opened DfuDownload

  /** Whenever it is polled in this state the servicer answers with `packet`. */
  ghost predicate Tells(s: System, packet: StatusPacket) {
    forall now: u32 :: Forecast(s.dfu.state, s.dfu, now) == packet
  }

  lemma TellsAlike(d: DfuData, e: DfuData, now: u32)
    requires Untimed(d) == Untimed(e) && !Busy(d.state)
    ensures Forecast(d.state, d, now) == Forecast(e.state, e, now)
  {
    hide PolledEarly;
  }

  /** A polite schedule of these commands that comes to rest. */
  ghost predicate Gives(layout: Layout, s: System, actions: seq<Action>, cs: seq<Command>) {
    && Polite(layout, s, actions) && Commands(layout, s, actions) == cs && Served(cs)
    && DfuSafety.Quiescent(Run(layout, s, actions))
  }

  lemma GivesTransacts(layout: Layout, s: System, actions: seq<Action>, cs: seq<Command>)
    requires Rested(s) && Gives(layout, s, actions, cs)
    ensures |s.dfu.buffer| == SECTOR_SIZE && s.dfu.fragNumber < NUM_FRAGMENTS
    ensures var t := Run(layout, s, actions);
      var (e, g) := TransactAll(layout, s.dfu, s.flash, cs);
      Rested(t) && Untimed(t.dfu) == Untimed(e) && t.flash == g
  {
    hide Polite, Commands, Transact, TransactAll, PerformAll, DfuHandover.Handover, DfuSafety.RecordKept;
    RestedBounded(s);
    CommandsOneByOne(layout, s, actions);
    ServedPerforms(layout, s.dfu, s.flash, cs);
  }

  /** A host that has sent `frags` by `cs` into alternate `alt`, from a system at rest in dfuIDLE,
      and for which there was room so far. */
  predicate Sent(layout: Layout, s: System, alt: byte, frags: seq<seq<byte>>, cs: seq<Command>) {
    && layout.WellFormed() && (alt == 1 || alt == 2) && Accounted(layout, s.flash, 0)
    && Rested(s) && s.dfu.state == DfuIdle && !s.dfu.moveToError && s.dfu.altSetting == alt
    && Fragments(frags) && Sending(cs, frags) && Fits(layout, s.flash, alt, |frags|)
  }

  lemma SentDownloads(layout: Layout, s: System, alt: byte, frags: seq<seq<byte>>, cs: seq<Command>)
    requires Sent(layout, s, alt, frags, cs)
    ensures Served(cs) && |s.dfu.buffer| == SECTOR_SIZE && s.dfu.fragNumber < NUM_FRAGMENTS
    ensures var (e, g) := TransactAll(layout, s.dfu, s.flash, cs);
      var w := WholePart(|frags|);
      Downloaded(layout, e, g, s.flash, alt, frags[..w], frags[w..])
  {
    hide Transact, TransactAll, Sending, Laid, Room, Base, Latch, Fits, Downloaded;
    RestedRecord(s);
    NothingYet(layout, s.dfu, s.flash, alt);
    SendingOnly(cs, frags);
    assert frags == [] + [] + frags;
    SendFragments(layout, s.dfu, s.flash, s.flash, alt, [], [], cs, frags, frags);
  }

  /** The milliseconds announced for fragment number `k` of a download: 1 to buffer it, 3 to write
      the sector it completes, 10 when that sector is the first of sixteen. */
  function FragmentTimeout(k: nat): u32 {
    if k % 32 != 31 then 1 else if k / 32 % 16 == 0 then 10 else 3
  }

  lemma TimeoutIs(d: DfuData, w: nat, tail: nat)
    requires w % NUM_FRAGMENTS == 0 && tail < NUM_FRAGMENTS
    requires d.blockNumber == Wrap16(w / NUM_FRAGMENTS) && d.fragNumber == tail
    ensures DownloadTimeout(d) == FragmentTimeout(w + tail)
  {
    var q := w / NUM_FRAGMENTS;
    ModUnique(w + tail, NUM_FRAGMENTS, q, tail);
    DivUnique(w + tail, NUM_FRAGMENTS, q);
    SixteenthOf(q);
  }

  lemma SixteenthOf(q: nat)
    ensures Wrap16(q) % 16 == q % 16
  {
    ModUnique(q, 16, 4096 * (q / TWO16) + Wrap16(q) / 16, Wrap16(q) % 16);
  }

  /** Between two fragments: dfuDNLOAD-IDLE, or dfuIDLE before the first. */
  lemma ToldBetween(layout: Layout, s: System, alt: byte, frags: seq<seq<byte>>, cs: seq<Command>, actions: seq<Action>)
    requires Sent(layout, s, alt, frags, cs) && Gives(layout, s, actions, cs)
    ensures Tells(Run(layout, s, actions), StatusPacket(if frags == [] then DfuIdle else DnloadIdle, StatusOk, 0))
  {
    hide Transact, TransactAll, Sending, Laid, Room, Base, Latch, Fits, Gives, FlashAt, Rested, Assemble;
    SentDownloads(layout, s, alt, frags, cs);
    GivesTransacts(layout, s, actions, cs);
    var (e, g) := TransactAll(layout, s.dfu, s.flash, cs);
    forall now: u32 { TellsAlike(Run(layout, s, actions).dfu, e, now); }
  }

  /** After one more fragment: dfuDNBUSY next, and for how long. */
  lemma ToldBusy(layout: Layout, s: System, alt: byte, frags: seq<seq<byte>>, cs: seq<Command>, data: seq<byte>,
                 actions: seq<Action>)
    requires Sent(layout, s, alt, frags, cs) && 1 <= |data| <= XFER_SIZE
    requires Gives(layout, s, actions, cs + [CmdDnload(data)])
    ensures Tells(Run(layout, s, actions), StatusPacket(DnBusy, StatusOk, FragmentTimeout(|frags|)))
  {
    hide Transact, TransactAll, Sending, Laid, Room, Base, Latch, Fits, FlashAt, Rested, Assemble, FragmentTimeout;
    hide DownloadTimeout, Polite, Commands;
    SentDownloads(layout, s, alt, frags, cs);
    GivesTransacts(layout, s, actions, cs + [CmdDnload(data)]);
    var (e, g) := TransactAll(layout, s.dfu, s.flash, cs);
    var w := WholePart(|frags|);
    DownloadedFacts(layout, e, g, s.flash, alt, frags[..w], frags[w..]);
    DnloadTransacts(layout, e, g, data);
    OneMore(layout, s, cs, CmdDnload(data));
    var filled := FillDnload(e, data).(inProgress := true, state := DnloadSync);
    TimeoutIs(filled, w, |frags| - w);
    forall now: u32 { TellsAlike(Run(layout, s, actions).dfu, filled, now); }
  }

  lemma OneMore(layout: Layout, s: System, cs: seq<Command>, c: Command)
    requires Served(cs) && c.Legal() && !c.CmdSetTransferBlock?
    requires |s.dfu.buffer| == SECTOR_SIZE && s.dfu.fragNumber < NUM_FRAGMENTS
    ensures Served(cs + [c])
    ensures TransactAll(layout, s.dfu, s.flash, cs + [c]) ==
            var (e, g) := TransactAll(layout, s.dfu, s.flash, cs); Transact(layout, e, g, c)
  {
    hide Transact;
    TransactAppend(layout, s.dfu, s.flash, cs, [c]);
    assert [c][1..] == [];
  }

  /** What a poll of the waiting fragment comes to. */
  lemma PolledFragment(layout: Layout, d: DfuData, f: FlashData, data: seq<byte>, poll: Command)
    requires |d.buffer| == SECTOR_SIZE && d.fragNumber < NUM_FRAGMENTS && !d.moveToError
    requires d.state == DfuIdle || d.state == DnloadIdle
    requires 1 <= |data| <= XFER_SIZE && poll.CmdGetStatus?
    ensures var outcome := BusyFlash(layout, Begun(d, data), f).1;
      var e := Transact(layout, FillDnload(d, data).(inProgress := true, state := DnloadSync), f, poll).0;
      if outcome == StatusOk then e.state == DnloadSync && !e.inProgress && e.status == d.status
      else e.state == DfuError && e.status == outcome
  {
    hide Transact, BusyFlash, Forecast;
    FirstPollTransacts(layout, FillDnload(d, data).(inProgress := true, state := DnloadSync), f, poll);
    assert FillDnload(d, data).(inProgress := true, state := DnloadSync).(state := DnBusy) == Begun(d, data);
  }

  /** After its first poll: dfuDNLOAD-IDLE next, or dfuERROR with errADDRESS if it completes a
      sector there is no room for. */
  lemma ToldAfterBusy(layout: Layout, s: System, alt: byte, frags: seq<seq<byte>>, cs: seq<Command>, data: seq<byte>,
                      poll: Command, actions: seq<Action>)
    requires Sent(layout, s, alt, frags, cs) && 1 <= |data| <= XFER_SIZE && poll.CmdGetStatus?
    requires Gives(layout, s, actions, cs + [CmdDnload(data)] + [poll])
    ensures Tells(Run(layout, s, actions),
                  if Fits(layout, s.flash, alt, |frags| + 1) then StatusPacket(DnloadIdle, StatusOk, 0)
                  else StatusPacket(DfuError, ErrAddress, 0))
  {
    hide Transact, TransactAll, Sending, Laid, Room, Base, Latch, FlashAt, Rested, Assemble, Polite, Commands;
    hide BusyFlash, Fits, WholePart;
    SentDownloads(layout, s, alt, frags, cs);
    GivesTransacts(layout, s, actions, cs + [CmdDnload(data)] + [poll]);
    var (e, g) := TransactAll(layout, s.dfu, s.flash, cs);
    var w := WholePart(|frags|);
    DownloadedFacts(layout, e, g, s.flash, alt, frags[..w], frags[w..]);
    DnloadTransacts(layout, e, g, data);
    OneMore(layout, s, cs, CmdDnload(data));
    OneMore(layout, s, cs + [CmdDnload(data)], poll);
    var filled := FillDnload(e, data).(inProgress := true, state := DnloadSync);
    PolledFragment(layout, e, g, data, poll);
    FragmentOutcome(layout, e, g, s.flash, alt, frags, data);
    forall now: u32 { TellsAlike(Run(layout, s, actions).dfu, Transact(layout, filled, g, poll).0, now); }
  }

  lemma FragmentOutcome(layout: Layout, d: DfuData, f: FlashData, start: FlashData, alt: byte, frags: seq<seq<byte>>,
                        data: seq<byte>)
    requires layout.WellFormed() && (alt == 1 || alt == 2) && Accounted(layout, start, 0)
    requires Fragments(frags) && Fits(layout, start, alt, |frags|) && 1 <= |data| <= XFER_SIZE
    requires var w := WholePart(|frags|); Downloaded(layout, d, f, start, alt, frags[..w], frags[w..])
    ensures |d.buffer| == SECTOR_SIZE && d.status == StatusOk
    ensures BusyFlash(layout, Begun(d, data), f).1 ==
            if Fits(layout, start, alt, |frags| + 1) then StatusOk else ErrAddress
  {
    hide BusyFlash, FlashAt, Room, Laid, Assemble;
    var w := WholePart(|frags|);
    var whole, tail := frags[..w], frags[w..];
    DownloadedFacts(layout, d, f, start, alt, whole, tail);
    WholePartIs(w, |tail| + 1);
    if |tail| < NUM_FRAGMENTS - 1 {
      BufferedFragment(layout, d, f, start, alt, whole, tail, data);
    } else {
      SectorFragment(layout, d, f, start, alt, whole, tail, data);
    }
  }

  /** The empty DNLOAD that ends a download: dfuMANIFEST next, and after a poll dfuIDLE. */
  lemma ToldManifest(layout: Layout, s: System, alt: byte, frags: seq<seq<byte>>, cs: seq<Command>,
                     actions: seq<Action>)
    requires Sent(layout, s, alt, frags, cs) && frags != []
    requires Gives(layout, s, actions, cs + [CmdDnload([])])
    ensures Tells(Run(layout, s, actions), StatusPacket(Manifest, StatusOk, 0))
  {
    hide Transact, TransactAll, Sending, Laid, Room, Base, Latch, Fits, FlashAt, Rested, Assemble, Polite, Commands;
    SentDownloads(layout, s, alt, frags, cs);
    GivesTransacts(layout, s, actions, cs + [CmdDnload([])]);
    var (e, g) := TransactAll(layout, s.dfu, s.flash, cs);
    var w := WholePart(|frags|);
    DownloadedFacts(layout, e, g, s.flash, alt, frags[..w], frags[w..]);
    OneMore(layout, s, cs, CmdDnload([]));
    EmptyTransacts(layout, e, g);
    forall now: u32 { TellsAlike(Run(layout, s, actions).dfu, Transact(layout, e, g, CmdDnload([])).0, now); }
  }

  lemma EmptyTransacts(layout: Layout, d: DfuData, f: FlashData)
    requires |d.buffer| == SECTOR_SIZE && d.fragNumber < NUM_FRAGMENTS && d.state == DnloadIdle
    ensures Transact(layout, d, f, CmdDnload([])).0 ==
            ResetDownloadBuffer(d).(inProgress := true, state := ManifestSync)
  {
  }

  lemma ToldIdle(layout: Layout, s: System, alt: byte, frags: seq<seq<byte>>, cs: seq<Command>, poll: Command,
                 actions: seq<Action>)
    requires Sent(layout, s, alt, frags, cs) && frags != [] && poll.CmdGetStatus?
    requires Gives(layout, s, actions, cs + [CmdDnload([])] + [poll])
    ensures Tells(Run(layout, s, actions), StatusPacket(DfuIdle, StatusOk, 0))
  {
    hide Transact, TransactAll, Sending, Laid, Room, Base, Latch, Fits, FlashAt, Rested, Assemble, Polite, Commands;
    SentDownloads(layout, s, alt, frags, cs);
    GivesTransacts(layout, s, actions, cs + [CmdDnload([])] + [poll]);
    var (e, g) := TransactAll(layout, s.dfu, s.flash, cs);
    var w := WholePart(|frags|);
    DownloadedFacts(layout, e, g, s.flash, alt, frags[..w], frags[w..]);
    OneMore(layout, s, cs, CmdDnload([]));
    OneMore(layout, s, cs + [CmdDnload([])], poll);
    EmptyTransacts(layout, e, g);
    var (m, h) := Transact(layout, e, g, CmdDnload([]));
    ManifestPolled(layout, m, h, poll);
    forall now: u32 { TellsAlike(Run(layout, s, actions).dfu, Transact(layout, m, h, poll).0, now); }
  }

  lemma ManifestPolled(layout: Layout, d: DfuData, f: FlashData, poll: Command)
    requires |d.buffer| == SECTOR_SIZE && d.fragNumber < NUM_FRAGMENTS && poll.CmdGetStatus?
    requires d.state == ManifestSync && d.inProgress && !d.moveToError
    ensures var e := Transact(layout, d, f, poll).0; e.state == ManifestSync && !e.inProgress && e.status == d.status
  {
  }
}
