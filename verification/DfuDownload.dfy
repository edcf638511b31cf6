/** A whole download: the fragments a host sends against what ends up in the flash. */
module DfuDownload {
  import opened Words
  import opened DfuTypes
  import opened DfuFlash
  import opened DfuMachine
  import opened DfuProtocol
  import DfuHandover
  import DfuSafety
  import opened DfuPartitions
  import opened DfuHost
  import opened DfuSchedule

  /** A fragment as the buffer holds it. */
  function Padded(fragment: seq<byte>): (r: seq<byte>)
    requires |fragment| <= XFER_SIZE
    ensures |r| == XFER_SIZE
  {
    fragment + Zeros(XFER_SIZE - |fragment|)
  }

  predicate Fragments(frags: seq<seq<byte>>) {
    forall i :: 0 <= i < |frags| ==> 1 <= |frags[i]| <= XFER_SIZE
  }

  /** Every fragment zero-padded to 128 bytes, one behind the other. */
  function Assemble(frags: seq<seq<byte>>): (r: seq<byte>)
    requires Fragments(frags)
    ensures |r| == XFER_SIZE * |frags|
  {
    if frags == [] then [] else Assemble(frags[..|frags| - 1]) + Padded(frags[|frags| - 1])
  }

  lemma {:induction false} AssembleAppend(first: seq<seq<byte>>, second: seq<seq<byte>>)
    requires Fragments(first) && Fragments(second)
    ensures Fragments(first + second)
    ensures Assemble(first + second) == Assemble(first) + Assemble(second)
    decreases second
  {
    if second == [] {
      assert first + second == first;
    } else {
      var front, last := second[..|second| - 1], second[|second| - 1];
      AssembleAppend(first, front);
      var all := first + second;
      assert all[..|all| - 1] == first + front && all[|all| - 1] == last;
      assert Assemble(first) + (Assemble(front) + Padded(last)) == (Assemble(first) + Assemble(front)) + Padded(last);
    }
  }

  /** The base address a download from `start` into alternate `alt` writes to: that of a partition
      still latched, whatever the alternate, or else that of the alternate's own. */
  function Base(layout: Layout, start: FlashData, alt: byte): u32
    requires alt == 1 || alt == 2
  {
    Latch(layout, start, alt).dnBaseAddr
  }

  /** What the partition has room for beyond what has been counted since the latch. */
  function Room(layout: Layout, start: FlashData, alt: byte): int
    requires alt == 1 || alt == 2
  {
    Latch(layout, start, alt).bytesAvail - Latch(layout, start, alt).totalLen
  }

  /** A download goes into the partition of its alternate if and only if the latch is open or
      holds that partition already. */
  lemma OwnPartition(layout: Layout, f: FlashData, alt: byte)
    requires layout.WellFormed() && (alt == 1 || alt == 2) && Accounted(layout, f, 0)
    ensures Base(layout, f, alt) == OwnBase(layout, alt) <==> f.dnBaseAddr == 0 || f.dnBaseAddr == OwnBase(layout, alt)
    ensures f.dnBaseAddr == 0 ==> Room(layout, f, alt) == OwnSize(layout, alt)
    ensures f.dnBaseAddr != 0 ==>
              Base(layout, f, alt) == f.dnBaseAddr && Room(layout, f, alt) == f.bytesAvail - f.totalLen
  {
  }

  predicate WholeSectors(frags: seq<seq<byte>>) {
    Fragments(frags) && |frags| % NUM_FRAGMENTS == 0
  }

  /** The flash after whole sectors have been written one by one; their numbers have 16 bits. */
  function Laid(contents: seq<byte>, base: nat, frags: seq<seq<byte>>): (r: seq<byte>)
    requires WholeSectors(frags)
    ensures |r| == |contents|
    decreases |frags|
  {
    if frags == [] then contents else
      var front := |frags| - NUM_FRAGMENTS;
      Patch(Laid(contents, base, frags[..front]), base + SECTOR_SIZE * Wrap16(front / NUM_FRAGMENTS),
          Assemble(frags[front..]))
  }

  lemma LaidNext(contents: seq<byte>, base: nat, whole: seq<seq<byte>>, sector: seq<seq<byte>>)
    requires WholeSectors(whole) && Fragments(sector) && |sector| == NUM_FRAGMENTS
    ensures WholeSectors(whole + sector)
    ensures Laid(contents, base, whole + sector) ==
      Patch(Laid(contents, base, whole), base + SECTOR_SIZE * Wrap16(|whole| / NUM_FRAGMENTS), Assemble(sector))
  {
    hide Patch, Assemble, Laid, Wrap16;
    SectorAdded(whole, sector);
    LaidLast(contents, base, whole + sector);
    assert (whole + sector)[..|whole|] == whole && (whole + sector)[|whole|..] == sector;
  }

  lemma LaidLast(contents: seq<byte>, base: nat, frags: seq<seq<byte>>)
    requires WholeSectors(frags) && frags != []
    ensures var front := |frags| - NUM_FRAGMENTS;
      && front >= 0 && WholeSectors(frags[..front])
      && Laid(contents, base, frags) ==
           Patch(Laid(contents, base, frags[..front]), base + SECTOR_SIZE * Wrap16(front / NUM_FRAGMENTS),
               Assemble(frags[front..]))
  {
    hide Patch, Assemble, Wrap16;
  }

  /** Up to 65536 sectors lie one behind the other. */
  lemma {:induction false} LaidStraight(contents: seq<byte>, base: nat, frags: seq<seq<byte>>)
    requires WholeSectors(frags) && |frags| <= NUM_FRAGMENTS * TWO16
    ensures Laid(contents, base, frags) == Patch(contents, base, Assemble(frags))
    decreases |frags|
  {
    hide Patch, Assemble, Laid;
    if frags == [] {
      LaidNone(contents, base);
      NothingPatched(contents, base);
    } else {
      var n := |frags| - NUM_FRAGMENTS;
      LaidLast(contents, base, frags);
      LaidStraight(contents, base, frags[..n]);
      SectorCount(n);
      AssembleAppend(frags[..n], frags[n..]);
      assert frags[..n] + frags[n..] == frags;
      PatchAppend(contents, base, Assemble(frags[..n]), Assemble(frags[n..]));
    }
  }

  lemma NothingPatched(contents: seq<byte>, base: nat)
    ensures Patch(contents, base, Assemble([])) == contents
  {
  }

  /** After 65536 sectors the numbers start over, and the sectors that follow go over the first. */
  lemma {:induction false} LaidStartsOver(contents: seq<byte>, base: nat, first: seq<seq<byte>>, second: seq<seq<byte>>)
    requires WholeSectors(first) && WholeSectors(second) && |first| == NUM_FRAGMENTS * TWO16
    ensures WholeSectors(first + second)
    ensures Laid(contents, base, first + second) == Laid(Patch(contents, base, Assemble(first)), base, second)
    decreases |second|
  {
    hide Patch, Assemble, Laid;
    if second == [] {
      assert first + second == first;
      LaidStraight(contents, base, first);
      LaidNone(Patch(contents, base, Assemble(first)), base);
    } else {
      var n := |second| - NUM_FRAGMENTS;
      var front, last := second[..n], second[n..];
      LaidStartsOver(contents, base, first, front);
      assert first + second == (first + front) + last && second == front + last;
      LaidNext(contents, base, first + front, last);
      LaidNext(Patch(contents, base, Assemble(first)), base, front, last);
      SameNumber(n);
    }
  }

  lemma LaidNone(contents: seq<byte>, base: nat)
    ensures Laid(contents, base, []) == contents
  {
  }

  lemma SameNumber(n: nat)
    requires n % NUM_FRAGMENTS == 0
    ensures Wrap16((NUM_FRAGMENTS * TWO16 + n) / NUM_FRAGMENTS) == Wrap16(n / NUM_FRAGMENTS)
  {
  }

  /** The latched flash with whole sectors written to it. */
  function Midway(layout: Layout, start: FlashData, alt: byte, whole: seq<seq<byte>>): FlashData
    requires (alt == 1 || alt == 2) && WholeSectors(whole)
  {
    var latched := Latch(layout, start, alt);
    latched.(contents := Laid(start.contents, latched.dnBaseAddr, whole),
             totalLen := Wrap32(latched.totalLen + XFER_SIZE * |whole|))
  }

  /** The flash between two sectors of a download that found it as `start`. */
  predicate FlashAt(layout: Layout, f: FlashData, start: FlashData, alt: byte, whole: seq<seq<byte>>)
    requires (alt == 1 || alt == 2) && WholeSectors(whole)
  {
    f == if whole == [] then start else Midway(layout, start, alt, whole)
  }

  /** The record and the flash in the middle of a download into alternate `alt`: the `whole` sectors
      are written, the `tail` is still in the buffer. */
  predicate Downloaded(layout: Layout, d: DfuData, f: FlashData, start: FlashData, alt: byte,
                       whole: seq<seq<byte>>, tail: seq<seq<byte>>)
    requires alt == 1 || alt == 2
    requires Fragments(whole) && Fragments(tail)
  {
    && |whole| % NUM_FRAGMENTS == 0 && |tail| < NUM_FRAGMENTS
    && d.altSetting == alt
    && d.state == (if whole == [] && tail == [] then DfuIdle else DnloadIdle)
    && d.status == StatusOk && !d.moveToError && !d.inProgress
    && d.blockNumber == Wrap16(|whole| / NUM_FRAGMENTS)
    && d.fragNumber == |tail|
    && d.buffer == Assemble(tail) + Zeros(SECTOR_SIZE - XFER_SIZE * |tail|)
    && FlashAt(layout, f, start, alt, whole)
  }

  /** The three commands that carry one fragment, with whatever clock readings. */
  predicate FragmentCommands(cs: seq<Command>, data: seq<byte>) {
    |cs| == 3 && cs[0] == CmdDnload(data) && cs[1].CmdGetStatus? && cs[2].CmdGetStatus?
  }

  lemma FillFragment(frags: seq<seq<byte>>, rest: nat, data: seq<byte>)
    requires Fragments(frags) && |frags| == rest < NUM_FRAGMENTS && 1 <= |data| <= XFER_SIZE
    ensures Fragments(frags + [data])
    ensures Patch(Assemble(frags) + Zeros(SECTOR_SIZE - XFER_SIZE * rest), rest * XFER_SIZE, data)
         == Assemble(frags + [data]) + Zeros(SECTOR_SIZE - XFER_SIZE * (rest + 1))
  {
    assert (frags + [data])[..rest] == frags;
    assert Assemble(frags + [data]) == Assemble(frags) + Padded(data);
    var blank := Zeros(SECTOR_SIZE - XFER_SIZE * rest);
    assert Patch(Assemble(frags) + blank, rest * XFER_SIZE, data) == Assemble(frags) + (data + blank[|data|..]);
    assert data + blank[|data|..] == Padded(data) + Zeros(SECTOR_SIZE - XFER_SIZE * (rest + 1));
  }

  /** The record just before the busy phase of a fragment: filled, in dfuDNBUSY. */
  function Begun(d: DfuData, data: seq<byte>): DfuData
    requires |data| <= XFER_SIZE
  {
    FillDnload(d, data).(inProgress := true, state := DnBusy)
  }

  lemma DnloadTransacts(layout: Layout, d: DfuData, f: FlashData, data: seq<byte>)
    requires |d.buffer| == SECTOR_SIZE && d.fragNumber < NUM_FRAGMENTS
    requires d.state == DfuIdle || d.state == DnloadIdle
    requires 1 <= |data| <= XFER_SIZE
    ensures Transact(layout, d, f, CmdDnload(data)) ==
            (FillDnload(d, data).(inProgress := true, state := DnloadSync), f)
  {
  }

  lemma FirstPollTransacts(layout: Layout, d: DfuData, f: FlashData, c: Command)
    requires |d.buffer| == SECTOR_SIZE && d.fragNumber < NUM_FRAGMENTS
    requires c.CmdGetStatus? && d.state == DnloadSync && d.inProgress
    ensures var begun := d.(state := DnBusy, previousTimeoutMs := Forecast(d.state, d, c.now).timeoutMs,
                            timeoutStart := c.later);
            var (g, outcome) := BusyFlash(layout, d.(state := DnBusy), f);
            Transact(layout, d, f, c) == (DfuMachine.BusyEnd(begun, outcome), g)
  {
  }

  lemma SecondPollTransacts(layout: Layout, d: DfuData, f: FlashData, c: Command)
    requires |d.buffer| == SECTOR_SIZE && d.fragNumber < NUM_FRAGMENTS
    requires c.CmdGetStatus? && d.state == DnloadSync && !d.inProgress
    ensures Transact(layout, d, f, c) ==
            (d.(state := DnloadIdle, previousTimeoutMs := 0, timeoutStart := c.later), f)
  {
  }

  lemma ThreeTransact(layout: Layout, d: DfuData, f: FlashData, cs: seq<Command>)
    requires |d.buffer| == SECTOR_SIZE && d.fragNumber < NUM_FRAGMENTS && Served(cs) && |cs| == 3
    ensures var (d1, f1) := Transact(layout, d, f, cs[0]);
            var (d2, f2) := Transact(layout, d1, f1, cs[1]);
            TransactAll(layout, d, f, cs) == Transact(layout, d2, f2, cs[2])
  {
    hide Transact;
    var (d1, f1) := Transact(layout, d, f, cs[0]);
    var (d2, f2) := Transact(layout, d1, f1, cs[1]);
    var (d3, f3) := Transact(layout, d2, f2, cs[2]);
    assert TransactAll(layout, d, f, cs) == TransactAll(layout, d1, f1, cs[1..]);
    assert cs[1..][0] == cs[1] && cs[1..][1..] == [cs[2]];
    assert TransactAll(layout, d1, f1, cs[1..]) == TransactAll(layout, d2, f2, [cs[2]]);
    assert TransactAll(layout, d2, f2, [cs[2]]) == TransactAll(layout, d3, f3, []);
  }

  lemma BusyEndUntimed(d: DfuData, e: DfuData)
    requires Untimed(d) == Untimed(e) && d.state == DnBusy && !d.moveToError && d.fragNumber < NUM_FRAGMENTS
    ensures Untimed(DfuMachine.BusyEnd(d, StatusOk)) == Untimed(DfuMachine.BusyEnd(e, StatusOk))
    ensures DfuMachine.BusyEnd(d, StatusOk).state == DnloadSync && !DfuMachine.BusyEnd(d, StatusOk).inProgress
  {
  }

  /** DNLOAD, GETSTATUS, GETSTATUS: fill the buffer, one busy phase, back to dfuDNLOAD-IDLE. */
  lemma FragmentCycle(layout: Layout, d: DfuData, f: FlashData, cs: seq<Command>, data: seq<byte>)
    requires |d.buffer| == SECTOR_SIZE && d.fragNumber < NUM_FRAGMENTS
    requires (d.state == DfuIdle || d.state == DnloadIdle) && !d.moveToError
    requires 1 <= |data| <= XFER_SIZE && FragmentCommands(cs, data)
    ensures Served(cs)
    ensures var (g, outcome) := BusyFlash(layout, Begun(d, data), f);
            outcome == StatusOk ==>
              var (e, h) := TransactAll(layout, d, f, cs);
              && h == g
              && Untimed(e) == Untimed(DfuMachine.BusyEnd(Begun(d, data), StatusOk).(state := DnloadIdle))
  {
    hide Transact, BusyFlash, Forecast, DfuMachine.BusyEnd;
    var filled := FillDnload(d, data).(inProgress := true, state := DnloadSync);
    DnloadTransacts(layout, d, f, data);
    FirstPollTransacts(layout, filled, f, cs[1]);
    assert filled.(state := DnBusy) == Begun(d, data);
    var (g, outcome) := BusyFlash(layout, Begun(d, data), f);
    if outcome == StatusOk {
      var begun := filled.(state := DnBusy, previousTimeoutMs := Forecast(DnloadSync, filled, cs[1].now).timeoutMs,
                           timeoutStart := cs[1].later);
      BusyEndUntimed(begun, Begun(d, data));
      SecondPollTransacts(layout, DfuMachine.BusyEnd(begun, StatusOk), g, cs[2]);
      ThreeTransact(layout, d, f, cs);
    }
  }

  /** A fragment that does not complete a sector stays in the buffer. */
  lemma BufferedFragment(layout: Layout, d: DfuData, f: FlashData, start: FlashData, alt: byte,
                         whole: seq<seq<byte>>, tail: seq<seq<byte>>, data: seq<byte>)
    requires alt == 1 || alt == 2
    requires Fragments(whole) && Fragments(tail) && Downloaded(layout, d, f, start, alt, whole, tail)
    requires 1 <= |data| <= XFER_SIZE && |tail| < NUM_FRAGMENTS - 1
    ensures Fragments(tail + [data])
    ensures BusyFlash(layout, Begun(d, data), f) == (f, StatusOk)
    ensures Downloaded(layout, DfuMachine.BusyEnd(Begun(d, data), StatusOk).(state := DnloadIdle), f, start, alt,
                       whole, tail + [data])
  {
    FillFragment(tail, |tail|, data);
  }

  /** Latching once is enough. */
  lemma SameWrite(layout: Layout, f: FlashData, start: FlashData, alt: byte, whole: seq<seq<byte>>, block: u16,
                  data: seq<byte>)
    requires layout.WellFormed() && (alt == 1 || alt == 2) && |data| < TWO16
    requires WholeSectors(whole) && FlashAt(layout, f, start, alt, whole)
    ensures var g := Midway(layout, start, alt, whole);
      && g.contents == f.contents && g.dnBaseAddr != 0
      && WriteTo(layout, f, alt, block, data) == WriteTo(layout, g, alt, block, data)
  {
    hide Laid, Patch, Latch, WriteTo;
    LatchedBase(layout, start, alt);
    if whole == [] {
      LaidNone(start.contents, Base(layout, start, alt));
      LatchTwice(layout, start, alt, block, data);
      KeptWord32(Latch(layout, start, alt).totalLen);
    }
  }

  lemma LatchTwice(layout: Layout, start: FlashData, alt: byte, block: u16, data: seq<byte>)
    requires layout.WellFormed() && (alt == 1 || alt == 2) && |data| < TWO16
    ensures WriteTo(layout, start, alt, block, data) == WriteTo(layout, Latch(layout, start, alt), alt, block, data)
  {
    hide Patch, Wrap32;
  }

  lemma LatchedBase(layout: Layout, start: FlashData, alt: byte)
    requires layout.WellFormed() && (alt == 1 || alt == 2)
    ensures Latch(layout, start, alt).dnBaseAddr != 0 && Latch(layout, start, alt).contents == start.contents
  {
  }

  lemma MidwayAccounts(layout: Layout, start: FlashData, alt: byte, whole: seq<seq<byte>>)
    requires layout.WellFormed() && (alt == 1 || alt == 2) && Accounted(layout, start, 0)
    requires WholeSectors(whole) && XFER_SIZE * |whole| <= Room(layout, start, alt)
    ensures var g, block := Midway(layout, start, alt, whole), Wrap16(|whole| / NUM_FRAGMENTS);
      && g.dnBaseAddr == Base(layout, start, alt) && Accounted(layout, g, block)
      && g.totalLen == Latch(layout, start, alt).totalLen + XFER_SIZE * |whole|
      && g.bytesAvail - g.totalLen == Room(layout, start, alt) - XFER_SIZE * |whole|
  {
    hide Laid, Latch;
    LatchAccounted(layout, start, alt, 0);
    BlockWithin(|whole|);
  }

  lemma MidwayNext(layout: Layout, start: FlashData, alt: byte, whole: seq<seq<byte>>, sector: seq<seq<byte>>)
    requires layout.WellFormed() && (alt == 1 || alt == 2) && Accounted(layout, start, 0)
    requires WholeSectors(whole) && Fragments(sector) && |sector| == NUM_FRAGMENTS
    requires XFER_SIZE * (|whole| + NUM_FRAGMENTS) <= Room(layout, start, alt)
    ensures WholeSectors(whole + sector)
    ensures Midway(layout, start, alt, whole).totalLen + SECTOR_SIZE < TWO32
    ensures var g, block := Midway(layout, start, alt, whole), Wrap16(|whole| / NUM_FRAGMENTS);
      Midway(layout, start, alt, whole + sector) ==
        g.(contents := Patch(g.contents, g.dnBaseAddr + SECTOR_SIZE * block, Assemble(sector)),
           totalLen := g.totalLen + SECTOR_SIZE)
  {
    hide Laid, Latch, Patch, Assemble;
    MidwayAccounts(layout, start, alt, whole);
    LaidNext(start.contents, Base(layout, start, alt), whole, sector);
    MidwayAccounts(layout, start, alt, whole + sector);
  }

  /** One more sector goes where its number says, if there is room. */
  lemma SectorWritten(layout: Layout, f: FlashData, start: FlashData, alt: byte, whole: seq<seq<byte>>,
                      sector: seq<seq<byte>>)
    requires layout.WellFormed() && (alt == 1 || alt == 2) && Accounted(layout, start, 0)
    requires WholeSectors(whole) && FlashAt(layout, f, start, alt, whole)
    requires Fragments(sector) && |sector| == NUM_FRAGMENTS
    requires XFER_SIZE * |whole| <= Room(layout, start, alt)
    ensures WholeSectors(whole + sector)
    ensures var (g, outcome) := WriteTo(layout, f, alt, Wrap16(|whole| / NUM_FRAGMENTS), Assemble(sector));
      if XFER_SIZE * (|whole| + NUM_FRAGMENTS) <= Room(layout, start, alt)
      then outcome == StatusOk && FlashAt(layout, g, start, alt, whole + sector)
      else outcome == ErrAddress && g == Midway(layout, start, alt, whole)
  {
    hide Laid, Patch, Assemble, Latch, WriteTo, Midway, Room, Accounted;
    var block := Wrap16(|whole| / NUM_FRAGMENTS);
    SameWrite(layout, f, start, alt, whole, block, Assemble(sector));
    MidwayAccounts(layout, start, alt, whole);
    LatchedWrite(layout, Midway(layout, start, alt, whole), alt, block, Assemble(sector));
    SectorAdded(whole, sector);
    if XFER_SIZE * (|whole| + NUM_FRAGMENTS) <= Room(layout, start, alt) {
      MidwayNext(layout, start, alt, whole, sector);
    }
  }

  lemma SectorAdded(whole: seq<seq<byte>>, sector: seq<seq<byte>>)
    requires WholeSectors(whole) && Fragments(sector) && |sector| == NUM_FRAGMENTS
    ensures WholeSectors(whole + sector) && whole + sector != []
  {
  }

  lemma BlockWithin(n: nat)
    requires n % NUM_FRAGMENTS == 0
    ensures SECTOR_SIZE * Wrap16(n / NUM_FRAGMENTS) <= XFER_SIZE * n
  {
  }

  lemma SectorCount(n: nat)
    requires n % NUM_FRAGMENTS == 0 && n / NUM_FRAGMENTS < TWO16
    ensures Wrap16(n / NUM_FRAGMENTS) == n / NUM_FRAGMENTS
    ensures XFER_SIZE * n == SECTOR_SIZE * (n / NUM_FRAGMENTS)
    ensures (n + NUM_FRAGMENTS) % NUM_FRAGMENTS == 0
    ensures Wrap16((n + NUM_FRAGMENTS) / NUM_FRAGMENTS) == Wrap16(n / NUM_FRAGMENTS + 1)
  {
  }

  /** The fragment that completes a sector puts it where its number says, or, when the partition
      has no room for it, ends the download in dfuERROR with errADDRESS and the flash as it was. */
  lemma SectorFragment(layout: Layout, d: DfuData, f: FlashData, start: FlashData, alt: byte,
                       whole: seq<seq<byte>>, tail: seq<seq<byte>>, data: seq<byte>)
    requires layout.WellFormed() && (alt == 1 || alt == 2) && Accounted(layout, start, 0)
    requires Fragments(whole) && Fragments(tail) && Downloaded(layout, d, f, start, alt, whole, tail)
    requires 1 <= |data| <= XFER_SIZE && |tail| == NUM_FRAGMENTS - 1
    requires XFER_SIZE * |whole| <= Room(layout, start, alt)
    ensures Fragments(whole + (tail + [data]))
    ensures var (g, outcome) := BusyFlash(layout, Begun(d, data), f);
      if XFER_SIZE * (|whole| + NUM_FRAGMENTS) <= Room(layout, start, alt) then
        && outcome == StatusOk
        && Downloaded(layout, DfuMachine.BusyEnd(Begun(d, data), StatusOk).(state := DnloadIdle), g, start, alt,
                      whole + (tail + [data]), [])
      else
        && outcome == ErrAddress && g == Midway(layout, start, alt, whole)
        && DfuMachine.BusyEnd(Begun(d, data), outcome).state == DfuError
        && DfuMachine.BusyEnd(Begun(d, data), outcome).status == ErrAddress
  {
    hide FlashAt, Patch, Room, Midway;
    var sector := tail + [data];
    FillFragment(tail, |tail|, data);
    assert Begun(d, data).buffer == Assemble(sector);
    NextNumber(|whole|);
    SectorWritten(layout, f, start, alt, whole, sector);
  }

  lemma NextNumber(n: nat)
    requires n % NUM_FRAGMENTS == 0
    ensures (n + NUM_FRAGMENTS) % NUM_FRAGMENTS == 0
    ensures Wrap16((n + NUM_FRAGMENTS) / NUM_FRAGMENTS) == Wrap16(Wrap16(n / NUM_FRAGMENTS) + 1)
  {
  }

  /** How many of `n` fragments fill whole sectors. */
  function WholePart(n: nat): (w: nat)
    ensures w <= n < w + NUM_FRAGMENTS
    ensures w % NUM_FRAGMENTS == 0
  {
    NUM_FRAGMENTS * (n / NUM_FRAGMENTS)
  }

  /** The commands of a host that sends `frags` and polls twice after each. */
  predicate Sending(cs: seq<Command>, frags: seq<seq<byte>>) {
    && |cs| == 3 * |frags|
    && forall i :: 0 <= i < |frags| ==> FragmentCommands(cs[3 * i..3 * i + 3], frags[i])
  }

  /** There is room for the whole sectors of `n` fragments. */
  predicate Fits(layout: Layout, start: FlashData, alt: byte, n: nat)
    requires alt == 1 || alt == 2
  {
    XFER_SIZE * WholePart(n) <= Room(layout, start, alt)
  }

  /** The fragments of the whole sectors there is room for. */
  function Fitting(room: nat): (w: nat)
    ensures w % NUM_FRAGMENTS == 0 && XFER_SIZE * w <= room < XFER_SIZE * (w + NUM_FRAGMENTS)
  {
    NUM_FRAGMENTS * (room / SECTOR_SIZE)
  }

  /** The whole sectors and the buffered fragments once `data` has arrived as well. */
  function Arrived(whole: seq<seq<byte>>, tail: seq<seq<byte>>, data: seq<byte>): (r: (seq<seq<byte>>, seq<seq<byte>>))
    ensures r.0 + r.1 == whole + tail + [data]
  {
    if |tail| < NUM_FRAGMENTS - 1 then (whole, tail + [data]) else (whole + (tail + [data]), [])
  }

  lemma ArrivedAll(whole: seq<seq<byte>>, tail: seq<seq<byte>>, frags: seq<seq<byte>>, all: seq<seq<byte>>)
    requires frags != [] && all == whole + tail + frags
    ensures var (whole', tail') := Arrived(whole, tail, frags[0]); all == whole' + tail' + frags[1..]
  {
    assert frags == [frags[0]] + frags[1..];
    assert all == whole + tail + [frags[0]] + frags[1..];
  }

  lemma DownloadedFacts(layout: Layout, d: DfuData, f: FlashData, start: FlashData, alt: byte,
                        whole: seq<seq<byte>>, tail: seq<seq<byte>>)
    requires alt == 1 || alt == 2
    requires Fragments(whole) && Fragments(tail) && Downloaded(layout, d, f, start, alt, whole, tail)
    ensures |d.buffer| == SECTOR_SIZE && d.fragNumber == |tail| < NUM_FRAGMENTS
    ensures (d.state == DfuIdle || d.state == DnloadIdle) && !d.moveToError
    ensures |whole| % NUM_FRAGMENTS == 0
    ensures (whole + tail)[..WholePart(|whole + tail|)] == whole && (whole + tail)[WholePart(|whole + tail|)..] == tail
  {
    SplitWhole(whole, tail, whole + tail);
  }

  lemma DownloadedUntimed(layout: Layout, d: DfuData, e: DfuData, f: FlashData, start: FlashData, alt: byte,
                          whole: seq<seq<byte>>, tail: seq<seq<byte>>)
    requires alt == 1 || alt == 2
    requires Fragments(whole) && Fragments(tail) && Downloaded(layout, d, f, start, alt, whole, tail)
    requires Untimed(d) == Untimed(e)
    ensures Downloaded(layout, e, f, start, alt, whole, tail)
  {
  }

  lemma OneFragment(layout: Layout, d: DfuData, f: FlashData, start: FlashData, alt: byte,
                    whole: seq<seq<byte>>, tail: seq<seq<byte>>, cs: seq<Command>, data: seq<byte>)
    requires layout.WellFormed() && (alt == 1 || alt == 2) && Accounted(layout, start, 0)
    requires Fragments(whole) && Fragments(tail) && Downloaded(layout, d, f, start, alt, whole, tail)
    requires 1 <= |data| <= XFER_SIZE && FragmentCommands(cs, data)
    requires Fits(layout, start, alt, |whole| + |tail| + 1)
    ensures var (whole', tail') := Arrived(whole, tail, data);
            var (e, g) := TransactAll(layout, d, f, cs);
            Fragments(whole') && Fragments(tail') && Downloaded(layout, e, g, start, alt, whole', tail')
  {
    hide Transact, BusyFlash, DfuMachine.BusyEnd, Downloaded;
    DownloadedFacts(layout, d, f, start, alt, whole, tail);
    FragmentCycle(layout, d, f, cs, data);
    var (e, g) := TransactAll(layout, d, f, cs);
    var idle := DfuMachine.BusyEnd(Begun(d, data), StatusOk).(state := DnloadIdle);
    if |tail| < NUM_FRAGMENTS - 1 {
      BufferedFragment(layout, d, f, start, alt, whole, tail, data);
      DownloadedUntimed(layout, idle, e, g, start, alt, whole, tail + [data]);
    } else {
      assert WholePart(|whole| + NUM_FRAGMENTS) == |whole| + NUM_FRAGMENTS;
      SectorFragment(layout, d, f, start, alt, whole, tail, data);
      DownloadedUntimed(layout, idle, e, g, start, alt, whole + (tail + [data]), []);
    }
  }

  /** A fragment whose sector fails: the first poll answers for the busy phase, the second finds the
      engine in dfuERROR. */
  lemma FragmentFails(layout: Layout, d: DfuData, f: FlashData, cs: seq<Command>, data: seq<byte>)
    requires |d.buffer| == SECTOR_SIZE && d.fragNumber < NUM_FRAGMENTS
    requires (d.state == DfuIdle || d.state == DnloadIdle) && !d.moveToError
    requires 1 <= |data| <= XFER_SIZE && FragmentCommands(cs, data)
    requires BusyFlash(layout, Begun(d, data), f).1 != StatusOk
    ensures Served(cs)
    ensures var (e, h) := TransactAll(layout, d, f, cs);
      var (g, outcome) := BusyFlash(layout, Begun(d, data), f);
      h == g && e.state == DfuError && e.status == outcome
  {
    hide Transact, BusyFlash, Forecast, DfuMachine.BusyEnd;
    var filled := FillDnload(d, data).(inProgress := true, state := DnloadSync);
    DnloadTransacts(layout, d, f, data);
    FirstPollTransacts(layout, filled, f, cs[1]);
    assert filled.(state := DnBusy) == Begun(d, data);
    var begun := filled.(state := DnBusy, previousTimeoutMs := Forecast(DnloadSync, filled, cs[1].now).timeoutMs,
                         timeoutStart := cs[1].later);
    var (g, outcome) := BusyFlash(layout, Begun(d, data), f);
    RefusedEnd(begun, outcome);
    ErrorPollTransacts(layout, DfuMachine.BusyEnd(begun, outcome), g, cs[2]);
    ThreeTransact(layout, d, f, cs);
  }

  lemma RefusedEnd(d: DfuData, outcome: DfuStatus)
    requires d.state == DnBusy && !d.moveToError && d.fragNumber < NUM_FRAGMENTS && |d.buffer| == SECTOR_SIZE
    requires outcome != StatusOk
    ensures var e := DfuMachine.BusyEnd(d, outcome);
      e.state == DfuError && e.status == outcome && |e.buffer| == SECTOR_SIZE && e.fragNumber < NUM_FRAGMENTS
  {
  }

  lemma ErrorPollTransacts(layout: Layout, d: DfuData, f: FlashData, c: Command)
    requires |d.buffer| == SECTOR_SIZE && d.fragNumber < NUM_FRAGMENTS
    requires c.CmdGetStatus? && d.state == DfuError
    ensures var (e, g) := Transact(layout, d, f, c); g == f && e.state == DfuError && e.status == d.status
  {
  }

  /** A download uses DNLOAD and GETSTATUS only. */
  predicate DownloadOnly(cs: seq<Command>) {
    forall i :: 0 <= i < |cs| ==> cs[i].Legal() && (cs[i].CmdDnload? || cs[i].CmdGetStatus?)
  }

  lemma ErrorTransacts(layout: Layout, d: DfuData, f: FlashData, c: Command)
    requires |d.buffer| == SECTOR_SIZE && d.fragNumber < NUM_FRAGMENTS
    requires c.Legal() && (c.CmdDnload? || c.CmdGetStatus?) && d.state == DfuError
    ensures var (e, g) := Transact(layout, d, f, c); g == f && e.state == DfuError
  {
    hide Patch;
  }

  /** From dfuERROR no download gets anywhere. */
  lemma {:induction false} ErrorTransactsAll(layout: Layout, d: DfuData, f: FlashData, cs: seq<Command>)
    requires |d.buffer| == SECTOR_SIZE && d.fragNumber < NUM_FRAGMENTS
    requires DownloadOnly(cs) && d.state == DfuError
    ensures Served(cs)
    ensures var (e, g) := TransactAll(layout, d, f, cs); g == f && e.state == DfuError
    decreases cs
  {
    hide Transact;
    if cs != [] {
      ErrorTransacts(layout, d, f, cs[0]);
      var (e, g) := Transact(layout, d, f, cs[0]);
      ErrorTransactsAll(layout, e, g, cs[1..]);
    }
  }

  predicate SameSettings(d: DfuData, e: DfuData) {
    d.altSetting == e.altSetting && d.transferBlock == e.transferBlock
  }

  lemma ErrorSettings(d: DfuData, status: DfuStatus)
    ensures SameSettings(d, ToError(d, status))
  {
  }

  lemma BusyEndSettings(d: DfuData, outcome: DfuStatus)
    requires d.fragNumber < NUM_FRAGMENTS
    ensures SameSettings(d, DfuMachine.BusyEnd(d, outcome))
  {
    hide ToError, Zeros;
    forall e: DfuData, status: DfuStatus
      ensures SameSettings(e, ToError(e, status))
    {
      ErrorSettings(e, status);
    }
  }

  lemma HandleSettings(layout: Layout, d: DfuData, f: FlashData, r: Request)
    requires r == ReqDnload || r == ReqGetStatus
    ensures SameSettings(d, Handle(layout, d, f, r))
  {
  }

  lemma SettingsKept(layout: Layout, d: DfuData, f: FlashData, c: Command)
    requires c.Legal() && (c.CmdDnload? || c.CmdGetStatus?)
    requires |d.buffer| == SECTOR_SIZE && d.fragNumber < NUM_FRAGMENTS
    ensures SameSettings(d, Transact(layout, d, f, c).0)
  {
    hide Handle, BusyFlash, DfuMachine.BusyEnd, Forecast, PolledEarly;
    var filled := Serviced(d, c);
    HandleSettings(layout, filled, f, RequestOf(c));
    HandleInBounds(layout, filled, f, RequestOf(c));
    var begun := Handle(layout, filled, f, RequestOf(c));
    BusyEndSettings(begun, BusyFlash(layout, begun, f).1);
  }

  lemma {:induction false} SettingsKeptByAll(layout: Layout, d: DfuData, f: FlashData, cs: seq<Command>)
    requires DownloadOnly(cs)
    requires |d.buffer| == SECTOR_SIZE && d.fragNumber < NUM_FRAGMENTS
    ensures Served(cs)
    ensures SameSettings(d, TransactAll(layout, d, f, cs).0)
    decreases cs
  {
    hide Transact;
    if cs != [] {
      SettingsKept(layout, d, f, cs[0]);
      var (e, g) := Transact(layout, d, f, cs[0]);
      SettingsKeptByAll(layout, e, g, cs[1..]);
    }
  }

  lemma SendingLength(cs: seq<Command>, frags: seq<seq<byte>>)
    requires Sending(cs, frags)
    ensures |cs| == 3 * |frags|
  {
  }

  lemma SendingRest(cs: seq<Command>, frags: seq<seq<byte>>)
    requires Sending(cs, frags) && frags != []
    ensures FragmentCommands(cs[..3], frags[0]) && Sending(cs[3..], frags[1..])
  {
    assert cs[3 * 0..3 * 0 + 3] == cs[..3];
    forall i | 0 <= i < |frags[1..]|
      ensures FragmentCommands(cs[3..][3 * i..3 * i + 3], frags[1..][i])
    {
      assert cs[3..][3 * i..3 * i + 3] == cs[3 * (i + 1)..3 * (i + 1) + 3];
    }
  }

  lemma WholePartMonotone(m: nat, n: nat)
    requires m <= n
    ensures WholePart(m) <= WholePart(n)
  {
  }

  lemma SplitWhole(whole: seq<seq<byte>>, tail: seq<seq<byte>>, all: seq<seq<byte>>)
    requires |whole| % NUM_FRAGMENTS == 0 && |tail| < NUM_FRAGMENTS && all == whole + tail
    ensures all[..WholePart(|all|)] == whole && all[WholePart(|all|)..] == tail
  {
    assert WholePart(|all|) == |whole|;
  }

  /** The first fragment of a list, and what is left to do for the others. */
  lemma FirstOfFragments(layout: Layout, d: DfuData, f: FlashData, start: FlashData, alt: byte,
                         whole: seq<seq<byte>>, tail: seq<seq<byte>>, cs: seq<Command>,
                         frags: seq<seq<byte>>, all: seq<seq<byte>>)
    requires layout.WellFormed() && (alt == 1 || alt == 2) && Accounted(layout, start, 0) && frags != []
    requires Fragments(whole) && Fragments(tail) && Fragments(frags) && all == whole + tail + frags
    requires Downloaded(layout, d, f, start, alt, whole, tail)
    requires Served(cs) && Sending(cs, frags) && Fits(layout, start, alt, |all|)
    ensures var (whole', tail') := Arrived(whole, tail, frags[0]);
            var (e, g) := TransactAll(layout, d, f, cs[..3]);
            && Fragments(whole') && Fragments(tail') && Downloaded(layout, e, g, start, alt, whole', tail')
            && all == whole' + tail' + frags[1..]
            && Sending(cs[3..], frags[1..])
  {
    SendingRest(cs, frags);
    WholePartMonotone(|whole| + |tail| + 1, |all|);
    OneFragment(layout, d, f, start, alt, whole, tail, cs[..3], frags[0]);
    ArrivedAll(whole, tail, frags, all);
  }

  lemma {:induction false} SendFragments(layout: Layout, d: DfuData, f: FlashData, start: FlashData, alt: byte,
                                         whole: seq<seq<byte>>, tail: seq<seq<byte>>, cs: seq<Command>,
                                         frags: seq<seq<byte>>, all: seq<seq<byte>>)
    requires layout.WellFormed() && (alt == 1 || alt == 2) && Accounted(layout, start, 0)
    requires Fragments(whole) && Fragments(tail) && Fragments(frags) && all == whole + tail + frags
    requires Downloaded(layout, d, f, start, alt, whole, tail)
    requires Served(cs) && Sending(cs, frags) && Fits(layout, start, alt, |all|)
    ensures Fragments(all)
    ensures var (e, g) := TransactAll(layout, d, f, cs);
            var w := WholePart(|all|);
            Downloaded(layout, e, g, start, alt, all[..w], all[w..])
    decreases frags
  {
    hide Transact, Downloaded, Arrived, Sending, FlashAt, Fits;
    DownloadedFacts(layout, d, f, start, alt, whole, tail);
    SendingLength(cs, frags);
    if frags == [] {
      assert all == whole + tail;
    } else {
      FirstOfFragments(layout, d, f, start, alt, whole, tail, cs, frags, all);
      var (e, g) := TransactAll(layout, d, f, cs[..3]);
      var (whole', tail') := Arrived(whole, tail, frags[0]);
      SendFragments(layout, e, g, start, alt, whole', tail', cs[3..], frags[1..], all);
      assert cs[..3] + cs[3..] == cs;
      TransactAppend(layout, d, f, cs[..3], cs[3..]);
    }
  }

  lemma SendingOnly(cs: seq<Command>, frags: seq<seq<byte>>)
    requires Sending(cs, frags) && Fragments(frags)
    ensures DownloadOnly(cs) && Served(cs)
  {
    forall i | 0 <= i < |cs|
      ensures cs[i].Legal() && (cs[i].CmdDnload? || cs[i].CmdGetStatus?)
    {
      var k := i / 3;
      assert cs[i] == cs[3 * k..3 * k + 3][i - 3 * k];
      assert FragmentCommands(cs[3 * k..3 * k + 3], frags[k]);
    }
  }

  /** The fragment that completes the first sector there is no room for. */
  lemma RefusedFragment(layout: Layout, d: DfuData, f: FlashData, start: FlashData, alt: byte,
                        whole: seq<seq<byte>>, tail: seq<seq<byte>>, cs: seq<Command>, data: seq<byte>)
    requires layout.WellFormed() && (alt == 1 || alt == 2) && Accounted(layout, start, 0)
    requires Fragments(whole) && Fragments(tail) && Downloaded(layout, d, f, start, alt, whole, tail)
    requires 1 <= |data| <= XFER_SIZE && |tail| == NUM_FRAGMENTS - 1 && FragmentCommands(cs, data)
    requires XFER_SIZE * |whole| <= Room(layout, start, alt) < XFER_SIZE * (|whole| + NUM_FRAGMENTS)
    ensures Served(cs) && |d.buffer| == SECTOR_SIZE && d.fragNumber < NUM_FRAGMENTS && WholeSectors(whole)
    ensures var (e, g) := TransactAll(layout, d, f, cs);
      && e.state == DfuError && e.status == ErrAddress
      && g == Midway(layout, start, alt, whole)
  {
    hide Transact, BusyFlash, DfuMachine.BusyEnd, Downloaded, Room;
    DownloadedFacts(layout, d, f, start, alt, whole, tail);
    DownloadedContents(layout, d, f, start, alt, whole, tail);
    SectorFragment(layout, d, f, start, alt, whole, tail, data);
    FragmentFails(layout, d, f, cs, data);
  }

  lemma DownloadedContents(layout: Layout, d: DfuData, f: FlashData, start: FlashData, alt: byte,
                           whole: seq<seq<byte>>, tail: seq<seq<byte>>)
    requires alt == 1 || alt == 2
    requires Fragments(whole) && Fragments(tail) && Downloaded(layout, d, f, start, alt, whole, tail)
    ensures WholeSectors(whole) && f.contents == Laid(start.contents, Base(layout, start, alt), whole)
  {
  }

  /** More fragments than there is room for: what fits is written, the first sector that does not
      ends the download with errADDRESS, and nothing sent after that changes the flash. */
  lemma {:induction false} SendTooMany(layout: Layout, d: DfuData, f: FlashData, start: FlashData, alt: byte,
                                       whole: seq<seq<byte>>, tail: seq<seq<byte>>, cs: seq<Command>,
                                       frags: seq<seq<byte>>, all: seq<seq<byte>>)
    requires layout.WellFormed() && (alt == 1 || alt == 2) && Accounted(layout, start, 0)
    requires Fragments(whole) && Fragments(tail) && Fragments(frags) && all == whole + tail + frags
    requires Downloaded(layout, d, f, start, alt, whole, tail)
    requires Served(cs) && Sending(cs, frags)
    requires XFER_SIZE * |whole| <= Room(layout, start, alt) && !Fits(layout, start, alt, |all|)
    ensures |d.buffer| == SECTOR_SIZE && d.fragNumber < NUM_FRAGMENTS
    ensures var (e, g) := TransactAll(layout, d, f, cs);
      var fitting := Fitting(Room(layout, start, alt));
      && fitting + NUM_FRAGMENTS <= |all| && WholeSectors(all[..fitting])
      && e.state == DfuError
      && (|all| == fitting + NUM_FRAGMENTS ==> e.status == ErrAddress)
      && g == Midway(layout, start, alt, all[..fitting])
    decreases frags
  {
    hide Transact, Downloaded, Sending, FlashAt, Room, Laid, Base, Served, Fragments, Arrived, WholePart, Fitting,
         Midway;
    DownloadedFacts(layout, d, f, start, alt, whole, tail);
    var room := Room(layout, start, alt);
    if frags == [] {
      NoneLeft(whole, tail, all);
    } else if |tail| == NUM_FRAGMENTS - 1 && room < XFER_SIZE * (|whole| + NUM_FRAGMENTS) {
      RefusedAndRest(layout, d, f, start, alt, whole, tail, cs, frags, all);
    } else {
      SendingRest(cs, frags);
      SendingSplit(cs, frags);
      FragmentsSplit(whole, tail, frags);
      assert cs[..3] + cs[3..] == cs;
      NextFits(whole, tail, frags[0], room);
      OneFragment(layout, d, f, start, alt, whole, tail, cs[..3], frags[0]);
      ArrivedAll(whole, tail, frags, all);
      var (e, g) := TransactAll(layout, d, f, cs[..3]);
      var (whole', tail') := Arrived(whole, tail, frags[0]);
      SendTooMany(layout, e, g, start, alt, whole', tail', cs[3..], frags[1..], all);
      TransactAppend(layout, d, f, cs[..3], cs[3..]);
    }
  }

  lemma NoneLeft(whole: seq<seq<byte>>, tail: seq<seq<byte>>, all: seq<seq<byte>>)
    requires |whole| % NUM_FRAGMENTS == 0 && |tail| < NUM_FRAGMENTS && all == whole + tail + []
    ensures WholePart(|all|) == |whole|
  {
  }

  lemma NextFits(whole: seq<seq<byte>>, tail: seq<seq<byte>>, data: seq<byte>, room: int)
    requires |whole| % NUM_FRAGMENTS == 0 && |tail| < NUM_FRAGMENTS && XFER_SIZE * |whole| <= room
    requires |tail| < NUM_FRAGMENTS - 1 || XFER_SIZE * (|whole| + NUM_FRAGMENTS) <= room
    ensures XFER_SIZE * WholePart(|whole| + |tail| + 1) <= room
    ensures XFER_SIZE * |Arrived(whole, tail, data).0| <= room
  {
    WholePartIs(|whole|, |tail| + 1);
  }

  lemma WholePartIs(w: nat, n: nat)
    requires w % NUM_FRAGMENTS == 0 && n <= NUM_FRAGMENTS
    ensures WholePart(w + n) == if n < NUM_FRAGMENTS then w else w + NUM_FRAGMENTS
  {
    DivUnique(w + n, NUM_FRAGMENTS, w / NUM_FRAGMENTS + n / NUM_FRAGMENTS);
  }

  lemma RefusedAndRest(layout: Layout, d: DfuData, f: FlashData, start: FlashData, alt: byte,
                       whole: seq<seq<byte>>, tail: seq<seq<byte>>, cs: seq<Command>,
                       frags: seq<seq<byte>>, all: seq<seq<byte>>)
    requires layout.WellFormed() && (alt == 1 || alt == 2) && Accounted(layout, start, 0)
    requires Fragments(whole) && Fragments(tail) && Fragments(frags) && all == whole + tail + frags && frags != []
    requires Downloaded(layout, d, f, start, alt, whole, tail) && |tail| == NUM_FRAGMENTS - 1
    requires Served(cs) && Sending(cs, frags)
    requires XFER_SIZE * |whole| <= Room(layout, start, alt) < XFER_SIZE * (|whole| + NUM_FRAGMENTS)
    ensures |d.buffer| == SECTOR_SIZE && d.fragNumber < NUM_FRAGMENTS
    ensures var (e, g) := TransactAll(layout, d, f, cs);
      && Fitting(Room(layout, start, alt)) == |whole| && all[..|whole|] == whole && WholeSectors(whole)
      && |whole| + NUM_FRAGMENTS <= |all|
      && e.state == DfuError
      && (|all| == |whole| + NUM_FRAGMENTS ==> e.status == ErrAddress)
      && g == Midway(layout, start, alt, whole)
  {
    hide Transact, Downloaded, Sending, FlashAt, Room, Laid, Base, Served, Fragments, Midway;
    SendingRest(cs, frags);
    SendingSplit(cs, frags);
    FragmentsSplit(whole, tail, frags);
    assert cs[..3] + cs[3..] == cs;
    RefusedFragment(layout, d, f, start, alt, whole, tail, cs[..3], frags[0]);
    var (e, g) := TransactAll(layout, d, f, cs[..3]);
    ErrorTransactsAll(layout, e, g, cs[3..]);
    TransactAppend(layout, d, f, cs[..3], cs[3..]);
    FittingIs(|whole|, Room(layout, start, alt));
    if |all| == |whole| + NUM_FRAGMENTS {
      assert cs[3..] == [];
    }
  }

  lemma FittingIs(w: nat, room: nat)
    requires w % NUM_FRAGMENTS == 0 && XFER_SIZE * w <= room < XFER_SIZE * (w + NUM_FRAGMENTS)
    ensures Fitting(room) == w
  {
  }

  lemma SendingSplit(cs: seq<Command>, frags: seq<seq<byte>>)
    requires Served(cs) && Sending(cs, frags) && frags != [] && Fragments(frags)
    ensures |cs| == 3 * |frags| && Served(cs[..3]) && Served(cs[3..]) && DownloadOnly(cs[3..])
  {
    SendingRest(cs, frags);
    assert Fragments(frags[1..]);
    SendingOnly(cs[3..], frags[1..]);
  }

  lemma FragmentsSplit(whole: seq<seq<byte>>, tail: seq<seq<byte>>, frags: seq<seq<byte>>)
    requires Fragments(whole) && Fragments(tail) && Fragments(frags) && frags != []
    ensures 1 <= |frags[0]| <= XFER_SIZE && Fragments(frags[1..])
  {
  }

  // ---------------------------------------------------------------- the end of a download

  /** The empty DNLOAD and the two polls that end a download. */
  lemma EndCycle(layout: Layout, d: DfuData, f: FlashData, cs: seq<Command>)
    requires |d.buffer| == SECTOR_SIZE && d.fragNumber < NUM_FRAGMENTS
    requires d.state == DnloadIdle && !d.moveToError
    requires FragmentCommands(cs, [])
    ensures Served(cs)
    ensures var (e, g) := TransactAll(layout, d, f, cs);
            && g == ManifestOf(f)
            && Untimed(e) == Untimed(ResetDownloadBuffer(d).(state := DfuIdle, inProgress := false))
  {
    var syncing := ResetDownloadBuffer(d).(inProgress := true, state := ManifestSync);
    assert Transact(layout, d, f, cs[0]) == (syncing, f);
    var (manifested, g) := Transact(layout, syncing, f, cs[1]);
    assert g == ManifestOf(f);
    assert Untimed(manifested) == Untimed(syncing.(inProgress := false));
    var (idle, h) := Transact(layout, manifested, g, cs[2]);
    assert h == g && Untimed(idle) == Untimed(manifested.(state := DfuIdle));
    ThreeTransact(layout, d, f, cs);
  }

  /** What a download of `frags` from flash `start` leaves behind. Whatever fits: the engine is
      back in dfuIDLE with the latch open, the partition holds exactly the zero-padded fragments of
      the whole sectors and every other byte of the flash is as before; what did not fill a sector
      is gone. Otherwise it ends in dfuERROR with the sectors that did fit, the latch held and less
      than a sector of room. */
  predicate DownloadLeaves(layout: Layout, start: FlashData, alt: byte, frags: seq<seq<byte>>, d: DfuData, f: FlashData)
    requires (alt == 1 || alt == 2) && Fragments(frags) && Room(layout, start, alt) >= 0
  {
    var base := Base(layout, start, alt);
    if Fits(layout, start, alt, |frags|) then
      && d.state == DfuIdle && d.status == StatusOk
      && d.buffer == Zeros(SECTOR_SIZE) && d.blockNumber == 0 && d.fragNumber == 0
      && f.dnBaseAddr == 0
      && f.contents == Laid(start.contents, base, frags[..WholePart(|frags|)])
    else
      && Fitting(Room(layout, start, alt)) <= |frags|
      && d.state == DfuError
      && f.contents == Laid(start.contents, base, frags[..Fitting(Room(layout, start, alt))])
      && f.dnBaseAddr == base && Accounted(layout, f, 0) && 0 <= f.bytesAvail - f.totalLen < SECTOR_SIZE
  }

  lemma NothingYet(layout: Layout, d: DfuData, f: FlashData, alt: byte)
    requires (alt == 1 || alt == 2) && DfuSafety.BlankFrom(d.buffer, 0) && |d.buffer| == SECTOR_SIZE
    requires d.state == DfuIdle && d.status == StatusOk && !d.moveToError && !d.inProgress
    requires d.altSetting == alt && d.blockNumber == 0 && d.fragNumber == 0
    ensures Downloaded(layout, d, f, f, alt, [], [])
  {
    assert d.buffer == Assemble([]) + Zeros(SECTOR_SIZE);
  }

  lemma RoomLeft(layout: Layout, start: FlashData, alt: byte)
    requires layout.WellFormed() && (alt == 1 || alt == 2) && Accounted(layout, start, 0)
    ensures Room(layout, start, alt) >= 0
  {
    LatchAccounted(layout, start, alt, 0);
  }

  lemma FittingDownload(layout: Layout, d: DfuData, f: FlashData, alt: byte, frags: seq<seq<byte>>, cs: seq<Command>,
                        close: seq<Command>)
    requires layout.WellFormed() && (alt == 1 || alt == 2) && Accounted(layout, f, 0)
    requires Downloaded(layout, d, f, f, alt, [], []) && |d.buffer| == SECTOR_SIZE && d.fragNumber < NUM_FRAGMENTS
    requires frags != [] && Fragments(frags) && Sending(cs, frags) && FragmentCommands(close, [])
    requires Room(layout, f, alt) >= 0 && Fits(layout, f, alt, |frags|) && Served(cs) && Served(close)
    ensures Served(cs + close)
    ensures var (e, g) := TransactAll(layout, d, f, cs + close); DownloadLeaves(layout, f, alt, frags, e, g)
  {
    hide Transact, Sending, Laid, Room, Base, Latch, Fits, Served;
    var w := WholePart(|frags|);
    var (e, g) := TransactAll(layout, d, f, cs);
    assert frags == [] + [] + frags;
    SendFragments(layout, d, f, f, alt, [], [], cs, frags, frags);
    DownloadedContents(layout, e, g, f, alt, frags[..w], frags[w..]);
    EndCycle(layout, e, g, close);
    TransactAppend(layout, d, f, cs, close);
  }

  lemma RefusedDownload(layout: Layout, d: DfuData, f: FlashData, alt: byte, frags: seq<seq<byte>>, cs: seq<Command>,
                        close: seq<Command>)
    requires layout.WellFormed() && (alt == 1 || alt == 2) && Accounted(layout, f, 0)
    requires Downloaded(layout, d, f, f, alt, [], []) && |d.buffer| == SECTOR_SIZE && d.fragNumber < NUM_FRAGMENTS
    requires frags != [] && Fragments(frags) && Sending(cs, frags) && FragmentCommands(close, [])
    requires Room(layout, f, alt) >= 0 && !Fits(layout, f, alt, |frags|) && Served(cs) && Served(close)
    ensures Served(cs + close)
    ensures var (e, g) := TransactAll(layout, d, f, cs + close); DownloadLeaves(layout, f, alt, frags, e, g)
  {
    hide Transact, Sending, Laid, Room, Base, Latch, Fits, Served, Downloaded;
    CloseServed(close);
    var (e, g) := TransactAll(layout, d, f, cs);
    assert frags == [] + [] + frags;
    SendTooMany(layout, d, f, f, alt, [], [], cs, frags, frags);
    RefusedFlash(layout, f, alt, frags[..Fitting(Room(layout, f, alt))]);
    ErrorTransactsAll(layout, e, g, close);
    TransactAppend(layout, d, f, cs, close);
  }

  /** The flash when there is no room for one more sector. */
  lemma RefusedFlash(layout: Layout, start: FlashData, alt: byte, whole: seq<seq<byte>>)
    requires layout.WellFormed() && (alt == 1 || alt == 2) && Accounted(layout, start, 0) && WholeSectors(whole)
    requires XFER_SIZE * |whole| <= Room(layout, start, alt) < XFER_SIZE * (|whole| + NUM_FRAGMENTS)
    ensures var g := Midway(layout, start, alt, whole);
      && g.contents == Laid(start.contents, Base(layout, start, alt), whole)
      && g.dnBaseAddr == Base(layout, start, alt) && Accounted(layout, g, 0)
      && 0 <= g.bytesAvail - g.totalLen < SECTOR_SIZE
  {
    hide Laid, Latch;
    MidwayAccounts(layout, start, alt, whole);
  }

  lemma CloseServed(close: seq<Command>)
    requires FragmentCommands(close, [])
    ensures Served(close) && DownloadOnly(close)
  {
  }

  /** The commands of a download, one by one: `frags`, two polls after each, and an empty DNLOAD
      with its two polls. */
  lemma DownloadTransacts(layout: Layout, s: System, alt: byte, frags: seq<seq<byte>>, cs: seq<Command>,
                          close: seq<Command>)
    requires layout.WellFormed() && (alt == 1 || alt == 2) && Accounted(layout, s.flash, 0)
    requires Rested(s) && s.dfu.state == DfuIdle && !s.dfu.moveToError && s.dfu.altSetting == alt
    requires frags != [] && Fragments(frags) && Sending(cs, frags) && FragmentCommands(close, [])
    ensures Served(cs + close) && |s.dfu.buffer| == SECTOR_SIZE && s.dfu.fragNumber < NUM_FRAGMENTS
    ensures Room(layout, s.flash, alt) >= 0
    ensures var (e, g) := TransactAll(layout, s.dfu, s.flash, cs + close);
      DownloadLeaves(layout, s.flash, alt, frags, e, g)
  {
    hide Transact, TransactAll, Sending, Laid, Room, Base, Latch, Fits, DownloadLeaves, Downloaded;
    hide DfuHandover.Handover, DfuSafety.RecordKept;
    RoomLeft(layout, s.flash, alt);
    RestedRecord(s);
    NothingYet(layout, s.dfu, s.flash, alt);
    SendingOnly(cs, frags);
    CloseServed(close);
    if Fits(layout, s.flash, alt, |frags|) {
      FittingDownload(layout, s.dfu, s.flash, alt, frags, cs, close);
    } else {
      RefusedDownload(layout, s.dfu, s.flash, alt, frags, cs, close);
    }
  }

  lemma RestedRecord(s: System)
    requires Rested(s) && s.dfu.state == DfuIdle && !s.dfu.moveToError
    ensures |s.dfu.buffer| == SECTOR_SIZE && s.dfu.fragNumber == 0 && s.dfu.blockNumber == 0
    ensures DfuSafety.BlankFrom(s.dfu.buffer, 0) && s.dfu.status == StatusOk && !s.dfu.inProgress
  {
  }

  /** A download from a system at rest in dfuIDLE, with or without a partition still latched by a
      download that was aborted: for every schedule of the two tasks, and however often the host
      polls in time while they work, it ends as `DownloadLeaves` says, in dfuIDLE if and only if
      the whole sectors fit what is left of the partition. */
  lemma DownloadImage(layout: Layout, s: System, alt: byte, frags: seq<seq<byte>>, cs: seq<Command>,
                      close: seq<Command>, actions: seq<Action>)
    requires layout.WellFormed() && (alt == 1 || alt == 2) && Accounted(layout, s.flash, 0)
    requires Rested(s) && s.dfu.state == DfuIdle && !s.dfu.moveToError && s.dfu.altSetting == alt
    requires frags != [] && Fragments(frags) && Sending(cs, frags) && FragmentCommands(close, [])
    requires Polite(layout, s, actions) && Commands(layout, s, actions) == cs + close
    requires DfuSafety.Quiescent(Run(layout, s, actions))
    ensures var t := Run(layout, s, actions);
      && Rested(t) && Room(layout, s.flash, alt) >= 0
      && DownloadLeaves(layout, s.flash, alt, frags, t.dfu, t.flash)
      && (t.dfu.state == DfuIdle <==> Fits(layout, s.flash, alt, |frags|))
  {
    hide Transact, Sending, Laid, Room, Base, Latch, Fits, Polite, Commands, Rested;
    DownloadTransacts(layout, s, alt, frags, cs, close);
    CommandsOneByOne(layout, s, actions);
    ServedPerforms(layout, s.dfu, s.flash, cs + close);
  }

  /** There is such a schedule: one transaction after the other. */
  lemma DownloadInTurn(layout: Layout, s: System, alt: byte, frags: seq<seq<byte>>, cs: seq<Command>,
                       close: seq<Command>)
    requires layout.WellFormed() && (alt == 1 || alt == 2) && Accounted(layout, s.flash, 0)
    requires Rested(s) && s.dfu.state == DfuIdle && !s.dfu.moveToError && s.dfu.altSetting == alt
    requires frags != [] && Fragments(frags) && Sending(cs, frags) && FragmentCommands(close, [])
    ensures var t := Run(layout, s, Transactions(cs + close));
      && Rested(t) && Room(layout, s.flash, alt) >= 0
      && DownloadLeaves(layout, s.flash, alt, frags, t.dfu, t.flash)
  {
    hide Transact, TransactAll, Sending, Laid, Room, Base, Latch, Fits, DownloadLeaves, Polite, Commands;
    hide DfuHandover.Handover, DfuSafety.RecordKept;
    SendingOnly(cs, frags);
    CloseServed(close);
    TransactionsPolite(layout, s, cs + close);
    RestedBounded(s);
    TransactionsRun(layout, s, cs + close);
    DownloadImage(layout, s, alt, frags, cs, close, Transactions(cs + close));
  }

  lemma RestedBounded(s: System)
    requires Rested(s)
    ensures |s.dfu.buffer| == SECTOR_SIZE && s.dfu.fragNumber < NUM_FRAGMENTS
  {
  }

  /** A host that stops at the first error reads errADDRESS. */
  lemma DownloadRefused(layout: Layout, s: System, alt: byte, frags: seq<seq<byte>>, cs: seq<Command>,
                        actions: seq<Action>)
    requires layout.WellFormed() && (alt == 1 || alt == 2) && Accounted(layout, s.flash, 0)
    requires Rested(s) && s.dfu.state == DfuIdle && !s.dfu.moveToError && s.dfu.altSetting == alt
    requires Fragments(frags) && Sending(cs, frags)
    requires Room(layout, s.flash, alt) >= 0 && |frags| == Fitting(Room(layout, s.flash, alt)) + NUM_FRAGMENTS
    requires Polite(layout, s, actions) && Commands(layout, s, actions) == cs
    requires DfuSafety.Quiescent(Run(layout, s, actions))
    ensures var t := Run(layout, s, actions);
      && Rested(t) && t.dfu.state == DfuError && t.dfu.status == ErrAddress && t.dfu.altSetting == alt
      && t.flash.contents == Laid(s.flash.contents, Base(layout, s.flash, alt), frags[..|frags| - NUM_FRAGMENTS])
      && t.flash.dnBaseAddr == Base(layout, s.flash, alt) && Accounted(layout, t.flash, 0)
      && 0 <= t.flash.bytesAvail - t.flash.totalLen < SECTOR_SIZE
  {
    hide Transact, Sending, Laid, Room, Base, Latch, Polite, Commands, Rested, TransactAll, PerformAll;
    RestedRecord(s);
    NothingYet(layout, s.dfu, s.flash, alt);
    SendingOnly(cs, frags);
    assert frags == [] + [] + frags;
    SendTooMany(layout, s.dfu, s.flash, s.flash, alt, [], [], cs, frags, frags);
    RefusedFlash(layout, s.flash, alt, frags[..|frags| - NUM_FRAGMENTS]);
    SettingsKeptByAll(layout, s.dfu, s.flash, cs);
    CommandsOneByOne(layout, s, actions);
    ServedPerforms(layout, s.dfu, s.flash, cs);
  }

  /** With at most 65536 sectors the image lies in one piece at the base of the partition. */
  lemma ImageInOnePiece(layout: Layout, start: FlashData, alt: byte, frags: seq<seq<byte>>, d: DfuData, f: FlashData)
    requires (alt == 1 || alt == 2) && Fragments(frags) && Room(layout, start, alt) >= 0
    requires DownloadLeaves(layout, start, alt, frags, d, f) && Fits(layout, start, alt, |frags|)
    requires WholePart(|frags|) <= NUM_FRAGMENTS * TWO16
    ensures f.contents == Patch(start.contents, Base(layout, start, alt), Assemble(frags[..WholePart(|frags|)]))
  {
    hide Room, Base;
    LaidStraight(start.contents, Base(layout, start, alt), frags[..WholePart(|frags|)]);
  }

  lemma SectorsLeft(w: nat)
    requires w % NUM_FRAGMENTS == 0 && w >= NUM_FRAGMENTS * TWO16
    ensures (w - NUM_FRAGMENTS * TWO16) % NUM_FRAGMENTS == 0
  {
  }

  /** With more, up to twice as many, the later sectors lie over the first ones. */
  lemma ImageOverItself(layout: Layout, start: FlashData, alt: byte, frags: seq<seq<byte>>, d: DfuData, f: FlashData)
    requires (alt == 1 || alt == 2) && Fragments(frags) && Room(layout, start, alt) >= 0
    requires DownloadLeaves(layout, start, alt, frags, d, f) && Fits(layout, start, alt, |frags|)
    requires NUM_FRAGMENTS * TWO16 <= WholePart(|frags|) <= 2 * NUM_FRAGMENTS * TWO16
    ensures var limit := NUM_FRAGMENTS * TWO16;
      var first, second := frags[..limit], frags[limit..WholePart(|frags|)];
      var base := Base(layout, start, alt);
      && Fragments(first) && Fragments(second)
      && f.contents == Patch(Patch(start.contents, base, Assemble(first)), base, Assemble(second))
  {
    hide Room, Base, Laid, Patch, Assemble;
    var w, limit := WholePart(|frags|), NUM_FRAGMENTS * TWO16;
    var first, second := frags[..limit], frags[limit..w];
    assert frags[..w] == first + second;
    SectorsLeft(w);
    LaidStartsOver(start.contents, Base(layout, start, alt), first, second);
    LaidStraight(Patch(start.contents, Base(layout, start, alt), Assemble(first)), Base(layout, start, alt), second);
  }

  // ---------------------------------------------------------------- alternates without a partition

  /** The record while fragments for such an alternate are collected. */
  predicate Collecting(d: DfuData, alt: byte, n: nat) {
    && d.state == (if n == 0 then DfuIdle else DnloadIdle) && d.status == StatusOk
    && !d.moveToError && d.altSetting == alt && d.fragNumber == n && |d.buffer| == SECTOR_SIZE
  }

  lemma CollectOne(layout: Layout, d: DfuData, f: FlashData, alt: byte, n: nat, cs: seq<Command>, data: seq<byte>)
    requires alt != 1 && alt != 2 && n < NUM_FRAGMENTS && Collecting(d, alt, n)
    requires 1 <= |data| <= XFER_SIZE && FragmentCommands(cs, data)
    ensures Served(cs)
    ensures var (e, g) := TransactAll(layout, d, f, cs);
      g == f && if n + 1 < NUM_FRAGMENTS then Collecting(e, alt, n + 1) else e.state == DfuError && e.status == ErrWrite
  {
    hide Transact, TransactAll, Patch;
    FragmentCycle(layout, d, f, cs, data);
    NoPartition(layout, d, f, data);
    if n + 1 == NUM_FRAGMENTS {
      FragmentFails(layout, d, f, cs, data);
    }
  }

  lemma NoPartition(layout: Layout, d: DfuData, f: FlashData, data: seq<byte>)
    requires |d.buffer| == SECTOR_SIZE && d.altSetting != 1 && d.altSetting != 2 && |data| <= XFER_SIZE
    ensures BusyFlash(layout, Begun(d, data), f) ==
            (f, if d.fragNumber == NUM_FRAGMENTS - 1 then ErrWrite else StatusOk)
  {
    hide Patch;
  }

  lemma {:induction false} CollectAll(layout: Layout, d: DfuData, f: FlashData, alt: byte, n: nat, cs: seq<Command>,
                                      frags: seq<seq<byte>>)
    requires alt != 1 && alt != 2 && n < NUM_FRAGMENTS && Collecting(d, alt, n)
    requires Fragments(frags) && Sending(cs, frags)
    ensures Served(cs)
    ensures var (e, g) := TransactAll(layout, d, f, cs);
      && g == f
      && (n + |frags| < NUM_FRAGMENTS ==> Collecting(e, alt, n + |frags|))
      && (n + |frags| >= NUM_FRAGMENTS ==> e.state == DfuError)
      && (n + |frags| == NUM_FRAGMENTS ==> e.status == ErrWrite)
    decreases frags
  {
    hide Transact, Sending, Collecting;
    SendingLength(cs, frags);
    SendingOnly(cs, frags);
    if frags != [] {
      SendingRest(cs, frags);
      SendingSplit(cs, frags);
      assert cs[..3] + cs[3..] == cs;
      CollectingBounds(d, alt, n);
      CollectOne(layout, d, f, alt, n, cs[..3], frags[0]);
      var (e, g) := TransactAll(layout, d, f, cs[..3]);
      TransactAppend(layout, d, f, cs[..3], cs[3..]);
      if n + 1 < NUM_FRAGMENTS {
        CollectAll(layout, e, g, alt, n + 1, cs[3..], frags[1..]);
      } else {
        ErrorTransactsAll(layout, e, g, cs[3..]);
        if |frags| == 1 {
          assert cs[3..] == [];
        }
      }
    } else {
      CollectingBounds(d, alt, n);
    }
  }

  lemma CollectingBounds(d: DfuData, alt: byte, n: nat)
    requires n < NUM_FRAGMENTS && Collecting(d, alt, n)
    ensures |d.buffer| == SECTOR_SIZE && d.fragNumber < NUM_FRAGMENTS
  {
  }

  /** A download into an alternate that has no partition to write to, the factory image's or any
      other, by any such schedule: its first sector is refused with errWRITE and the flash stays as
      it is; a shorter one ends in dfuIDLE and leaves nothing but an open latch. */
  lemma DownloadElsewhere(layout: Layout, s: System, alt: byte, frags: seq<seq<byte>>, cs: seq<Command>,
                          close: seq<Command>, actions: seq<Action>)
    requires alt != 1 && alt != 2
    requires Rested(s) && s.dfu.state == DfuIdle && !s.dfu.moveToError && s.dfu.altSetting == alt
    requires frags != [] && Fragments(frags) && Sending(cs, frags)
    requires close == [] || (FragmentCommands(close, []) && |frags| != 32)
    requires Polite(layout, s, actions) && Commands(layout, s, actions) == cs + close
    requires DfuSafety.Quiescent(Run(layout, s, actions))
    ensures var t := Run(layout, s, actions);
      && Rested(t)
      && (|frags| >= 32 ==> t.dfu.state == DfuError && t.flash == s.flash)
      && (|frags| == 32 ==> t.dfu.status == ErrWrite)
      && (|frags| < 32 && close != [] ==> t.dfu.state == DfuIdle && t.flash == s.flash.(dnBaseAddr := 0))
  {
    hide Transact, TransactAll, Sending, Polite, Commands, PerformAll, DfuHandover.Handover;
    RestedRecord(s);
    RestedBounded(s);
    SendingOnly(cs, frags);
    CollectAll(layout, s.dfu, s.flash, alt, 0, cs, frags);
    var (e, g) := TransactAll(layout, s.dfu, s.flash, cs);
    if close == [] {
      assert cs + close == cs;
    } else {
      CloseServed(close);
      TransactAppend(layout, s.dfu, s.flash, cs, close);
      if |frags| < 32 {
        EndCycle(layout, e, g, close);
      } else {
        ErrorTransactsAll(layout, e, g, close);
      }
    }
    CommandsOneByOne(layout, s, actions);
    ServedPerforms(layout, s.dfu, s.flash, cs + close);
  }
}
