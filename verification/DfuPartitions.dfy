/** Where the flash can change: every write stays in the partition latched for the download,
    and the factory image is never touched. */
module DfuPartitions {
  import opened Words
  import opened DfuTypes
  import opened DfuFlash
  import opened DfuMachine
  import opened DfuProtocol
  import DfuHandover
  import DfuSafety

  /** The busy phase has written its sector and has not counted it yet. */
  predicate JustWritten(s: System) {
    s.task == BusyDone(StatusOk) && s.dfu.state == DnBusy && s.dfu.fragNumber == NUM_FRAGMENTS - 1
  }

  /** Where the partition of an alternate begins, and how long it is. */
  function OwnBase(layout: Layout, alt: byte): u32 {
    if alt == 1 then layout.upgradeAddr else layout.dataAddr
  }

  function OwnSize(layout: Layout, alt: byte): int {
    if alt == 1 then layout.dataAddr - layout.upgradeAddr else layout.flashSize - layout.dataAddr
  }

  /** The partition a latched base address belongs to, one of two. */
  predicate LatchedPartition(layout: Layout, f: FlashData) {
    || (f.dnBaseAddr == layout.upgradeAddr && f.bytesAvail == layout.dataAddr - layout.upgradeAddr)
    || (f.dnBaseAddr == layout.dataAddr && f.bytesAvail == layout.flashSize - layout.dataAddr)
  }

  /** The accounts of a download at `block`, for a record of the flash that may be unlatched. */
  predicate Accounted(layout: Layout, f: FlashData, block: nat) {
    && (f.dnBaseAddr == 0 ==> block == 0)
    && (f.dnBaseAddr != 0 ==> LatchedPartition(layout, f) && SECTOR_SIZE * block <= f.totalLen <= f.bytesAvail)
  }

  /** Addresses and accounts agree: the sectors of this transfer fit what has been written since
      the latch, and that fits the partition. */
  predicate AccountsKept(layout: Layout, s: System) {
    var f := s.flash;
    && |f.contents| == layout.flashSize
    && Accounted(layout, f, s.dfu.blockNumber)
    && (JustWritten(s) ==> f.dnBaseAddr != 0 && SECTOR_SIZE * (s.dfu.blockNumber + 1) <= f.totalLen)
  }

  /** Only bytes of the partition latched in `after` differ. */
  predicate ConfinedChange(before: FlashData, after: FlashData) {
    && |before.contents| == |after.contents|
    && forall i :: 0 <= i < |before.contents| && !(after.dnBaseAddr <= i < after.dnBaseAddr + after.bytesAvail) ==>
         after.contents[i] == before.contents[i]
  }

  lemma LatchAccounted(layout: Layout, f: FlashData, alt: byte, block: u16)
    requires layout.WellFormed() && (alt == 1 || alt == 2) && Accounted(layout, f, block)
    ensures var g := Latch(layout, f, alt);
            && Accounted(layout, g, block) && g.dnBaseAddr != 0 && g.contents == f.contents
            && g.dnBaseAddr + g.bytesAvail <= layout.flashSize
            && (f.dnBaseAddr != 0 ==> g == f)
  {
  }

  lemma SectorAddress(base: u32, block: u16, length: nat)
    requires length == SECTOR_SIZE && base + SECTOR_SIZE * block < TWO32
    ensures Wrap32(base + block * length) == base + SECTOR_SIZE * block
  {
    assert block * length == SECTOR_SIZE * block;
  }

  /** What a write to a latched partition does, with the wrap-arounds shown not to happen. */
  lemma LatchedWrite(layout: Layout, f: FlashData, alt: byte, block: u16, data: seq<byte>)
    requires layout.WellFormed() && (alt == 1 || alt == 2) && |data| == SECTOR_SIZE
    requires f.dnBaseAddr != 0 && Accounted(layout, f, block)
    ensures WriteTo(layout, f, alt, block, data) ==
            if f.bytesAvail - f.totalLen < SECTOR_SIZE then
              (f, ErrAddress)
            else
              (f.(contents := Patch(f.contents, f.dnBaseAddr + SECTOR_SIZE * block, data),
                  totalLen := f.totalLen + SECTOR_SIZE), StatusOk)
  {
    if f.bytesAvail - f.totalLen >= SECTOR_SIZE {
      SectorAddress(f.dnBaseAddr, block, |data|);
    }
  }

  /** A sector write lands inside the latched partition, right behind the blocks before it. */
  lemma SectorWrite(layout: Layout, d: DfuData, f: FlashData)
    requires layout.WellFormed() && |f.contents| == layout.flashSize && |d.buffer| == SECTOR_SIZE
    requires Accounted(layout, f, d.blockNumber)
    ensures var (g, outcome) := WriteTo(layout, f, d.altSetting, d.blockNumber, d.buffer);
            && |g.contents| == layout.flashSize
            && Accounted(layout, g, d.blockNumber)
            && (outcome == StatusOk ==> g.dnBaseAddr != 0 && SECTOR_SIZE * (d.blockNumber + 1) <= g.totalLen)
            && (outcome != StatusOk ==> g.contents == f.contents)
            && (f.dnBaseAddr != 0 ==> g.dnBaseAddr == f.dnBaseAddr && g.bytesAvail == f.bytesAvail)
            && ConfinedChange(f, g)
  {
    if d.altSetting == 1 || d.altSetting == 2 {
      var g := Latch(layout, f, d.altSetting);
      LatchAccounted(layout, f, d.altSetting, d.blockNumber);
      assert WriteTo(layout, f, d.altSetting, d.blockNumber, d.buffer)
          == WriteTo(layout, g, d.altSetting, d.blockNumber, d.buffer);
      LatchedWrite(layout, g, d.altSetting, d.blockNumber, d.buffer);
    }
  }

  lemma FlashWorkStep(layout: Layout, s: System)
    requires layout.WellFormed() && DfuSafety.RecordKept(s) && AccountsKept(layout, s) && s.task.BusyBegun?
    ensures AccountsKept(layout, Step(layout, s, FlashWork))
    ensures ConfinedChange(s.flash, Step(layout, s, FlashWork).flash)
    ensures s.flash.dnBaseAddr != 0 ==>
              var g := Step(layout, s, FlashWork).flash;
              if s.dfu.state == Manifest then g.dnBaseAddr == 0 && g.contents == s.flash.contents
              else g.dnBaseAddr == s.flash.dnBaseAddr && g.bytesAvail == s.flash.bytesAvail
  {
    if s.dfu.state != Manifest && s.dfu.fragNumber == NUM_FRAGMENTS - 1 {
      SectorWrite(layout, s.dfu, s.flash);
    }
  }

  /** Handling a request leaves the block number alone or starts it over. */
  lemma DispatchBlock(layout: Layout, s: System)
    requires s.task.Counted?
    ensures var t := Dispatched(layout, s);
            && t.flash == s.flash && !t.task.BusyDone?
            && (t.dfu.blockNumber == s.dfu.blockNumber || t.dfu.blockNumber == 0)
  {
  }

  lemma AccountsStep(layout: Layout, s: System, a: Action)
    requires layout.WellFormed() && DfuHandover.Handover(s) && DfuSafety.RecordKept(s) && AccountsKept(layout, s)
    ensures AccountsKept(layout, Next(layout, s, a))
    ensures ConfinedChange(s.flash, Next(layout, s, a).flash)
    ensures a != FlashWork ==> Next(layout, s, a).flash == s.flash
  {
    if Enabled(s, a) {
      match a
      case FlashWork => FlashWorkStep(layout, s);
      case Dispatch => DispatchBlock(layout, s);
      case _ =>
    }
  }

  lemma {:induction false} AccountsRun(layout: Layout, s: System, actions: seq<Action>)
    requires layout.WellFormed() && DfuHandover.Handover(s) && DfuSafety.RecordKept(s) && AccountsKept(layout, s)
    ensures AccountsKept(layout, Run(layout, s, actions))
    ensures forall i :: 0 <= i < layout.upgradeAddr ==>
              Run(layout, s, actions).flash.contents[i] == s.flash.contents[i]
    decreases actions
  {
    if actions != [] {
      AccountsStep(layout, s, actions[0]);
      DfuSafety.RecordStep(layout, s, actions[0]);
      DfuHandover.HandoverStep(layout, s, actions[0]);
      AccountsRun(layout, Next(layout, s, actions[0]), actions[1..]);
    }
  }

  /** In every interleaving of every list of commands, nothing below the upgrade image changes:
      the factory image survives all downloads, aborts, errors, alternate changes, manifests and
      lost requests. While a partition is latched, the blocks of the current transfer fit what
      has been counted as written and that fits the partition. */
  lemma FactoryImageKept(layout: Layout, contents: seq<byte>, actions: seq<Action>)
    requires layout.WellFormed() && |contents| == layout.flashSize
    ensures var s := Run(layout, Start(contents), actions);
            && |s.flash.contents| == |contents|
            && s.flash.contents[..layout.upgradeAddr] == contents[..layout.upgradeAddr]
            && ReadAt(s.flash.contents, layout.factoryAddr, layout.factorySize)
               == ReadAt(contents, layout.factoryAddr, layout.factorySize)
            && (s.flash.dnBaseAddr == 0 ==> s.dfu.blockNumber == 0)
            && (s.flash.dnBaseAddr != 0 ==>
                  LatchedPartition(layout, s.flash) &&
                  SECTOR_SIZE * s.dfu.blockNumber <= s.flash.totalLen <= s.flash.bytesAvail)
  {
    AccountsRun(layout, Start(contents), actions);
  }

  /** The latch holds at the start and after every action. */
  ghost predicate LatchedThroughout(layout: Layout, s: System, actions: seq<Action>) {
    forall j :: 0 <= j <= |actions| ==> Run(layout, s, actions[..j]).flash.dnBaseAddr != 0
  }

  /** From a state with a latched partition, and for as long as no manifest clears the latch, the
      partition stays the one latched, through aborts, errors and alternate changes, and not one
      byte outside it changes. */
  lemma {:induction false} OnlyLatchedPartitionWritten(layout: Layout, s: System, actions: seq<Action>)
    requires layout.WellFormed() && DfuHandover.Handover(s) && DfuSafety.RecordKept(s) && AccountsKept(layout, s)
    requires LatchedThroughout(layout, s, actions)
    ensures var t := Run(layout, s, actions);
            && t.flash.dnBaseAddr == s.flash.dnBaseAddr
            && t.flash.bytesAvail == s.flash.bytesAvail
            && ConfinedChange(s.flash, t.flash)
    decreases actions
  {
    if actions != [] {
      var t, rest := Next(layout, s, actions[0]), actions[1..];
      AccountsStep(layout, s, actions[0]);
      DfuSafety.RecordStep(layout, s, actions[0]);
      DfuHandover.HandoverStep(layout, s, actions[0]);
      assert actions[..0] == [] && Run(layout, s, actions[..0]) == s;
      RunCons(layout, s, actions[0], []);
      assert actions[..1] == [actions[0]] + [];
      assert t.flash.dnBaseAddr != 0;
      if actions[0] == FlashWork && Enabled(s, FlashWork) {
        FlashWorkStep(layout, s);
      }
      forall j | 0 <= j <= |rest|
        ensures Run(layout, t, rest[..j]).flash.dnBaseAddr != 0
      {
        assert actions[..j + 1] == [actions[0]] + rest[..j];
        RunCons(layout, s, actions[0], rest[..j]);
      }
      OnlyLatchedPartitionWritten(layout, t, rest);
    }
  }

  /** Only the flash work of a manifest undoes the latch. */
  lemma LatchUndone(layout: Layout, s: System, a: Action)
    requires layout.WellFormed() && DfuHandover.Handover(s) && DfuSafety.RecordKept(s) && AccountsKept(layout, s)
    requires s.flash.dnBaseAddr != 0
    ensures Next(layout, s, a).flash.dnBaseAddr == 0 <==>
            a == FlashWork && Enabled(s, a) && s.dfu.state == Manifest
  {
    if a == FlashWork && Enabled(s, a) {
      FlashWorkStep(layout, s);
    }
  }
}
