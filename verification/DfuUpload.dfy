/** A whole upload: the fragments the host receives against the image in the flash. */
module DfuUpload {
  import opened Words
  import opened DfuTypes
  import opened DfuFlash
  import opened DfuMachine
  import opened DfuProtocol
  import DfuHandover
  import DfuSafety
  import opened DfuHost
  import opened DfuReplies
  import DfuSchedule
  import DfuPartitions
  import opened DfuDownload

  function ImageStart(layout: Layout, alt: byte): u32 {
    ImageBounds(layout, alt).0
  }

  function ImageSize(layout: Layout, alt: byte): int {
    ImageBounds(layout, alt).1 - ImageBounds(layout, alt).0
  }

  /** Fragments it takes to cover the image. */
  function ImageBlocks(layout: Layout, alt: byte): int {
    (ImageSize(layout, alt) + XFER_SIZE - 1) / XFER_SIZE
  }

  /** Where the image of an alternate lies: the factory image, the upgrade image, the whole data
      partition, and nothing for any other alternate. */
  predicate ImageLies(layout: Layout, alt: byte, start: nat, size: nat) {
    match alt
    case 0 => start == layout.factoryAddr && size == layout.factorySize
    case 1 => start == layout.upgradeAddr && size == layout.upgradeSize
    case 2 => start == layout.dataAddr && size == layout.flashSize - layout.dataAddr
    case _ => start == 0 && size == 0
  }

  lemma ImageIs(layout: Layout, alt: byte, start: nat, size: nat)
    requires layout.WellFormed() && ImageLies(layout, alt, start, size)
    ensures ImageSize(layout, alt) == size && (size > 0 ==> ImageStart(layout, alt) == start)
    ensures start + size <= layout.flashSize
    ensures ImageBlocks(layout, alt) == (size + XFER_SIZE - 1) / XFER_SIZE
  {
  }

  lemma ImageInFlash(layout: Layout, alt: byte)
    requires layout.WellFormed()
    ensures 0 <= ImageSize(layout, alt) && ImageStart(layout, alt) + ImageSize(layout, alt) <= layout.flashSize
    ensures 0 <= ImageBlocks(layout, alt)
    ensures ImageSize(layout, alt) <= XFER_SIZE * ImageBlocks(layout, alt)
  {
  }

  /** The image an upload of `alt` is meant to deliver. */
  function ImageOf(layout: Layout, f: FlashData, alt: byte): seq<byte>
    requires layout.WellFormed() && |f.contents| == layout.flashSize
  {
    ImageInFlash(layout, alt);
    f.contents[ImageStart(layout, alt)..ImageStart(layout, alt) + ImageSize(layout, alt)]
  }

  lemma BlockAddress(layout: Layout, alt: byte, block: u16, length: u16)
    requires layout.WellFormed() && layout.UploadRoom() && length == XFER_SIZE
    ensures Wrap32(Wrap32(block * length) + ImageStart(layout, alt)) == XFER_SIZE * block + ImageStart(layout, alt)
  {
    hide Wrap32, ImageBounds;
    BlockOffsetFits(block, length);
    assert block * length == XFER_SIZE * block;
    KeptWord32(block * length);
    ImageInFlash(layout, alt);
    KeptWord32(XFER_SIZE * block + ImageStart(layout, alt));
  }

  /** What an UPLOAD at the block number of `d` is to leave in `e`. */
  predicate Uploaded(layout: Layout, d: DfuData, f: FlashData, e: DfuData)
    requires |e.buffer| == SECTOR_SIZE && 0 <= ImageBlocks(layout, d.altSetting)
  {
    && e.altSetting == d.altSetting
    && (if d.transferBlock < ImageBlocks(layout, d.altSetting) then
          && e.xferLength == XFER_SIZE && e.state == UploadIdle
          && e.transferBlock == Wrap16(d.transferBlock + 1)
          && e.buffer[..XFER_SIZE] ==
             ReadAt(f.contents, ImageStart(layout, d.altSetting) + XFER_SIZE * d.transferBlock, XFER_SIZE)
        else
          e.xferLength == 0 && e.state == DfuIdle && e.transferBlock == 0)
  }

  /** One UPLOAD from dfuIDLE or dfuUPLOAD-IDLE: a full fragment as long as the block number is
      inside the image, and otherwise an empty reply that starts the numbering over. */
  lemma UploadBlock(layout: Layout, d: DfuData, f: FlashData)
    requires layout.WellFormed() && layout.UploadRoom() && |d.buffer| == SECTOR_SIZE && d.fragNumber < NUM_FRAGMENTS
    requires d.state == DfuIdle || d.state == UploadIdle
    ensures 0 <= ImageBlocks(layout, d.altSetting)
    ensures Transact(layout, d, f, CmdUpload).1 == f
    ensures Uploaded(layout, d, f, Transact(layout, d, f, CmdUpload).0)
  {
    UploadFallThrough(layout, d, f);
    BlockAddress(layout, d.altSetting, d.transferBlock, XFER_SIZE);
    ImageInFlash(layout, d.altSetting);
  }

  /** The record after `n` uploads. */
  function After(layout: Layout, d: DfuData, f: FlashData, n: nat): (r: DfuData)
    requires |d.buffer| == SECTOR_SIZE && d.fragNumber < NUM_FRAGMENTS
    ensures |r.buffer| == SECTOR_SIZE && r.fragNumber < NUM_FRAGMENTS
  {
    if n == 0 then d else Transact(layout, After(layout, d, f, n - 1), f, CmdUpload).0
  }

  /** Everything the host has received in `n` uploads. */
  function Received(layout: Layout, d: DfuData, f: FlashData, n: nat): seq<byte>
    requires |d.buffer| == SECTOR_SIZE && d.fragNumber < NUM_FRAGMENTS
  {
    if n == 0 then [] else
      Received(layout, d, f, n - 1) + Reply(After(layout, d, f, n))
  }

  lemma AfterNone(layout: Layout, d: DfuData, f: FlashData)
    requires |d.buffer| == SECTOR_SIZE && d.fragNumber < NUM_FRAGMENTS
    ensures After(layout, d, f, 0) == d
  {
  }

  lemma AfterStep(layout: Layout, d: DfuData, f: FlashData, n: nat)
    requires layout.WellFormed() && layout.UploadRoom() && |d.buffer| == SECTOR_SIZE && d.fragNumber < NUM_FRAGMENTS
    requires var e := After(layout, d, f, n); e.state == DfuIdle || e.state == UploadIdle
    ensures 0 <= ImageBlocks(layout, After(layout, d, f, n).altSetting)
    ensures Uploaded(layout, After(layout, d, f, n), f, After(layout, d, f, n + 1))
  {
    hide Transact, Uploaded, ImageBlocks;
    UploadBlock(layout, After(layout, d, f, n), f);
  }

  lemma AfterInside(layout: Layout, d: DfuData, f: FlashData, n: nat)
    requires layout.WellFormed() && layout.UploadRoom() && |d.buffer| == SECTOR_SIZE && d.fragNumber < NUM_FRAGMENTS
    requires var e := After(layout, d, f, n);
             (e.state == DfuIdle || e.state == UploadIdle) && e.transferBlock < ImageBlocks(layout, e.altSetting)
    ensures var e, e' := After(layout, d, f, n), After(layout, d, f, n + 1);
            && e'.altSetting == e.altSetting && e'.state == UploadIdle
            && e'.xferLength == XFER_SIZE && e'.transferBlock == Wrap16(e.transferBlock + 1)
  {
    hide After, ImageBlocks;
    AfterStep(layout, d, f, n);
  }

  /** `n` uploads inside the image count the block number up. */
  lemma {:induction false} UploadsInside(layout: Layout, d: DfuData, f: FlashData, n: nat)
    requires layout.WellFormed() && layout.UploadRoom() && |d.buffer| == SECTOR_SIZE && d.fragNumber < NUM_FRAGMENTS
    requires d.state == DfuIdle && d.transferBlock == 0
    requires n <= ImageBlocks(layout, d.altSetting) && n < TWO16
    ensures var e := After(layout, d, f, n);
            && e.altSetting == d.altSetting && e.transferBlock == n
            && e.state == (if n == 0 then DfuIdle else UploadIdle)
            && (n > 0 ==> e.xferLength == XFER_SIZE)
    decreases n
  {
    hide After, ImageBlocks, Uploaded;
    AfterNone(layout, d, f);
    if n > 0 {
      UploadsInside(layout, d, f, n - 1);
      AfterInside(layout, d, f, n - 1);
    }
  }

  /** What they deliver are the consecutive fragments of the image, starting with the first. */
  lemma {:induction false} UploadsDeliver(layout: Layout, d: DfuData, f: FlashData, n: nat)
    requires layout.WellFormed() && layout.UploadRoom() && |d.buffer| == SECTOR_SIZE && d.fragNumber < NUM_FRAGMENTS
    requires d.state == DfuIdle && d.transferBlock == 0
    requires n <= ImageBlocks(layout, d.altSetting) && n < TWO16
    ensures Received(layout, d, f, n) == ReadAt(f.contents, ImageStart(layout, d.altSetting), XFER_SIZE * n)
  {
    hide After, ImageBlocks, ImageStart;
    if n > 0 {
      UploadsDeliver(layout, d, f, n - 1);
      UploadsInside(layout, d, f, n - 1);
      UploadsInside(layout, d, f, n);
      AfterStep(layout, d, f, n - 1);
      ReadAtAppend(f.contents, ImageStart(layout, d.altSetting), XFER_SIZE * (n - 1), XFER_SIZE);
    }
  }

  /** The uploads of a whole image, one by one. */
  lemma UploadsCover(layout: Layout, d: DfuData, f: FlashData)
    requires layout.WellFormed() && layout.UploadRoom() && |d.buffer| == SECTOR_SIZE && d.fragNumber < NUM_FRAGMENTS
    requires |f.contents| == layout.flashSize
    requires d.state == DfuIdle && d.transferBlock == 0 && ImageBlocks(layout, d.altSetting) < TWO16
    ensures var blocks := ImageBlocks(layout, d.altSetting);
            && 0 <= blocks
            && ImageOf(layout, f, d.altSetting) <= Received(layout, d, f, blocks)
            && Received(layout, d, f, blocks + 1) == Received(layout, d, f, blocks)
            && (forall k :: 1 <= k <= blocks ==> After(layout, d, f, k).xferLength == XFER_SIZE)
            && var last := After(layout, d, f, blocks + 1);
               last.xferLength == 0 && last.state == DfuIdle && last.transferBlock == 0
  {
    hide After, ImageBounds;
    var blocks := ImageBlocks(layout, d.altSetting);
    ImageInFlash(layout, d.altSetting);
    forall k | 1 <= k <= blocks
      ensures After(layout, d, f, k).xferLength == XFER_SIZE
    {
      UploadsInside(layout, d, f, k);
    }
    UploadsInside(layout, d, f, blocks);
    UploadsDeliver(layout, d, f, blocks);
    AfterStep(layout, d, f, blocks);
    var start, size := ImageStart(layout, d.altSetting), ImageSize(layout, d.altSetting);
    assert ReadAt(f.contents, start, XFER_SIZE * blocks)[..size] == f.contents[start..start + size];
  }

  /** An image with more fragments than block numbers never comes to its end. */
  lemma {:induction false} UploadGoesOn(layout: Layout, d: DfuData, f: FlashData, n: nat)
    requires layout.WellFormed() && layout.UploadRoom() && |d.buffer| == SECTOR_SIZE && d.fragNumber < NUM_FRAGMENTS
    requires d.state == DfuIdle && ImageBlocks(layout, d.altSetting) >= TWO16
    ensures var e := After(layout, d, f, n);
            && e.altSetting == d.altSetting
            && (e.state == DfuIdle || e.state == UploadIdle)
            && (n > 0 ==> e.xferLength == XFER_SIZE)
  {
    hide After, ImageBlocks;
    AfterNone(layout, d, f);
    if n > 0 {
      UploadGoesOn(layout, d, f, n - 1);
      AfterStep(layout, d, f, n - 1);
    }
  }

  lemma UploadsEnd(layout: Layout, d: DfuData, f: FlashData)
    requires layout.WellFormed() && layout.UploadRoom() && |d.buffer| == SECTOR_SIZE && d.fragNumber < NUM_FRAGMENTS
    requires d.state == DfuIdle && d.transferBlock == 0
    ensures (exists n: nat :: n > 0 && After(layout, d, f, n).xferLength < XFER_SIZE)
            <==> ImageBlocks(layout, d.altSetting) < TWO16
  {
    hide After, ImageBlocks;
    var blocks := ImageBlocks(layout, d.altSetting);
    ImageInFlash(layout, d.altSetting);
    if blocks < TWO16 {
      UploadsInside(layout, d, f, blocks);
      AfterStep(layout, d, f, blocks);
      assert After(layout, d, f, blocks + 1).xferLength < XFER_SIZE;
    } else {
      forall n: nat | n > 0
        ensures After(layout, d, f, n).xferLength == XFER_SIZE
      {
        UploadGoesOn(layout, d, f, n);
      }
    }
  }

  // ---------------------------------------------------------------- uploads by the two tasks

  function Uploads(n: nat): (cs: seq<Command>)
    ensures |cs| == n && forall i :: 0 <= i < n ==> cs[i] == CmdUpload
  {
    seq(n, _ => CmdUpload)
  }

  lemma UploadKeepsFlash(layout: Layout, d: DfuData, f: FlashData)
    requires |d.buffer| == SECTOR_SIZE && d.fragNumber < NUM_FRAGMENTS
    ensures Transact(layout, d, f, CmdUpload).1 == f
  {
    hide Handle;
    HandleInBounds(layout, d, f, ReqUpload);
  }

  lemma {:induction false} UploadsTransact(layout: Layout, d: DfuData, f: FlashData, n: nat)
    requires |d.buffer| == SECTOR_SIZE && d.fragNumber < NUM_FRAGMENTS
    ensures Served(Uploads(n))
    ensures TransactAll(layout, d, f, Uploads(n)) == (After(layout, d, f, n), f)
  {
    hide Transact;
    if n > 0 {
      UploadsTransact(layout, d, f, n - 1);
      var e := After(layout, d, f, n - 1);
      UploadKeepsFlash(layout, e, f);
      assert Uploads(n) == Uploads(n - 1) + [CmdUpload];
      TransactAppend(layout, d, f, Uploads(n - 1), [CmdUpload]);
      OneTransacts(layout, e, f, CmdUpload);
    }
  }

  lemma OneTransacts(layout: Layout, d: DfuData, f: FlashData, c: Command)
    requires Served([c]) && |d.buffer| == SECTOR_SIZE && d.fragNumber < NUM_FRAGMENTS
    ensures TransactAll(layout, d, f, [c]) == Transact(layout, d, f, c)
  {
    hide Transact;
    assert [c][1..] == [];
  }

  lemma {:induction false} UploadsReply(layout: Layout, d: DfuData, f: FlashData, n: nat)
    requires |d.buffer| == SECTOR_SIZE && d.fragNumber < NUM_FRAGMENTS
    ensures Served(Uploads(n)) && DfuSchedule.AllLegal(Uploads(n))
    ensures var replies := PerformReplies(layout, d, f, Uploads(n));
      && |replies| == n && Concat(replies) == Received(layout, d, f, n)
      && forall k :: 0 <= k < n ==> replies[k] == Reply(After(layout, d, f, k + 1))
  {
    hide Transact, Reply;
    if n > 0 {
      UploadsReply(layout, d, f, n - 1);
      UploadsTransact(layout, d, f, n - 1);
      DfuSchedule.ServedPerforms(layout, d, f, Uploads(n - 1));
      assert Uploads(n) == Uploads(n - 1) + [CmdUpload];
      RepliesToLast(layout, d, f, Uploads(n - 1), CmdUpload);
      var front, last := PerformReplies(layout, d, f, Uploads(n - 1)), Reply(After(layout, d, f, n));
      assert PerformReplies(layout, d, f, Uploads(n)) == front + [last];
      assert (front + [last])[..n - 1] == front;
    }
  }

  /** A schedule that gives nothing but UPLOADs, each to a system at rest, and lets it rest again. */
  ghost predicate OnlyUploads(layout: Layout, s: System, actions: seq<Action>, n: nat) {
    && DfuSchedule.Polite(layout, s, actions) && DfuSchedule.Commands(layout, s, actions) == Uploads(n)
    && DfuSafety.Quiescent(Run(layout, s, actions))
  }

  /** There is one: one transaction after the other. */
  lemma UploadsInTurn(layout: Layout, s: System, n: nat)
    requires Rested(s)
    ensures OnlyUploads(layout, s, Transactions(Uploads(n)), n)
  {
    hide Transact, Transactions, TransactAll, DfuHandover.Handover, DfuSafety.RecordKept, DfuSchedule.Polite;
    hide DfuSchedule.Commands;
    DfuSchedule.TransactionsPolite(layout, s, Uploads(n));
    TransactionsRun(layout, s, Uploads(n));
  }

  /** Every such schedule gives the replies of the uploads one by one. */
  lemma UploadRun(layout: Layout, s: System, actions: seq<Action>, n: nat)
    requires Rested(s) && OnlyUploads(layout, s, actions, n)
    ensures |s.dfu.buffer| == SECTOR_SIZE && s.dfu.fragNumber < NUM_FRAGMENTS
    ensures var replies := Replied(layout, s, actions);
      && |replies| == n && Concat(replies) == Received(layout, s.dfu, s.flash, n)
      && forall k :: 0 <= k < n ==> replies[k] == Reply(After(layout, s.dfu, s.flash, k + 1))
    ensures var t := Run(layout, s, actions);
      Rested(t) && DfuSchedule.Alike((t.dfu, t.flash), (After(layout, s.dfu, s.flash, n), s.flash))
  {
    hide Transact, DfuHandover.Handover, DfuSafety.RecordKept, DfuSchedule.Polite, DfuSchedule.Commands, After;
    hide DfuSchedule.Alike, Reply, Received, Replied, TransactAll, DfuSchedule.PerformAll, PerformReplies, Concat;
    RestedBounded(s);
    UploadsReply(layout, s.dfu, s.flash, n);
    RepliesOneByOne(layout, s, actions);
    UploadsTransact(layout, s.dfu, s.flash, n);
    DfuSchedule.ServedPerforms(layout, s.dfu, s.flash, Uploads(n));
    DfuSchedule.CommandsOneByOne(layout, s, actions);
  }

  lemma ReplyLength(d: DfuData)
    requires |d.buffer| == SECTOR_SIZE
    ensures d.xferLength <= SECTOR_SIZE ==> |Reply(d)| == d.xferLength
  {
  }

  lemma AlikeEnd(d: DfuData, e: DfuData)
    requires Untimed(d) == Untimed(e)
    ensures d.xferLength == e.xferLength && d.state == e.state && d.transferBlock == e.transferBlock
  {
  }

  lemma UploadBounds(layout: Layout, s: System, actions: seq<Action>)
    requires layout.WellFormed() && layout.UploadRoom() && Rested(s) && |s.flash.contents| == layout.flashSize
    requires s.dfu.state == DfuIdle && s.dfu.transferBlock == 0
    requires 0 <= ImageBlocks(layout, s.dfu.altSetting) < TWO16
    requires OnlyUploads(layout, s, actions, ImageBlocks(layout, s.dfu.altSetting) + 1)
    ensures var blocks, replies := ImageBlocks(layout, s.dfu.altSetting), Replied(layout, s, actions);
      && |replies| == blocks + 1 && (forall k :: 0 <= k < blocks ==> |replies[k]| == XFER_SIZE) && replies[blocks] == []
      && ImageOf(layout, s.flash, s.dfu.altSetting) <= Concat(replies)
      && Concat(replies) == ReadAt(s.flash.contents, ImageStart(layout, s.dfu.altSetting), XFER_SIZE * blocks)
    ensures var t := Run(layout, s, actions);
      Rested(t) && t.dfu.xferLength == 0 && t.dfu.state == DfuIdle && t.dfu.transferBlock == 0 && t.flash == s.flash
  {
    hide OnlyUploads, After, Received, Replied, ImageBlocks, ImageOf, DfuHandover.Handover, DfuSafety.RecordKept;
    hide Concat, Reply, Untimed;
    var blocks := ImageBlocks(layout, s.dfu.altSetting);
    UploadRun(layout, s, actions, blocks + 1);
    UploadsCover(layout, s.dfu, s.flash);
    UploadsDeliver(layout, s.dfu, s.flash, blocks);
    forall k | 0 <= k < blocks
      ensures |Replied(layout, s, actions)[k]| == XFER_SIZE
    {
      ReplyLength(After(layout, s.dfu, s.flash, k + 1));
    }
    ReplyLength(After(layout, s.dfu, s.flash, blocks + 1));
    AlikeEnd(Run(layout, s, actions).dfu, After(layout, s.dfu, s.flash, blocks + 1));
  }

  /** Uploading the whole image of an alternate from a system at rest in dfuIDLE with the block
      number at 0, by any such schedule, when its fragments can be numbered in 16 bits: every
      fragment comes full, the replies start with the image and run on at consecutive addresses,
      and one more UPLOAD ends it with an empty reply that leaves dfuIDLE and block number 0 behind
      and the flash untouched. */
  lemma UploadImage(layout: Layout, s: System, start: nat, size: nat, actions: seq<Action>)
    requires layout.WellFormed() && layout.UploadRoom() && Rested(s) && |s.flash.contents| == layout.flashSize
    requires s.dfu.state == DfuIdle && s.dfu.transferBlock == 0
    requires ImageLies(layout, s.dfu.altSetting, start, size) && size <= 128 * 65535
    requires OnlyUploads(layout, s, actions, (size + 127) / 128 + 1)
    ensures start + size <= |s.flash.contents|
    ensures var n, replies := (size + 127) / 128, Replied(layout, s, actions);
      && |replies| == n + 1 && (forall k :: 0 <= k < n ==> |replies[k]| == 128) && replies[n] == []
      && s.flash.contents[start..start + size] <= Concat(replies)
      && Concat(replies) == ReadAt(s.flash.contents, start, 128 * n)
    ensures var t := Run(layout, s, actions);
      Rested(t) && t.dfu.xferLength == 0 && t.dfu.state == DfuIdle && t.dfu.transferBlock == 0 && t.flash == s.flash
  {
    hide OnlyUploads, Replied, ImageBlocks, ImageStart, ImageSize, Rested, Concat, ImageLies;
    ImageIs(layout, s.dfu.altSetting, start, size);
    UploadBounds(layout, s, actions);
  }

  /** The last reply is short: the end of an upload as the host sees it. */
  predicate ShortReply(replies: seq<seq<byte>>) {
    replies != [] && |replies[|replies| - 1]| < XFER_SIZE
  }

  ghost predicate CanEnd(layout: Layout, s: System) {
    exists actions, n: nat :: OnlyUploads(layout, s, actions, n) && ShortReply(Replied(layout, s, actions))
  }

  /** An upload from the start can come to an end, by whatever schedule, if and only if the
      fragments fit 16-bit block numbers. */
  lemma UploadTerminates(layout: Layout, s: System, start: nat, size: nat)
    requires layout.WellFormed() && layout.UploadRoom() && Rested(s)
    requires s.dfu.state == DfuIdle && s.dfu.transferBlock == 0
    requires ImageLies(layout, s.dfu.altSetting, start, size)
    ensures CanEnd(layout, s) <==> size <= 128 * 65535
  {
    ImageIs(layout, s.dfu.altSetting, start, size);
    UploadEnds(layout, s);
  }

  lemma UploadEnds(layout: Layout, s: System)
    requires layout.WellFormed() && layout.UploadRoom() && Rested(s)
    requires s.dfu.state == DfuIdle && s.dfu.transferBlock == 0
    ensures CanEnd(layout, s) <==> ImageBlocks(layout, s.dfu.altSetting) < TWO16
  {
    hide OnlyUploads, After, Replied, ImageBlocks, DfuHandover.Handover, DfuSafety.RecordKept, Reply, Concat;
    RestedBounded(s);
    UploadsEnd(layout, s.dfu, s.flash);
    if ImageBlocks(layout, s.dfu.altSetting) < TWO16 {
      var n: nat :| n > 0 && After(layout, s.dfu, s.flash, n).xferLength < XFER_SIZE;
      var actions := Transactions(Uploads(n));
      UploadsInTurn(layout, s, n);
      UploadRun(layout, s, actions, n);
      ReplyLength(After(layout, s.dfu, s.flash, n));
      assert OnlyUploads(layout, s, actions, n) && ShortReply(Replied(layout, s, actions));
    } else {
      forall actions, n: nat | OnlyUploads(layout, s, actions, n)
        ensures !ShortReply(Replied(layout, s, actions))
      {
        NeverShort(layout, s, actions, n);
      }
    }
  }

  lemma NeverShort(layout: Layout, s: System, actions: seq<Action>, n: nat)
    requires layout.WellFormed() && layout.UploadRoom() && Rested(s) && s.dfu.state == DfuIdle
    requires ImageBlocks(layout, s.dfu.altSetting) >= TWO16 && OnlyUploads(layout, s, actions, n)
    ensures !ShortReply(Replied(layout, s, actions))
  {
    hide OnlyUploads, After, Replied, ImageBlocks, DfuHandover.Handover, DfuSafety.RecordKept, Reply, Concat;
    RestedBounded(s);
    UploadRun(layout, s, actions, n);
    UploadGoesOn(layout, s.dfu, s.flash, n);
    ReplyLength(After(layout, s.dfu, s.flash, n));
  }

  // ---------------------------------------------------------------- download, then upload

  lemma SendingCommands(cs: seq<Command>, frags: seq<seq<byte>>, close: seq<Command>)
    requires Fragments(frags) && Sending(cs, frags) && FragmentCommands(close, [])
    ensures DownloadOnly(cs + close) && Served(cs + close)
  {
    hide Sending;
    SendingOnly(cs, frags);
    CloseServed(close);
  }

  /** Uploading from a flash in which `written` lies at the start of the image. */
  lemma UploadWritten(layout: Layout, s: System, before: seq<byte>, written: seq<byte>, start: nat, size: nat,
                      actions: seq<Action>)
    requires layout.WellFormed() && layout.UploadRoom() && |before| == layout.flashSize && Rested(s)
    requires s.flash.contents == Patch(before, start, written)
    requires s.dfu.state == DfuIdle && s.dfu.transferBlock == 0
    requires ImageLies(layout, s.dfu.altSetting, start, size) && size <= 128 * 65535
    requires OnlyUploads(layout, s, actions, (size + 127) / 128 + 1)
    ensures written[..Min(size, |written|)] <= Concat(Replied(layout, s, actions))
  {
    hide Replied, Concat, OnlyUploads, Rested, ImageLies;
    UploadImage(layout, s, start, size, actions);
    var n := Min(size, |written|);
    assert s.flash.contents[start..start + size][..n] == written[..n];
    assert s.flash.contents[start..start + size][..n] == Concat(Replied(layout, s, actions))[..n];
  }

  /** A download by any schedule as in `DownloadImage`, into its own partition, seen from an upload
      of the same alternate afterwards, by any schedule too: as far as the image the driver then
      reports reaches, the host gets back the fragments it has sent. */
  lemma DownloadThenUpload(layout: Layout, s: System, alt: byte, frags: seq<seq<byte>>, cs: seq<Command>,
                           close: seq<Command>, actions: seq<Action>, uploads: seq<Action>, size: nat)
    requires layout.WellFormed() && layout.UploadRoom() && (alt == 1 || alt == 2)
    requires DfuPartitions.Accounted(layout, s.flash, 0)
    requires s.flash.dnBaseAddr == 0 || s.flash.dnBaseAddr == DfuPartitions.OwnBase(layout, alt)
    requires Rested(s) && |s.flash.contents| == layout.flashSize
    requires s.dfu.state == DfuIdle && !s.dfu.moveToError && s.dfu.transferBlock == 0 && s.dfu.altSetting == alt
    requires frags != [] && Fragments(frags) && Sending(cs, frags) && FragmentCommands(close, [])
    requires Fits(layout, s.flash, alt, |frags|) && WholePart(|frags|) <= NUM_FRAGMENTS * TWO16
    requires DfuSchedule.Polite(layout, s, actions) && DfuSchedule.Commands(layout, s, actions) == cs + close
    requires DfuSafety.Quiescent(Run(layout, s, actions))
    requires ImageLies(layout, alt, DfuPartitions.OwnBase(layout, alt), size) && size <= 128 * 65535
    requires OnlyUploads(layout, Run(layout, s, actions), uploads, (size + 127) / 128 + 1)
    ensures Assemble(frags[..WholePart(|frags|)])[..Min(size, 128 * WholePart(|frags|))]
            <= Concat(Replied(layout, Run(layout, s, actions), uploads))
  {
    hide Transact, Replied, Concat, Base, Sending, DownloadOnly, Served, Rested, Fits, ImageLies, DfuPartitions.OwnBase,
         OnlyUploads, DfuSchedule.Polite, DfuSchedule.Commands, DfuSchedule.PerformAll, TransactAll, Room, Laid, Patch,
         DfuPartitions.Accounted;
    var t := Run(layout, s, actions);
    SendingCommands(cs, frags, close);
    DownloadImage(layout, s, alt, frags, cs, close, actions);
    OwnPartition(layout, s.flash, alt);
    ImageInOnePiece(layout, s.flash, alt, frags, t.dfu, t.flash);
    RestedBounded(s);
    SettingsKeptByAll(layout, s.dfu, s.flash, cs + close);
    DfuSchedule.CommandsOneByOne(layout, s, actions);
    DfuSchedule.ServedPerforms(layout, s.dfu, s.flash, cs + close);
    var own := DfuPartitions.OwnBase(layout, alt);
    UploadWritten(layout, t, s.flash.contents, Assemble(frags[..WholePart(|frags|)]), own, size, uploads);
  }

  /** The sizes the last theorem speaks of. */
  lemma OwnImageLies(layout: Layout, alt: byte)
    requires layout.WellFormed() && (alt == 1 || alt == 2)
    ensures ImageLies(layout, alt, DfuPartitions.OwnBase(layout, alt),
                      if alt == 1 then layout.upgradeSize else layout.flashSize - layout.dataAddr)
  {
  }
}
