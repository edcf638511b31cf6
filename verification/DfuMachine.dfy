/** dfu_state_machine.c: what each request does to `dfu_data`, on the servicer's side and on
    the state-machine task's side. */
module DfuMachine {
  import opened Words
  import opened DfuTypes
  import opened DfuFlash

  // ---------------------------------------------------------------- resets

  function ResetDownloadBuffer(d: DfuData): DfuData {
    d.(xferLength := 0, fragNumber := 0, blockNumber := 0, buffer := Zeros(SECTOR_SIZE))
  }

  function ResetState(d: DfuData): DfuData {
    ResetDownloadBuffer(d.(state := DfuIdle, status := StatusOk, inProgress := false,
                           moveToError := false, moveToErrorStatus := StatusOk))
  }

  function ToError(d: DfuData, status: DfuStatus): DfuData {
    ResetState(d).(state := DfuError, status := status)
  }

  // ---------------------------------------------------------------- servicer side

  function FillDnload(d: DfuData, data: seq<byte>): DfuData
    requires |data| <= XFER_SIZE
  {
    d.(xferLength := |data|, buffer := Patch(d.buffer, d.fragNumber * XFER_SIZE, data))
  }

  /** The host polled before the time-out it was last given had run out. */
  predicate PolledEarly(d: DfuData, now: u32) {
    var ticks := Wrap32(TICKS_PER_MS * d.previousTimeoutMs);
    var end := Wrap32(d.timeoutStart + ticks);
    Wrap32(end - now) < ticks
  }

  predicate Busy(state: DfuState) {
    state == DnBusy || state == Manifest
  }

  /** The time-out announced with a move to dfuDNBUSY. */
  function DownloadTimeout(d: DfuData): u32 {
    if d.fragNumber == NUM_FRAGMENTS - 1 then
      if d.blockNumber % 16 == 0 then TIMEOUT_ERASE_MS else TIMEOUT_WRITE_MS
    else
      TIMEOUT_BUFFER_MS
  }

  /** The servicer's forecast of where GETSTATUS takes the task. It branches on the state it
      has `seen`, and reads the record again for what it reports. */
  function Forecast(seen: DfuState, d: DfuData, now: u32): StatusPacket {
    match seen
    case DfuIdle => StatusPacket(d.state, d.status, 0)
    case UploadIdle => StatusPacket(d.state, d.status, 0)
    case DfuError => StatusPacket(d.state, d.status, 0)
    case DnloadIdle => StatusPacket(d.state, d.status, 0)
    case DnBusy =>
      if PolledEarly(d, now) then StatusPacket(DfuError, d.status, 0)
      else StatusPacket(d.state, d.status, d.previousTimeoutMs)
    case Manifest =>
      if PolledEarly(d, now) then StatusPacket(DfuError, d.status, 0)
      else StatusPacket(d.state, d.status, d.previousTimeoutMs)
    case DnloadSync =>
      if d.inProgress then StatusPacket(DnBusy, d.status, DownloadTimeout(d))
      else StatusPacket(DnloadIdle, d.status, 0)
    case ManifestSync =>
      StatusPacket(if d.inProgress then Manifest else DfuIdle, d.status, 0)
    case _ => StatusPacket(DfuError, d.status, 0)
  }

  /** What answering GETSTATUS leaves in the record; `later` is the second clock reading. */
  function FillGetStatus(seen: DfuState, d: DfuData, now: u32, later: u32): DfuData {
    var flagged :=
      if Busy(seen) && PolledEarly(d, now) then d.(moveToError := true, moveToErrorStatus := ErrStalledPkt)
      else d;
    flagged.(previousTimeoutMs := Forecast(seen, d, now).timeoutMs, timeoutStart := later)
  }

  // ---------------------------------------------------------------- task side

  function HandleDnload(d: DfuData): DfuData {
    if d.state == DfuIdle && d.xferLength != 0 then
      d.(inProgress := true, state := DnloadSync)
    else if d.state == DnloadIdle then
      if d.xferLength != 0 then
        d.(inProgress := true, state := DnloadSync)
      else
        ResetDownloadBuffer(d.(inProgress := true)).(state := ManifestSync)
    else
      ToError(d, ErrStalledPkt)
  }

  /** The body of the UPLOAD case, up to the point where it falls into GETSTATUS. */
  function HandleUpload(layout: Layout, d: DfuData, f: FlashData): DfuData {
    var cleared := d.(buffer := Zeros(SECTOR_SIZE), xferLength := 0);
    if d.state == DfuIdle || d.state == UploadIdle then
      var data := ReadFrom(layout, f, d.altSetting, d.transferBlock, XFER_SIZE);
      var filled := cleared.(xferLength := |data|, buffer := Patch(cleared.buffer, 0, data));
      if |data| < XFER_SIZE then
        filled.(transferBlock := 0, state := DfuIdle)
      else
        filled.(transferBlock := Wrap16(d.transferBlock + 1), state := UploadIdle)
    else
      ToError(cleared, ErrStalledPkt)
  }

  /** GETSTATUS up to the point where a busy state has been entered, if one is. */
  function HandleGetStatus(d: DfuData): DfuData {
    match d.state
    case DfuIdle => d
    case UploadIdle => d
    case DfuError => d
    case DnloadIdle => d
    case DnloadSync => d.(state := if d.inProgress then DnBusy else DnloadIdle)
    case ManifestSync => d.(state := if d.inProgress then Manifest else DfuIdle)
    case _ => ToError(d, ErrStalledPkt)
  }

  function HandleClrStatus(d: DfuData): DfuData {
    if d.state == DfuError then ResetState(d) else ToError(d, ErrStalledPkt)
  }

  function HandleAbort(d: DfuData): DfuData {
    if d.state == UploadIdle || d.state == DnloadIdle then ResetState(d) else ToError(d, ErrStalledPkt)
  }

  /** One pass through the switch; UPLOAD has no break and runs on into GETSTATUS. */
  function Handle(layout: Layout, d: DfuData, f: FlashData, r: Request): DfuData {
    match r
    case ReqDnload => HandleDnload(d)
    case ReqUpload => HandleGetStatus(HandleUpload(layout, d, f))
    case ReqGetStatus => HandleGetStatus(d)
    case ReqClrStatus => HandleClrStatus(d)
    case ReqAbort => HandleAbort(d)
    case ReqSetAlternate => ResetState(d)
  }

  /** What a busy state does to the flash. */
  function BusyFlash(layout: Layout, d: DfuData, f: FlashData): (FlashData, DfuStatus)
    requires |d.buffer| == SECTOR_SIZE
  {
    if d.state == Manifest then
      (ManifestOf(f), StatusOk)
    else if d.fragNumber == NUM_FRAGMENTS - 1 then
      WriteTo(layout, f, d.altSetting, d.blockNumber, d.buffer)
    else
      (f, StatusOk)
  }

  /** Leaving a busy state with the outcome of its flash work. */
  function BusyEnd(d: DfuData, outcome: DfuStatus): DfuData
    requires d.fragNumber < NUM_FRAGMENTS
  {
    var settled :=
      if d.state == Manifest then
        d
      else if d.fragNumber == NUM_FRAGMENTS - 1 then
        d.(buffer := Zeros(SECTOR_SIZE), fragNumber := 0, blockNumber := Wrap16(d.blockNumber + 1))
      else
        d.(fragNumber := d.fragNumber + 1);
    var done := settled.(inProgress := false);
    if done.moveToError then
      ToError(done, done.moveToErrorStatus)
    else if outcome != StatusOk then
      ToError(done, outcome)
    else
      done.(state := if d.state == Manifest then ManifestSync else DnloadSync)
  }

  /** Everything one accepted request makes the task do, busy phase included. */
  function Process(layout: Layout, d: DfuData, f: FlashData, r: Request): (DfuData, FlashData)
    requires |d.buffer| == SECTOR_SIZE && d.fragNumber < NUM_FRAGMENTS
    ensures Process(layout, d, f, r).0.fragNumber < NUM_FRAGMENTS
    ensures |Process(layout, d, f, r).0.buffer| == SECTOR_SIZE
  {
    var begun := Handle(layout, d, f, r);
    HandleInBounds(layout, d, f, r);
    if Busy(begun.state) then
      var (g, outcome) := BusyFlash(layout, begun, f);
      (BusyEnd(begun, outcome), g)
    else
      (begun, f)
  }

  // ---------------------------------------------------------------- lemmas

  lemma HandleInBounds(layout: Layout, d: DfuData, f: FlashData, r: Request)
    requires |d.buffer| == SECTOR_SIZE && d.fragNumber < NUM_FRAGMENTS
    ensures |Handle(layout, d, f, r).buffer| == SECTOR_SIZE && Handle(layout, d, f, r).fragNumber < NUM_FRAGMENTS
    ensures r == ReqUpload ==> !Busy(Handle(layout, d, f, r).state)
  {
    if r == ReqUpload {
      UploadFallThrough(layout, d, f);
    }
  }

  /** The missing break is harmless: after UPLOAD there is nothing for GETSTATUS to do. */
  lemma UploadFallThrough(layout: Layout, d: DfuData, f: FlashData)
    ensures HandleGetStatus(HandleUpload(layout, d, f)) == HandleUpload(layout, d, f)
  {
  }

  /** The unsigned wrap-around comparison is the early-poll test it is meant to be: a poll is
      early exactly when it comes 1 to `timeout` ticks after the last one, modulo 2^32. The
      tick of the last answer itself does not count as early. */
  lemma EarlyPollWindow(d: DfuData, now: u32)
    requires TICKS_PER_MS * d.previousTimeoutMs < TWO32
    ensures PolledEarly(d, now) <==>
            1 <= Wrap32(now - d.timeoutStart) <= TICKS_PER_MS * d.previousTimeoutMs
  {
  }

  // ---------------------------------------------------------------- the record in memory

  /** `dfu_data` with the flash behind it, updated in place. */
  class DfuEngine {
    var altSetting: byte
    var state: DfuState
    var status: DfuStatus
    var inProgress: bool
    var moveToError: bool
    var moveToErrorStatus: DfuStatus
    var transferBlock: u16
    var xferLength: u16
    var blockNumber: u16
    var fragNumber: byte
    const buffer: array<byte>
    var previousTimeoutMs: u32
    var timeoutStart: u32
    const flash: FlashStore

    ghost predicate Valid()
      reads this
    {
      && buffer.Length == SECTOR_SIZE
      && fragNumber < NUM_FRAGMENTS
      && buffer != flash.contents
    }

    ghost function View(): DfuData
      reads this, buffer
    {
      DfuData(altSetting, state, status, inProgress, moveToError, moveToErrorStatus, transferBlock, xferLength,
              blockNumber, fragNumber, buffer[..], previousTimeoutMs, timeoutStart)
    }

    constructor (flash: FlashStore, buffer: array<byte>)
      requires buffer.Length == SECTOR_SIZE && buffer != flash.contents
      requires forall i :: 0 <= i < buffer.Length ==> buffer[i] == 0
      ensures Valid() && this.flash == flash && this.buffer == buffer
      ensures View() == DfuData(0, DfuIdle, StatusOk, false, false, StatusOk, 0, 0, 0, 0, Zeros(SECTOR_SIZE), 0, 0)
    {
      this.flash, this.buffer := flash, buffer;
      altSetting, transferBlock, previousTimeoutMs, timeoutStart := 0, 0, 0, 0;
      state, status, inProgress := DfuIdle, StatusOk, false;
      moveToError, moveToErrorStatus := false, StatusOk;
      xferLength, blockNumber, fragNumber := 0, 0, 0;
    }

    method ClearBuffer()
      requires buffer.Length == SECTOR_SIZE
      modifies buffer
      ensures buffer[..] == Zeros(SECTOR_SIZE)
    {
      forall i | 0 <= i < buffer.Length {
        buffer[i] := 0;
      }
    }

    method CopyIntoBuffer(at: nat, data: seq<byte>)
      requires at + |data| <= buffer.Length
      modifies buffer
      ensures buffer[..] == Patch(old(buffer[..]), at, data)
    {
      forall i | at <= i < at + |data| {
        buffer[i] := data[i - at];
      }
    }

    method ResetBuffer()
      requires Valid()
      modifies this, buffer
      ensures Valid() && View() == ResetDownloadBuffer(old(View()))
    {
      xferLength := 0;
      fragNumber := 0;
      blockNumber := 0;
      ClearBuffer();
    }

    method Reset()
      requires Valid()
      modifies this, buffer
      ensures Valid() && View() == ResetState(old(View()))
    {
      state := DfuIdle;
      status := StatusOk;
      inProgress := false;
      moveToError := false;
      moveToErrorStatus := StatusOk;
      ResetBuffer();
    }

    method Fail(reason: DfuStatus)
      requires Valid()
      modifies this, buffer
      ensures Valid() && View() == ToError(old(View()), reason)
    {
      Reset();
      state := DfuError;
      status := reason;
    }

    method Download(data: seq<byte>)
      requires Valid() && |data| <= XFER_SIZE
      modifies this, buffer
      ensures Valid() && View() == FillDnload(old(View()), data)
    {
      var fragAddr := fragNumber * XFER_SIZE;
      xferLength := |data|;
      if |data| > 0 {
        CopyIntoBuffer(fragAddr, data);
      }
    }

    /** Answers the host; `notify` says whether the task is told about the request. */
    method GetStatus(now: u32, later: u32) returns (packet: StatusPacket, notify: bool)
      requires Valid()
      modifies this
      ensures Valid() && View() == FillGetStatus(old(state), old(View()), now, later)
      ensures packet == Forecast(old(state), old(View()), now)
      ensures notify <==> !Busy(old(state))
    {
      notify := true;
      match state {
        case UploadIdle => packet := StatusPacket(state, status, 0);
        case DfuIdle => packet := StatusPacket(state, status, 0);
        case DfuError => packet := StatusPacket(state, status, 0);
        case DnloadIdle => packet := StatusPacket(state, status, 0);
        case DnBusy => packet := AnswerWhileBusy(now); notify := false;
        case Manifest => packet := AnswerWhileBusy(now); notify := false;
        case DnloadSync =>
          if inProgress {
            packet := StatusPacket(DnBusy, status, TIMEOUT_BUFFER_MS);
            if fragNumber == NUM_FRAGMENTS - 1 {
              packet := packet.(timeoutMs := if blockNumber % 16 == 0 then TIMEOUT_ERASE_MS else TIMEOUT_WRITE_MS);
            }
          } else {
            packet := StatusPacket(DnloadIdle, status, 0);
          }
        case ManifestSync =>
          if inProgress {
            packet := StatusPacket(Manifest, status, 0);
          } else {
            packet := StatusPacket(DfuIdle, status, 0);
          }
        case _ => packet := StatusPacket(DfuError, status, 0);
      }
      previousTimeoutMs := packet.timeoutMs;
      timeoutStart := later;
    }

    method AnswerWhileBusy(now: u32) returns (packet: StatusPacket)
      requires Busy(state)
      modifies this`moveToError, this`moveToErrorStatus
      ensures packet == Forecast(old(state), old(View()), now)
      ensures moveToError == (old(moveToError) || PolledEarly(old(View()), now))
      ensures moveToErrorStatus == if PolledEarly(old(View()), now) then ErrStalledPkt else old(moveToErrorStatus)
    {
      var ticks := Wrap32(TICKS_PER_MS * previousTimeoutMs);
      var end := Wrap32(timeoutStart + ticks);
      if Wrap32(end - now) < ticks {
        packet := StatusPacket(DfuError, status, 0);
        moveToError := true;
        moveToErrorStatus := ErrStalledPkt;
      } else {
        packet := StatusPacket(state, status, previousTimeoutMs);
      }
    }

    method TaskDnload()
      requires Valid()
      modifies this, buffer
      ensures Valid() && View() == HandleDnload(old(View()))
    {
      if state == DfuIdle && xferLength != 0 {
        inProgress := true;
        state := DnloadSync;
      } else if state == DnloadIdle {
        if xferLength != 0 {
          inProgress := true;
          state := DnloadSync;
        } else {
          inProgress := true;
          ResetBuffer();
          state := ManifestSync;
        }
      } else {
        Fail(ErrStalledPkt);
      }
    }

    method TaskUpload()
      requires Valid()
      modifies this, buffer
      ensures Valid() && View() == HandleUpload(flash.layout, old(View()), old(flash.View()))
      ensures flash.View() == old(flash.View())
    {
      hide ReadFrom, ToError, Wrap16;
      ClearBuffer();
      xferLength := 0;
      if state == DfuIdle || state == UploadIdle {
        var data := flash.Read(altSetting, transferBlock, XFER_SIZE);
        CopyIntoBuffer(0, data);
        xferLength := |data|;
        if xferLength < XFER_SIZE {
          transferBlock := 0;
          state := DfuIdle;
        } else {
          transferBlock := Wrap16(transferBlock + 1);
          state := UploadIdle;
        }
      } else {
        Fail(ErrStalledPkt);
      }
    }

    method TaskGetStatus()
      requires Valid()
      modifies this, buffer, flash, flash.contents
      ensures Valid()
      ensures var begun := HandleGetStatus(old(View()));
              if Busy(begun.state) then
                var (g, outcome) := BusyFlash(flash.layout, begun, old(flash.View()));
                View() == BusyEnd(begun, outcome) && flash.View() == g
              else
                View() == begun && flash.View() == old(flash.View())
    {
      match state {
        case UploadIdle =>
        case DfuIdle =>
        case DfuError =>
        case DnloadIdle =>
        case DnloadSync =>
          if inProgress {
            state := DnBusy;
            DownloadBusy();
          } else {
            state := DnloadIdle;
          }
        case ManifestSync =>
          if inProgress {
            state := Manifest;
            ManifestBusy();
          } else {
            state := DfuIdle;
          }
        case _ => Fail(ErrStalledPkt);
      }
    }

    method DownloadBusy()
      requires Valid() && state == DnBusy
      modifies this, buffer, flash, flash.contents
      ensures Valid()
      ensures var (g, outcome) := BusyFlash(flash.layout, old(View()), old(flash.View()));
              View() == BusyEnd(old(View()), outcome) && flash.View() == g
    {
      hide WriteTo, Latch, Stores, Wrap16, Zeros;
      var outcome := StatusOk;
      if fragNumber == NUM_FRAGMENTS - 1 {
        outcome := flash.Write(altSetting, blockNumber, buffer[..]);
        ClearBuffer();
        fragNumber := 0;
        blockNumber := Wrap16(blockNumber + 1);
      } else {
        fragNumber := fragNumber + 1;
      }
      inProgress := false;
      if moveToError {
        Fail(moveToErrorStatus);
      } else if outcome != StatusOk {
        Fail(outcome);
      } else {
        state := DnloadSync;
      }
    }

    method ManifestBusy()
      requires Valid() && state == Manifest
      modifies this, buffer, flash`dnBaseAddr
      ensures Valid()
      ensures View() == BusyEnd(old(View()), StatusOk) && flash.View() == ManifestOf(old(flash.View()))
    {
      var outcome := flash.MakeManifest();
      inProgress := false;
      if moveToError {
        Fail(moveToErrorStatus);
      } else if outcome != StatusOk {
        assert false; // make-manifest has no failing path
      } else {
        state := ManifestSync;
      }
    }

    /** The body of the task's loop for one wake-up that read `count` on the request counter. */
    method Serve(r: Request, count: nat)
      requires Valid()
      modifies this, buffer, flash, flash.contents
      ensures Valid()
      ensures count != 1 ==> View() == ToError(old(View()), ErrStalledPkt) && flash.View() == old(flash.View())
      ensures count == 1 ==> (View(), flash.View()) == Process(flash.layout, old(View()), old(flash.View()), r)
    {
      if count != 1 {
        Fail(ErrStalledPkt);
        return;
      }
      match r {
        case ReqDnload => TaskDnload();
        case ReqUpload => TaskUpload(); TaskGetStatus();
        case ReqGetStatus => TaskGetStatus();
        case ReqClrStatus =>
          if state == DfuError {
            Reset();
          } else {
            Fail(ErrStalledPkt);
          }
        case ReqAbort =>
          if state == UploadIdle || state == DnloadIdle {
            Reset();
          } else {
            Fail(ErrStalledPkt);
          }
        case ReqSetAlternate => Reset();
      }
    }
  }
}
