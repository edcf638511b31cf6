/** The data of the I2C DFU engine: states and statuses of USB DFU 1.1, the shared
    `dfu_data` record and the layout of the boot flash. */
module DfuTypes {
  import opened Words

  const XFER_SIZE: int := 128
  const SECTOR_SIZE: int := 4096
  const NUM_FRAGMENTS: int := 32

  const TIMEOUT_ERASE_MS: u32 := 10
  const TIMEOUT_WRITE_MS: u32 := 3
  const TIMEOUT_BUFFER_MS: u32 := 1
  const TICKS_PER_MS: int := 100_000

  /** The states of Appendix A of USB DFU 1.1, in the order of their values. */
  datatype DfuState =
    | AppIdle | AppDetach | DfuIdle | DnloadSync | DnBusy | DnloadIdle
    | ManifestSync | Manifest | ManifestWaitReset | UploadIdle | DfuError

  /** The statuses of section 6.1.2 of USB DFU 1.1, in the order of their values. */
  datatype DfuStatus =
    | StatusOk | ErrTarget | ErrFile | ErrWrite | ErrErase | ErrCheckErased | ErrProg | ErrVerify
    | ErrAddress | ErrNotDone | ErrFirmware | ErrVendor | ErrUsbr | ErrPor | ErrUnknown | ErrStalledPkt

  datatype DfuData = DfuData(
    altSetting: byte,
    state: DfuState,
    status: DfuStatus,
    inProgress: bool,
    moveToError: bool,
    moveToErrorStatus: DfuStatus,
    transferBlock: u16,
    xferLength: u16,
    blockNumber: u16,
    fragNumber: byte,
    buffer: seq<byte>,
    previousTimeoutMs: u32,
    timeoutStart: u32)

  datatype StatusPacket = StatusPacket(nextState: DfuState, currentStatus: DfuStatus, timeoutMs: u32)

  /** What the image driver reports about the flash. */
  datatype Layout = Layout(
    factoryAddr: u32, factorySize: u32,
    upgradeAddr: u32, upgradeSize: u32,
    dataAddr: u32, flashSize: u32)
  {
    /** Factory image, then upgrade image, then data partition. */
    predicate WellFormed() {
      && factoryAddr + factorySize <= upgradeAddr
      && 0 < upgradeAddr <= dataAddr <= flashSize
      && upgradeAddr + upgradeSize <= dataAddr
    }

    /** Room for every 16-bit upload block number below the top of the 32-bit address space. */
    predicate UploadRoom() {
      flashSize + 0x1_0000 * XFER_SIZE <= TWO32
    }
  }

  /** The statics of dfu_common.c and the flash behind them. */
  datatype FlashData = FlashData(bytesAvail: u32, dnBaseAddr: u32, totalLen: u32, contents: seq<byte>)

  /** Requests carried by the notification bits; DETACH and GETSTATE never reach the task. */
  datatype Request = ReqDnload | ReqUpload | ReqGetStatus | ReqClrStatus | ReqAbort | ReqSetAlternate
}
