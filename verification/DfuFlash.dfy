/** dfu_common.c: partition latching, space accounting, flash writes and reads. */
module DfuFlash {
  import opened Words
  import opened DfuTypes

  /** The first write after power-up or a manifest latches the partition to download into. */
  function Latch(layout: Layout, f: FlashData, alt: byte): FlashData
    requires alt == 1 || alt == 2
  {
    var upgrade :=
      if alt == 1 && f.dnBaseAddr == 0 then
        f.(totalLen := 0, dnBaseAddr := layout.upgradeAddr, bytesAvail := Wrap32(layout.dataAddr - layout.upgradeAddr))
      else
        f;
    if upgrade.dnBaseAddr == 0 then
      upgrade.(totalLen := 0, dnBaseAddr := layout.dataAddr, bytesAvail := Wrap32(layout.flashSize - layout.dataAddr))
    else
      upgrade
  }

  function WriteTo(layout: Layout, f: FlashData, alt: byte, block: u16, data: seq<byte>): (FlashData, DfuStatus)
    requires |data| < TWO16
  {
    if alt != 1 && alt != 2 then
      (f, ErrWrite)
    else
      var g := Latch(layout, f, alt);
      if |data| == 0 then
        (g, StatusOk)
      else if Wrap32(g.bytesAvail - g.totalLen) >= |data| then
        var addr := Wrap32(g.dnBaseAddr + block * |data|);
        (g.(contents := Patch(g.contents, addr, data), totalLen := Wrap32(g.totalLen + |data|)), StatusOk)
      else
        (g, ErrAddress)
  }

  /** The write gets as far as the flash: a partition to write to, something to write and room. */
  predicate Stores(layout: Layout, f: FlashData, alt: byte, length: nat) {
    (alt == 1 || alt == 2) && 0 < length <= Wrap32(Latch(layout, f, alt).bytesAvail - Latch(layout, f, alt).totalLen)
  }

  function ManifestOf(f: FlashData): FlashData {
    f.(dnBaseAddr := 0)
  }

  /** Start and end of the image an upload of `alt` reads; both 0 when there is none. */
  function ImageBounds(layout: Layout, alt: byte): (u32, u32) {
    if alt == 0 && layout.factorySize > 0 then
      (layout.factoryAddr, Wrap32(layout.factoryAddr + layout.factorySize))
    else if alt == 1 && layout.upgradeSize > 0 then
      (layout.upgradeAddr, Wrap32(layout.upgradeAddr + layout.upgradeSize))
    else if alt == 2 && Wrap32(layout.flashSize - layout.dataAddr) > 0 then
      (layout.dataAddr, layout.flashSize)
    else
      (0, 0)
  }

  /** What the driver hands back past the end of the flash is not modelled; 0xFF stands for it. */
  const ERASED: byte := 0xFF

  function ReadAt(contents: seq<byte>, addr: nat, length: nat): (r: seq<byte>)
    ensures |r| == length
    ensures forall i :: 0 <= i < length ==> r[i] == if addr + i < |contents| then contents[addr + i] else ERASED
  {
    seq(length, i requires 0 <= i < length => if addr + i < |contents| then contents[addr + i] else ERASED)
  }

  /** `length` bytes of the image at `offset`, or none once the image is behind us. */
  function ReadImage(layout: Layout, f: FlashData, alt: byte, offset: u32, length: u16): (r: seq<byte>)
    ensures |r| == 0 || |r| == length
  {
    var (start, end) := ImageBounds(layout, alt);
    var addr := Wrap32(offset + start);
    if addr < end then ReadAt(f.contents, addr, length) else []
  }

  function ReadFrom(layout: Layout, f: FlashData, alt: byte, block: u16, length: u16): (r: seq<byte>)
    ensures |r| == 0 || |r| == length
  {
    ReadImage(layout, f, alt, Wrap32(block * length), length)
  }

  /** The product of two 16-bit numbers never wraps a 32-bit word. */
  lemma BlockOffsetFits(block: u16, length: u16)
    ensures 0 <= block * length < TWO32
  {
    MulMono(block, length, 65535, 65535);
  }

  lemma ReadAtAppend(contents: seq<byte>, addr: nat, first: nat, second: nat)
    ensures ReadAt(contents, addr, first) + ReadAt(contents, addr + first, second)
         == ReadAt(contents, addr, first + second)
  {
  }

  /** The file's statics and the flash device, changed in place. */
  class FlashStore {
    const layout: Layout
    var bytesAvail: u32
    var dnBaseAddr: u32
    var totalLen: u32
    const contents: array<byte>

    constructor (layout: Layout, device: array<byte>)
      requires device.Length == layout.flashSize
      ensures this.layout == layout && contents == device
      ensures View() == FlashData(0, 0, 0, device[..])
    {
      this.layout := layout;
      bytesAvail, dnBaseAddr, totalLen := 0, 0, 0;
      contents := device;
    }

    ghost function View(): FlashData
      reads this, contents
    {
      FlashData(bytesAvail, dnBaseAddr, totalLen, contents[..])
    }

    /** Erases and rewrites one sector; what reaches past the device is dropped. */
    method EraseAndWrite(addr: u32, data: seq<byte>)
      modifies contents
      ensures contents[..] == Patch(old(contents[..]), addr, data)
    {
      forall i | addr <= i < addr + |data| && i < contents.Length {
        contents[i] := ERASED;
      }
      var i := 0;
      while i < |data| && addr + i < contents.Length
        invariant 0 <= i <= |data|
        invariant i == 0 || addr + i <= contents.Length
        invariant forall k :: 0 <= k < contents.Length && !(addr <= k < addr + |data|) ==>
                  contents[k] == old(contents[k])
        invariant forall k :: 0 <= k < i ==> contents[addr + k] == data[k]
      {
        contents[addr + i] := data[i];
        i := i + 1;
      }
    }

    /** A write of any length; the source asserts that what it stores is a whole sector. */
    method Write(alt: byte, block: u16, data: seq<byte>) returns (status: DfuStatus)
      requires |data| < TWO16
      requires Stores(layout, View(), alt, |data|) ==> |data| == SECTOR_SIZE
      modifies this, contents
      ensures (View(), status) == WriteTo(layout, old(View()), alt, block, data)
    {
      hide Wrap32;
      status := StatusOk;
      if alt != 1 && alt != 2 {
        return ErrWrite;
      }
      if alt == 1 && dnBaseAddr == 0 {
        totalLen := 0;
        dnBaseAddr := layout.upgradeAddr;
        bytesAvail := Wrap32(layout.dataAddr - dnBaseAddr);
      }
      if dnBaseAddr == 0 {
        totalLen := 0;
        dnBaseAddr := layout.dataAddr;
        bytesAvail := Wrap32(layout.flashSize - dnBaseAddr);
      }
      if |data| > 0 {
        var addr := Wrap32(dnBaseAddr + block * |data|);
        if Wrap32(bytesAvail - totalLen) >= |data| {
          assert |data| == SECTOR_SIZE;
          EraseAndWrite(addr, data);
          totalLen := Wrap32(totalLen + |data|);
        } else {
          status := ErrAddress;
        }
      }
    }

    method MakeManifest() returns (status: DfuStatus)
      modifies this`dnBaseAddr
      ensures View() == ManifestOf(old(View())) && status == StatusOk
    {
      dnBaseAddr := 0;
      status := StatusOk;
    }

    method Read(alt: byte, block: u16, length: u16) returns (data: seq<byte>)
      ensures data == ReadFrom(layout, View(), alt, block, length)
    {
      hide Wrap32, ReadAt;
      var addr := Wrap32(block * length);
      var end: u32 := 0;
      if alt == 0 {
        if layout.factorySize > 0 {
          addr := Wrap32(addr + layout.factoryAddr);
          end := Wrap32(layout.factoryAddr + layout.factorySize);
        }
      } else if alt == 1 {
        if layout.upgradeSize > 0 {
          addr := Wrap32(addr + layout.upgradeAddr);
          end := Wrap32(layout.upgradeAddr + layout.upgradeSize);
        }
      } else if alt == 2 {
        if Wrap32(layout.flashSize - layout.dataAddr) > 0 {
          addr := Wrap32(addr + layout.dataAddr);
          end := layout.flashSize;
        }
      }
      data := [];
      if addr < end {
        data := ReadAt(contents[..], addr, length);
      }
    }
  }
}
