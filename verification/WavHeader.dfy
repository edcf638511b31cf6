/** wav_utils.c: reading and writing the header of a WAV file. The header struct is modelled as the
    44 bytes it occupies, since the source reads the file straight into it. */
module WavHeader {
  import opened Words

  const HEADER_BYTES: nat := 44

  const RIFF: seq<byte> := [0x52, 0x49, 0x46, 0x46]
  const WAVE: seq<byte> := [0x57, 0x41, 0x56, 0x45]
  const FMT: seq<byte> := [0x66, 0x6d, 0x74, 0x20]
  const FACT: seq<byte> := [0x66, 0x61, 0x63, 0x74]
  const DATA: seq<byte> := [0x64, 0x61, 0x74, 0x61]

  // ---------------------------------------------------------------- little-endian words

  function Le16(x: u16): (b: seq<byte>)
    ensures |b| == 2
  {
    [x % 256, x / 256]
  }

  function Le32(x: u32): (b: seq<byte>)
    ensures |b| == 4
  {
    [x % 256, x / 256 % 256, x / 0x1_0000 % 256, x / 0x100_0000]
  }

  function W16(b: seq<byte>, at: nat): u16
    requires at + 2 <= |b|
  {
    b[at] as int + 256 * (b[at + 1] as int)
  }

  function W32(b: seq<byte>, at: nat): u32
    requires at + 4 <= |b|
  {
    b[at] as int + 256 * (b[at + 1] as int) + 0x1_0000 * (b[at + 2] as int) + 0x100_0000 * (b[at + 3] as int)
  }

  lemma Digits(x: u32)
    ensures x % 256 + 256 * (x / 256 % 256) + 0x1_0000 * (x / 0x1_0000 % 256) + 0x100_0000 * (x / 0x100_0000) == x
  {
    assert x / 256 / 256 == x / 0x1_0000;
    assert x / 0x1_0000 / 256 == x / 0x100_0000;
  }

  lemma WordRoundTrip(b: seq<byte>, at: nat, x: u32)
    requires at + 4 <= |b| && b[at..at + 4] == Le32(x)
    ensures W32(b, at) == x
  {
    var s := b[at..at + 4];
    assert b[at] == s[0] && b[at + 1] == s[1] && b[at + 2] == s[2] && b[at + 3] == s[3];
    Digits(x);
  }

  lemma HalfRoundTrip(b: seq<byte>, at: nat, x: u16)
    requires at + 2 <= |b| && b[at..at + 2] == Le16(x)
    ensures W16(b, at) == x
  {
    var s := b[at..at + 2];
    assert b[at] == s[0] && b[at + 1] == s[1];
  }

  lemma SameWord(a: seq<byte>, i: nat, b: seq<byte>, j: nat)
    requires i + 4 <= |a| && j + 4 <= |b|
    requires a[i] == b[j] && a[i + 1] == b[j + 1] && a[i + 2] == b[j + 2] && a[i + 3] == b[j + 3]
    ensures W32(a, i) == W32(b, j) && W16(a, i) == W16(b, j) && (Tagged(a, i, FACT) <==> Tagged(b, j, FACT))
    ensures Tagged(a, i, DATA) <==> Tagged(b, j, DATA)
  {
  }

  lemma SameHalf(a: seq<byte>, i: nat, b: seq<byte>, j: nat)
    requires i + 2 <= |a| && j + 2 <= |b| && a[i] == b[j] && a[i + 1] == b[j + 1]
    ensures W16(a, i) == W16(b, j)
  {
  }

  predicate Tagged(b: seq<byte>, at: nat, tag: seq<byte>)
    requires |tag| == 4
  {
    at + 4 <= |b| && b[at] == tag[0] && b[at + 1] == tag[1] && b[at + 2] == tag[2] && b[at + 3] == tag[3]
  }

  // ---------------------------------------------------------------- file access

  /** A position in the file and what has been read into a buffer so far. */
  datatype Reader = Reader(pos: nat, raw: seq<byte>)

  /** A read copies what the file still holds, and leaves the rest of the buffer as it was. */
  function FRead(file: seq<byte>, r: Reader, at: nat, n: nat): (next: Reader)
    ensures |next.raw| == |r.raw|
    ensures r.pos + n <= |file| ==> next.pos == r.pos + n
    ensures r.pos + n <= |file| ==>
      forall i :: 0 <= i < |r.raw| ==> next.raw[i] == if at <= i < at + n then file[r.pos + (i - at)] else r.raw[i]
  {
    var end := Max(r.pos, Min(r.pos + n, |file|));
    var data := if end <= |file| then file[r.pos..end] else [];
    Reader(end, Patch(r.raw, at, data))
  }

  /** A seek from the current position by a C int; one before the start does nothing. */
  function FSeek(r: Reader, offset: int): Reader {
    if r.pos + ToInt32(offset) < 0 then r else r.(pos := r.pos + ToInt32(offset))
  }

  class WavFile {
    const bytes: seq<byte>
    var pos: nat

    constructor (bytes: seq<byte>)
      ensures this.bytes == bytes && pos == 0
    {
      this.bytes, pos := bytes, 0;
    }

    method Rewind()
      modifies this
      ensures pos == 0
    {
      pos := 0;
    }

    method Read(buffer: array<byte>, at: nat, n: nat)
      requires at + n <= buffer.Length
      modifies this, buffer
      ensures Reader(pos, buffer[..]) == FRead(bytes, old(Reader(pos, buffer[..])), at, n)
    {
      var end := Max(pos, Min(pos + n, |bytes|));
      var start, i := pos, 0;
      while start + i < end
        invariant pos == start && start <= start + i <= Max(start, end)
        invariant forall k :: 0 <= k < buffer.Length ==>
          buffer[k] == if at <= k < at + i then bytes[start + (k - at)] else old(buffer[k])
      {
        buffer[at + i] := bytes[start + i];
        i := i + 1;
      }
      pos := end;
    }

    method Seek(offset: int)
      modifies this
      ensures forall raw :: Reader(pos, raw) == FSeek(Reader(old(pos), raw), offset)
    {
      if pos + ToInt32(offset) >= 0 {
        pos := pos + ToInt32(offset);
      }
    }
  }

  // ---------------------------------------------------------------- the parser

  datatype Parsed = Parsed(raw: seq<byte>, size: Option<u32>)

  /** Past the format chunk, with the sub-format of an extended one put in its place. */
  function SkipFormat(file: seq<byte>, r: Reader): (next: Reader)
    requires |r.raw| == HEADER_BYTES
    ensures |next.raw| == HEADER_BYTES
  {
    var remaining := W32(r.raw, 16) - 16;
    if W16(r.raw, 20) == 0xfffe then FSeek(FRead(file, FSeek(r, remaining - 16), 20, 2), 14)
    else FSeek(r, remaining)
  }

  /** The next chunk's name, and the one after it when that was a fact chunk. `slot` is what the
      local variable for its size held before. */
  function FindData(file: seq<byte>, r: Reader, slot: seq<byte>): (next: Reader)
    requires |r.raw| == HEADER_BYTES && |slot| == 4
    ensures |next.raw| == HEADER_BYTES
  {
    var a := FRead(file, r, 36, 4);
    if !Tagged(a.raw, 36, FACT) then a else
      var size := FRead(file, Reader(a.pos, slot), 0, 4);
      FRead(file, FSeek(Reader(size.pos, a.raw), W32(size.raw, 0)), 36, 4)
  }

  /** `get_wav_header_details`. */
  function Parse(file: seq<byte>, raw: seq<byte>, slot: seq<byte>): (p: Parsed)
    requires |raw| == HEADER_BYTES && |slot| == 4
    ensures |p.raw| == HEADER_BYTES
  {
    var a := FRead(file, Reader(0, raw), 0, 12);
    if !Tagged(a.raw, 0, RIFF) || !Tagged(a.raw, 8, WAVE) then Parsed(a.raw, None) else
      var b := FRead(file, a, 12, 24);
      if !Tagged(b.raw, 12, FMT) then Parsed(b.raw, None) else
        var c := SkipFormat(file, b);
        if W16(c.raw, 20) != 1 then Parsed(c.raw, None) else
          var d := FindData(file, c, slot);
          if !Tagged(d.raw, 36, DATA) then Parsed(d.raw, None) else
            var e := FRead(file, d, 40, 4);
            Parsed(e.raw, Some(Wrap32(e.pos)))
  }

  // ---------------------------------------------------------------- which files it accepts

  function FormatEnd(file: seq<byte>): nat
    requires |file| >= 36
  {
    20 + W32(file, 16)
  }

  /** Where the data chunk starts, past an optional fact chunk. */
  function DataChunk(file: seq<byte>): nat
    requires |file| >= 36 && FormatEnd(file) + 8 <= |file|
  {
    var end := FormatEnd(file);
    if Tagged(file, end, FACT) then end + 8 + W32(file, end + 4) else end
  }

  /** Chunk sizes that C's int can hold, a format chunk of at least 16 bytes, and no header cut
      short. */
  predicate Legible(file: seq<byte>) {
    && |file| >= 36
    && 16 <= W32(file, 16) < 0x8000_0000
    && FormatEnd(file) + 8 <= |file|
    && (Tagged(file, FormatEnd(file), FACT) ==> W32(file, FormatEnd(file) + 4) < 0x8000_0000)
    && DataChunk(file) + 8 <= |file|
  }

  /** Plain PCM, or an extended format whose last sixteen bytes begin with the code of PCM. */
  predicate IsPcm(file: seq<byte>)
    requires Legible(file)
  {
    W16(file, 20) == 1 || (W16(file, 20) == 0xfffe && W16(file, FormatEnd(file) - 16) == 1)
  }

  predicate IsWav(file: seq<byte>)
    requires Legible(file)
  {
    && Tagged(file, 0, RIFF) && Tagged(file, 8, WAVE) && Tagged(file, 12, FMT)
    && IsPcm(file) && Tagged(file, DataChunk(file), DATA)
  }

  /** The fields as the file has them, except that the format reads as plain PCM. */
  function Fields(file: seq<byte>): (raw: seq<byte>)
    requires Legible(file)
    ensures |raw| == HEADER_BYTES
  {
    seq(HEADER_BYTES, i requires 0 <= i < HEADER_BYTES =>
      if i == 20 then 1 else if i == 21 then 0 else if i < 36 then file[i] else file[DataChunk(file) + i - 36])
  }

  /** The bytes of `word` in ASCII. */
  predicate Spells(b: seq<byte>, at: nat, word: string) {
    at + |word| <= |b| && forall i :: 0 <= i < |word| ==> b[at + i] as int == word[i] as int
  }

  lemma TagSpells(b: seq<byte>, at: nat, tag: seq<byte>, word: string)
    requires |tag| == 4 == |word| && forall i :: 0 <= i < 4 ==> tag[i] as int == word[i] as int
    ensures Tagged(b, at, tag) <==> Spells(b, at, word)
  {
    if Tagged(b, at, tag) {
      forall i | 0 <= i < |word|
        ensures b[at + i] as int == word[i] as int
      {
        assert tag[i] as int == word[i] as int;
      }
    }
  }

  /** What a PCM file is, by the names of its chunks. */
  lemma NamesSpelled(file: seq<byte>)
    requires Legible(file)
    ensures IsWav(file) <==>
      && Spells(file, 0, "RIFF") && Spells(file, 8, "WAVE") && Spells(file, 12, "fmt ")
      && IsPcm(file) && Spells(file, DataChunk(file), "data")
    ensures var end := 20 + W32(file, 16);
      DataChunk(file) == if Spells(file, end, "fact") then end + 8 + W32(file, end + 4) else end
  {
    hide Spells, Tagged, IsPcm;
    TagSpells(file, 0, RIFF, "RIFF");
    TagSpells(file, 8, WAVE, "WAVE");
    TagSpells(file, 12, FMT, "fmt ");
    TagSpells(file, FormatEnd(file), FACT, "fact");
    TagSpells(file, DataChunk(file), DATA, "data");
  }

  lemma SeekForward(r: Reader, offset: int)
    requires FitsInt32(offset) && r.pos + offset >= 0
    ensures FSeek(r, offset) == r.(pos := r.pos + offset)
  {
  }

  /** The parser after the fixed part of the header. */
  lemma FormatSkipped(file: seq<byte>, b: Reader)
    requires Legible(file) && |b.raw| == HEADER_BYTES && b.pos == 36
    requires forall i :: 0 <= i < 36 ==> b.raw[i] == file[i]
    ensures var c := SkipFormat(file, b);
      && c.pos == FormatEnd(file)
      && (W16(c.raw, 20) == 1 <==> IsPcm(file))
      && forall i :: 0 <= i < 36 && i != 20 && i != 21 ==> c.raw[i] == file[i]
  {
    hide FRead, FSeek, W32, W16, Tagged, DataChunk, Patch;
    SameWord(b.raw, 16, file, 16);
    SameHalf(b.raw, 20, file, 20);
    var remaining := W32(file, 16) - 16;
    if W16(file, 20) == 0xfffe {
      SubFormatRead(file, b, remaining);
    } else {
      SeekForward(b, remaining);
    }
  }

  /** The first half-word of the sixteen bytes that end an extended format chunk. */
  lemma SubFormatRead(file: seq<byte>, b: Reader, remaining: int)
    requires |b.raw| == HEADER_BYTES && b.pos == 36 && 0 <= remaining < 0x7fff_ffff && 36 + remaining + 8 <= |file|
    ensures var c := FSeek(FRead(file, FSeek(b, remaining - 16), 20, 2), 14);
      && |c.raw| == HEADER_BYTES && c.pos == 36 + remaining
      && W16(c.raw, 20) == W16(file, 20 + remaining)
      && forall i :: 0 <= i < 36 && i != 20 && i != 21 ==> c.raw[i] == b.raw[i]
  {
    hide FRead, FSeek, W16, Patch;
    SeekForward(b, remaining - 16);
    var read := FRead(file, FSeek(b, remaining - 16), 20, 2);
    SameHalf(read.raw, 20, file, 20 + remaining);
    SeekForward(read, 14);
  }

  lemma DataFound(file: seq<byte>, c: Reader, slot: seq<byte>)
    requires Legible(file) && |c.raw| == HEADER_BYTES && |slot| == 4 && c.pos == FormatEnd(file)
    ensures var d := FindData(file, c, slot);
      && d.pos == DataChunk(file) + 4
      && (forall i :: 36 <= i < 40 ==> d.raw[i] == file[DataChunk(file) + (i - 36)])
      && forall i :: 0 <= i < 36 ==> d.raw[i] == c.raw[i]
  {
    hide FRead, FSeek, W32, W16, Tagged, Patch;
    var a := FRead(file, c, 36, 4);
    SameWord(a.raw, 36, file, FormatEnd(file));
    if Tagged(a.raw, 36, FACT) {
      var size := FRead(file, Reader(a.pos, slot), 0, 4);
      SameWord(size.raw, 0, file, FormatEnd(file) + 4);
      SeekForward(Reader(size.pos, a.raw), W32(size.raw, 0));
    }
  }

  lemma ReadFixed(file: seq<byte>, raw: seq<byte>)
    requires |file| >= 36 && |raw| == HEADER_BYTES
    ensures var a := FRead(file, Reader(0, raw), 0, 12);
      var b := FRead(file, a, 12, 24);
      && a.pos == 12 && b.pos == 36 && (forall i :: 0 <= i < 36 ==> b.raw[i] == file[i])
      && (Tagged(a.raw, 0, RIFF) <==> Tagged(file, 0, RIFF)) && (Tagged(a.raw, 8, WAVE) <==> Tagged(file, 8, WAVE))
      && (Tagged(b.raw, 12, FMT) <==> Tagged(file, 12, FMT))
  {
    hide FRead, Patch;
  }

  lemma ReadSize(file: seq<byte>, d: Reader)
    requires Legible(file) && |d.raw| == HEADER_BYTES && d.pos == DataChunk(file) + 4
    requires forall i :: 36 <= i < 40 ==> d.raw[i] == file[DataChunk(file) + (i - 36)]
    requires forall i :: 0 <= i < 36 && i != 20 && i != 21 ==> d.raw[i] == file[i]
    requires W16(d.raw, 20) == 1
    ensures FRead(file, d, 40, 4) == Reader(DataChunk(file) + 8, Fields(file))
  {
    hide FRead, DataChunk, W32, Patch, Tagged;
    assert FRead(file, d, 40, 4).raw == Fields(file);
  }

  /** Whatever was in the header struct and on the stack before, the parser accepts a legible file
      exactly when it is a PCM WAV file, and then returns every field and the offset of the first
      data byte. */
  lemma ParseExact(file: seq<byte>, raw: seq<byte>, slot: seq<byte>)
    requires Legible(file) && |raw| == HEADER_BYTES && |slot| == 4
    ensures Parse(file, raw, slot).size.Some? <==> IsWav(file)
    ensures IsWav(file) ==> Parse(file, raw, slot) == Parsed(Fields(file), Some(Wrap32(DataChunk(file) + 8)))
  {
    hide FRead, SkipFormat, FindData, IsPcm, DataChunk, W32, W16, Tagged, Fields;
    ReadFixed(file, raw);
    var b := FRead(file, FRead(file, Reader(0, raw), 0, 12), 12, 24);
    FormatSkipped(file, b);
    var c := SkipFormat(file, b);
    DataFound(file, c, slot);
    var d := FindData(file, c, slot);
    SameWord(d.raw, 36, file, DataChunk(file));
    if W16(c.raw, 20) == 1 {
      SameHalf(d.raw, 20, c.raw, 20);
      ReadSize(file, d);
    }
  }

  method GetHeaderDetails(file: WavFile, header: array<byte>, slot: array<byte>) returns (size: Option<u32>)
    requires header.Length == HEADER_BYTES && slot.Length == 4 && header != slot
    modifies file, header, slot
    ensures Parsed(header[..], size) == Parse(file.bytes, old(header[..]), old(slot[..]))
  {
    hide FRead, FSeek, W32, W16, Tagged;
    file.Rewind();
    file.Read(header, 0, 12);
    if !Tagged(header[..], 0, RIFF) {
      return None;
    }
    if !Tagged(header[..], 8, WAVE) {
      return None;
    }
    file.Read(header, 12, 24);
    if !Tagged(header[..], 12, FMT) {
      return None;
    }
    var remaining := W32(header[..], 16) - 16;
    if W16(header[..], 20) == 0xfffe {
      file.Seek(remaining - 16);
      file.Read(header, 20, 2);
      file.Seek(14);
    } else {
      file.Seek(remaining);
    }
    if W16(header[..], 20) != 1 {
      return None;
    }
    file.Read(header, 36, 4);
    if Tagged(header[..], 36, FACT) {
      file.Read(slot, 0, 4);
      file.Seek(W32(slot[..], 0));
      file.Read(header, 36, 4);
    }
    if !Tagged(header[..], 36, DATA) {
      return None;
    }
    file.Read(header, 40, 4);
    return Some(Wrap32(file.pos));
  }

  // ---------------------------------------------------------------- well-formed files

  /** A header in the order a writer lays it down: `body` is the format chunk. */
  datatype Layout = Layout(riffSize: u32, body: seq<byte>, fact: Option<seq<byte>>, dataSize: u32)

  predicate Lawful(l: Layout) {
    && 16 <= |l.body| < 0x8000_0000
    && (l.fact.Some? ==> |l.fact.value| < 0x8000_0000)
    && (W16(l.body, 0) == 1 || (W16(l.body, 0) == 0xfffe && W16(l.body, |l.body| - 16) == 1))
  }

  function Start(l: Layout): (s: seq<byte>)
    requires |l.body| < TWO32
    ensures |s| == 20
  {
    RIFF + Le32(l.riffSize) + WAVE + FMT + Le32(|l.body|)
  }

  function FactChunk(fact: Option<seq<byte>>): seq<byte>
    requires fact.Some? ==> |fact.value| < TWO32
  {
    if fact.None? then [] else FACT + Le32(|fact.value|) + fact.value
  }

  function Image(l: Layout): (s: seq<byte>)
    requires Lawful(l)
    ensures |s| == 20 + |l.body| + |FactChunk(l.fact)| + 8
  {
    Start(l) + l.body + FactChunk(l.fact) + (DATA + Le32(l.dataSize))
  }

  /** `part` lies in `file` from `at` on. */
  predicate Lies(file: seq<byte>, at: nat, part: seq<byte>) {
    at + |part| <= |file| && file[at..at + |part|] == part
  }

  lemma LiesAt(file: seq<byte>, before: seq<byte>, part: seq<byte>, after: seq<byte>)
    requires file == before + part + after
    ensures Lies(file, |before|, part)
  {
  }

  lemma LiesWithin(file: seq<byte>, at: nat, part: seq<byte>, i: nat, j: nat)
    requires Lies(file, at, part) && i <= j <= |part|
    ensures Lies(file, at + i, part[i..j])
  {
    var inner, outer := part[i..j], file[at + i..at + j];
    forall k | 0 <= k < j - i
      ensures outer[k] == inner[k]
    {
      assert part[i + k] == file[at..at + |part|][i + k] == file[at + (i + k)];
    }
    assert outer == inner;
  }

  lemma TagLies(file: seq<byte>, at: nat, tag: seq<byte>)
    requires |tag| == 4 && Lies(file, at, tag)
    ensures Tagged(file, at, tag)
  {
    var s := file[at..at + 4];
    assert s[0] == file[at] && s[1] == file[at + 1] && s[2] == file[at + 2] && s[3] == file[at + 3];
  }

  lemma StartLies(file: seq<byte>, l: Layout)
    requires |l.body| < TWO32 && Lies(file, 0, Start(l)) && |file| >= 36
    ensures Tagged(file, 0, RIFF) && W32(file, 4) == l.riffSize
    ensures Tagged(file, 8, WAVE) && Tagged(file, 12, FMT) && FormatEnd(file) == 20 + |l.body|
  {
    hide Le32, W32, Tagged;
    var s := Start(l);
    LiesWithin(file, 0, s, 0, 4);
    LiesWithin(file, 0, s, 4, 8);
    LiesWithin(file, 0, s, 8, 12);
    LiesWithin(file, 0, s, 12, 16);
    LiesWithin(file, 0, s, 16, 20);
    assert s[0..4] == RIFF && s[4..8] == Le32(l.riffSize) && s[8..12] == WAVE && s[12..16] == FMT;
    assert s[16..20] == Le32(|l.body|);
    TagLies(file, 0, RIFF);
    TagLies(file, 8, WAVE);
    TagLies(file, 12, FMT);
    WordRoundTrip(file, 4, l.riffSize);
    WordRoundTrip(file, 16, |l.body|);
  }

  lemma HalfLies(file: seq<byte>, at: nat, part: seq<byte>, i: nat)
    requires Lies(file, at, part) && i + 2 <= |part|
    ensures W16(file, at + i) == W16(part, i)
  {
    assert file[at..at + |part|][i] == file[at + i] && file[at..at + |part|][i + 1] == file[at + i + 1];
  }

  lemma ChunkLies(file: seq<byte>, at: nat, tag: seq<byte>, size: u32, rest: seq<byte>)
    requires |tag| == 4 && Lies(file, at, tag + Le32(size) + rest)
    ensures Tagged(file, at, tag) && at + 8 <= |file| && W32(file, at + 4) == size
  {
    hide Le32, W32, Tagged;
    var chunk := tag + Le32(size) + rest;
    LiesWithin(file, at, chunk, 0, 4);
    LiesWithin(file, at, chunk, 4, 8);
    assert chunk[0..4] == tag && chunk[4..8] == Le32(size);
    TagLies(file, at, tag);
    WordRoundTrip(file, at + 4, size);
  }

  lemma TagsDiffer(file: seq<byte>, at: nat)
    requires Tagged(file, at, DATA)
    ensures !Tagged(file, at, FACT)
  {
  }

  /** Where everything lies in a written file. */
  lemma ImageLies(file: seq<byte>, l: Layout, samples: seq<byte>)
    requires Lawful(l) && file == Image(l) + samples
    ensures Lies(file, 0, Start(l)) && Lies(file, 20, l.body)
    ensures l.fact.Some? ==> Lies(file, 20 + |l.body|, FACT + Le32(|l.fact.value|) + l.fact.value)
    ensures Lies(file, |Image(l)| - 8, DATA + Le32(l.dataSize) + [])
  {
    hide Lies, Start, Le32;
    FourParts(file, Start(l), l.body, FactChunk(l.fact), DATA + Le32(l.dataSize), samples);
    assert DATA + Le32(l.dataSize) + [] == DATA + Le32(l.dataSize);
  }

  lemma FourParts(file: seq<byte>, a: seq<byte>, b: seq<byte>, c: seq<byte>, d: seq<byte>, rest: seq<byte>)
    requires file == a + b + c + d + rest
    ensures Lies(file, 0, a) && Lies(file, |a|, b) && Lies(file, |a| + |b|, c) && Lies(file, |a| + |b| + |c|, d)
  {
    hide Lies;
    assert file == [] + a + (b + c + d + rest);
    LiesAt(file, [], a, b + c + d + rest);
    assert file == a + b + (c + d + rest);
    LiesAt(file, a, b, c + d + rest);
    assert file == (a + b) + c + (d + rest);
    LiesAt(file, a + b, c, d + rest);
    LiesAt(file, a + b + c, d, rest);
  }

  lemma ImageIsWav(file: seq<byte>, l: Layout, samples: seq<byte>)
    requires Lawful(l) && file == Image(l) + samples
    ensures Legible(file) && IsWav(file) && DataChunk(file) == |Image(l)| - 8
    ensures W32(file, 4) == l.riffSize && Lies(file, 20, l.body) && W32(file, DataChunk(file) + 4) == l.dataSize
  {
    hide Lies, Tagged, W32, W16, Start, Le32;
    ImageLies(file, l, samples);
    StartLies(file, l);
    HalfLies(file, 20, l.body, 0);
    HalfLies(file, 20, l.body, |l.body| - 16);
    ChunkLies(file, |Image(l)| - 8, DATA, l.dataSize, []);
    if l.fact.Some? {
      ChunkLies(file, 20 + |l.body|, FACT, |l.fact.value|, l.fact.value);
    } else {
      TagsDiffer(file, 20 + |l.body|);
    }
  }

  /** Every lawful header, with a format chunk of any size, plain or extended, and a fact chunk of
      any size or none, is read back exactly, whatever was in memory before: its size, channels,
      rates, alignment and depth, and the offset of the first sample. */
  lemma HeaderRoundTrip(l: Layout, samples: seq<byte>, raw: seq<byte>, slot: seq<byte>)
    requires Lawful(l) && |raw| == HEADER_BYTES && |slot| == 4
    ensures var p := Parse(Image(l) + samples, raw, slot);
      && p.size == Some(Wrap32(|Image(l)|))
      && W32(p.raw, 4) == l.riffSize && W16(p.raw, 20) == 1
      && p.raw[22..36] == l.body[2..16] && W32(p.raw, 40) == l.dataSize
  {
    hide Parse, Image, IsWav, Tagged, W32, W16, DataChunk;
    var file := Image(l) + samples;
    ImageIsWav(file, l, samples);
    ParseExact(file, raw, slot);
    var fields := Fields(file);
    SameWord(fields, 4, file, 4);
    SameWord(fields, 40, file, DataChunk(file) + 4);
    assert fields[20..22] == Le16(1);
    HalfRoundTrip(fields, 20, 1);
    BodyKept(file, l.body);
  }

  lemma BodyKept(file: seq<byte>, body: seq<byte>)
    requires Legible(file) && Lies(file, 20, body) && |body| >= 16
    ensures Fields(file)[22..36] == body[2..16]
  {
    hide Legible, DataChunk, W32;
    forall k | 2 <= k < 16
      ensures Fields(file)[20 + k] == body[k]
    {
      assert file[20..20 + |body|][k] == file[20 + k];
    }
  }

  // ---------------------------------------------------------------- the writer

  function Signed16(x: u16): int16 {
    if x < 0x8000 then x else x - 0x1_0000
  }

  /** The parameters of a stream; C's types for them. */
  datatype Stream = Stream(format: int16, channels: int16, rate: int32, bits: int16, frames: int32)

  function DataBytes(s: Stream): int32 {
    ToInt32(ToInt32(s.frames * s.channels) * TruncDiv(s.bits, 8))
  }

  /** `wav_default_header`. */
  const DEFAULT_HEADER: seq<byte> :=
    RIFF + [0, 0, 0, 0] + WAVE + FMT + [0x10, 0, 0, 0] + Zeros(16) + DATA + [0, 0, 0, 0]

  /** The struct holds the fields of a stream. */
  predicate Describes(h: seq<byte>, s: Stream) {
    && |h| == HEADER_BYTES
    && Tagged(h, 0, RIFF) && Tagged(h, 8, WAVE) && Tagged(h, 12, FMT) && Tagged(h, 36, DATA)
    && W32(h, 4) == Wrap32(DataBytes(s) + HEADER_BYTES - 8)
    && W32(h, 16) == 16
    && W16(h, 20) == Wrap16(s.format)
    && W16(h, 22) == Wrap16(s.channels)
    && W32(h, 24) == Wrap32(s.rate)
    && W32(h, 28) == Wrap32(TruncDiv(ToInt32(ToInt32(s.rate * s.bits) * s.channels), 8))
    && W16(h, 32) == Wrap16(s.channels * TruncDiv(s.bits, 8))
    && W16(h, 34) == Wrap16(s.bits)
    && W32(h, 40) == Wrap32(DataBytes(s))
  }

  /** Fields stored over a buffer one after another. */
  datatype Field = Field(at: nat, data: seq<byte>)

  function Stored(h: seq<byte>, fields: seq<Field>): (r: seq<byte>)
    ensures |r| == |h|
  {
    if fields == [] then h else
      var last := fields[|fields| - 1];
      Patch(Stored(h, fields[..|fields| - 1]), last.at, last.data)
  }

  predicate Apart(f: Field, g: Field) {
    f.at + |f.data| <= g.at || g.at + |g.data| <= f.at
  }

  lemma PatchLies(h: seq<byte>, at: nat, data: seq<byte>)
    requires at + |data| <= |h|
    ensures Lies(Patch(h, at, data), at, data)
  {
  }

  lemma PatchKeeps(h: seq<byte>, f: Field, g: Field)
    requires Lies(h, f.at, f.data) && Apart(f, g)
    ensures Lies(Patch(h, g.at, g.data), f.at, f.data)
  {
    var r := Patch(h, g.at, g.data);
    forall k | 0 <= k < |f.data|
      ensures r[f.at + k] == f.data[k]
    {
      assert h[f.at..f.at + |f.data|][k] == h[f.at + k];
    }
    assert r[f.at..f.at + |f.data|] == f.data;
  }

  /** What lies apart from every field stored stays. */
  lemma {:induction false} StoredKeeps(h: seq<byte>, fields: seq<Field>, f: Field)
    requires Lies(h, f.at, f.data) && forall j :: 0 <= j < |fields| ==> Apart(f, fields[j])
    ensures Lies(Stored(h, fields), f.at, f.data)
    decreases |fields|
  {
    hide Lies, Patch, Apart;
    if fields != [] {
      var n := |fields| - 1;
      StoredKeeps(h, fields[..n], f);
      PatchKeeps(Stored(h, fields[..n]), f, fields[n]);
    }
  }

  /** Of fields stored apart from each other, every one can be read back. */
  lemma {:induction false} StoredLies(h: seq<byte>, fields: seq<Field>, j: nat)
    requires j < |fields| && fields[j].at + |fields[j].data| <= |h|
    requires forall k :: j < k < |fields| ==> Apart(fields[j], fields[k])
    ensures Lies(Stored(h, fields), fields[j].at, fields[j].data)
    decreases |fields|
  {
    hide Lies, Patch, Apart;
    var n := |fields| - 1;
    if j == n {
      PatchLies(Stored(h, fields[..n]), fields[n].at, fields[n].data);
    } else {
      StoredLies(h, fields[..n], j);
      PatchKeeps(Stored(h, fields[..n]), fields[j], fields[n]);
    }
  }

  function FieldsOf(s: Stream): seq<Field> {
    [ Field(20, Le16(Wrap16(s.format))),
      Field(22, Le16(Wrap16(s.channels))),
      Field(24, Le32(Wrap32(s.rate))),
      Field(34, Le16(Wrap16(s.bits))),
      Field(28, Le32(Wrap32(TruncDiv(ToInt32(ToInt32(s.rate * s.bits) * s.channels), 8)))),
      Field(32, Le16(Wrap16(s.channels * TruncDiv(s.bits, 8)))),
      Field(40, Le32(Wrap32(DataBytes(s)))),
      Field(4, Le32(Wrap32(DataBytes(s) + HEADER_BYTES - 8))) ]
  }

  method Store(header: array<byte>, fields: seq<Field>, k: nat)
    requires k < |fields| && fields[k].at + |fields[k].data| <= header.Length
    requires header[..] == Stored(DEFAULT_HEADER, fields[..k])
    modifies header
    ensures header[..] == Stored(DEFAULT_HEADER, fields[..k + 1])
  {
    hide Stored;
    ghost var before := header[..];
    var at, data := fields[k].at, fields[k].data;
    for i := 0 to |data|
      invariant forall j :: 0 <= j < header.Length ==>
        header[j] == if at <= j < at + i then data[j - at] else before[j]
    {
      header[at + i] := data[i];
    }
    assert header[..] == Patch(before, at, data);
    StoredNext(DEFAULT_HEADER, fields, k);
  }

  lemma StoredNext(h: seq<byte>, fields: seq<Field>, k: nat)
    requires k < |fields|
    ensures Stored(h, fields[..k + 1]) == Patch(Stored(h, fields[..k]), fields[k].at, fields[k].data)
  {
    assert fields[..k + 1][..k] == fields[..k];
  }

  /** `wav_form_header`: the default header, with the fields stored over it. */
  method FormHeader(header: array<byte>, s: Stream)
    requires header.Length == HEADER_BYTES
    modifies header
    ensures Describes(header[..], s)
  {
    hide Stored, FieldsOf, Describes;
    for i := 0 to HEADER_BYTES
      invariant forall k :: 0 <= k < i ==> header[k] == DEFAULT_HEADER[k]
    {
      header[i] := DEFAULT_HEADER[i];
    }
    assert header[..] == DEFAULT_HEADER;
    var fields := FieldsOf(s);
    NoneStored(DEFAULT_HEADER, fields);
    FieldsFit(s);
    Store(header, fields, 0);
    Store(header, fields, 1);
    Store(header, fields, 2);
    Store(header, fields, 3);
    Store(header, fields, 4);
    Store(header, fields, 5);
    Store(header, fields, 6);
    Store(header, fields, 7);
    HeaderDescribes(s);
    assert fields[..8] == fields;
  }

  lemma NoneStored(h: seq<byte>, fields: seq<Field>)
    ensures Stored(h, fields[..0]) == h
  {
  }

  lemma FieldsFit(s: Stream)
    ensures |FieldsOf(s)| == 8 && forall k :: 0 <= k < 8 ==> FieldsOf(s)[k].at + |FieldsOf(s)[k].data| <= HEADER_BYTES
  {
    hide TruncDiv, ToInt32, Wrap16, Wrap32, DataBytes, Le16, Le32;
  }

  lemma FieldsApart(s: Stream)
    ensures forall j, k :: 0 <= j < k < 8 ==> Apart(FieldsOf(s)[j], FieldsOf(s)[k])
  {
    hide TruncDiv, ToInt32, Wrap16, Wrap32, DataBytes, Le16, Le32;
  }

  lemma FieldLies(s: Stream, j: nat)
    requires j < 8
    ensures |FieldsOf(s)| == 8
    ensures Lies(Stored(DEFAULT_HEADER, FieldsOf(s)), FieldsOf(s)[j].at, FieldsOf(s)[j].data)
  {
    hide Lies, Stored, FieldsOf, Apart;
    FieldsFit(s);
    FieldsApart(s);
    StoredLies(DEFAULT_HEADER, FieldsOf(s), j);
  }

  lemma HeaderDescribes(s: Stream)
    ensures Describes(Stored(DEFAULT_HEADER, FieldsOf(s)), s)
  {
    hide Lies, W16, W32, Le16, Le32, TruncDiv, ToInt32, Wrap16, Wrap32, DataBytes, Stored, Tagged, Apart;
    var h := Stored(DEFAULT_HEADER, FieldsOf(s));
    FieldLies(s, 0);
    FieldLies(s, 1);
    FieldLies(s, 2);
    FieldLies(s, 3);
    FieldLies(s, 4);
    FieldLies(s, 5);
    FieldLies(s, 6);
    FieldLies(s, 7);
    HalfAt(h, 20, Wrap16(s.format));
    HalfAt(h, 22, Wrap16(s.channels));
    WordAt(h, 24, Wrap32(s.rate));
    HalfAt(h, 34, Wrap16(s.bits));
    WordAt(h, 28, Wrap32(TruncDiv(ToInt32(ToInt32(s.rate * s.bits) * s.channels), 8)));
    HalfAt(h, 32, Wrap16(s.channels * TruncDiv(s.bits, 8)));
    WordAt(h, 40, Wrap32(DataBytes(s)));
    WordAt(h, 4, Wrap32(DataBytes(s) + HEADER_BYTES - 8));
    DefaultTags();
    DefaultKept(s, 0, RIFF);
    DefaultKept(s, 8, WAVE);
    DefaultKept(s, 12, FMT);
    DefaultKept(s, 36, DATA);
    DefaultKept(s, 16, [0x10, 0, 0, 0]);
    TagLies(h, 0, RIFF);
    TagLies(h, 8, WAVE);
    TagLies(h, 12, FMT);
    TagLies(h, 36, DATA);
    SizeAt(h);
  }

  lemma HalfAt(h: seq<byte>, at: nat, x: u16)
    requires Lies(h, at, Le16(x))
    ensures at + 2 <= |h| && W16(h, at) == x
  {
    HalfRoundTrip(h, at, x);
  }

  lemma WordAt(h: seq<byte>, at: nat, x: u32)
    requires Lies(h, at, Le32(x))
    ensures at + 4 <= |h| && W32(h, at) == x
  {
    WordRoundTrip(h, at, x);
  }

  lemma SizeAt(h: seq<byte>)
    requires Lies(h, 16, [0x10, 0, 0, 0])
    ensures |h| >= 20 && W32(h, 16) == 16
  {
    var s := h[16..20];
    assert s[0] == h[16] && s[1] == h[17] && s[2] == h[18] && s[3] == h[19];
  }

  lemma DefaultTags()
    ensures Lies(DEFAULT_HEADER, 0, RIFF) && Lies(DEFAULT_HEADER, 8, WAVE) && Lies(DEFAULT_HEADER, 12, FMT)
    ensures Lies(DEFAULT_HEADER, 36, DATA) && Lies(DEFAULT_HEADER, 16, [0x10, 0, 0, 0])
  {
    hide Lies;
    var h, none, size := DEFAULT_HEADER, [0 as byte, 0, 0, 0], [0x10 as byte, 0, 0, 0];
    assert h == RIFF + none + WAVE + FMT + (size + Zeros(16) + DATA + none);
    FourParts(h, RIFF, none, WAVE, FMT, size + Zeros(16) + DATA + none);
    FourParts(h, RIFF + none + WAVE + FMT, size, Zeros(16), DATA, none);
  }

  lemma DefaultKept(s: Stream, at: nat, part: seq<byte>)
    requires |part| == 4 && at in {0, 8, 12, 16, 36} && Lies(DEFAULT_HEADER, at, part)
    ensures Lies(Stored(DEFAULT_HEADER, FieldsOf(s)), at, part)
  {
    hide TruncDiv, ToInt32, Wrap16, Wrap32, DataBytes, Le16, Le32, Stored, Lies;
    StoredKeeps(DEFAULT_HEADER, FieldsOf(s), Field(at, part));
  }

  /** A PCM header written by `wav_form_header` and read back from a file is the same 44 bytes, and
      the first sample follows them. */
  lemma WrittenHeaderRoundTrip(s: Stream, h: seq<byte>, samples: seq<byte>, raw: seq<byte>, slot: seq<byte>)
    requires Describes(h, s) && s.format == 1 && |raw| == HEADER_BYTES && |slot| == 4
    ensures Parse(h + samples, raw, slot) == Parsed(h, Some(44))
  {
    hide Parse, W32, Tagged;
    var file := h + samples;
    SameWord(file, 16, h, 16);
    SameWord(file, 36, h, 36);
    SameTag(file, 0, h, RIFF);
    SameTag(file, 8, h, WAVE);
    SameTag(file, 12, h, FMT);
    TagsDiffer(file, 36);
    ParseExact(file, raw, slot);
    assert Fields(file) == h;
  }

  lemma SameTag(file: seq<byte>, at: nat, h: seq<byte>, tag: seq<byte>)
    requires |tag| == 4 && Tagged(h, at, tag) && |h| <= |file| && file[..|h|] == h
    ensures Tagged(file, at, tag)
  {
    assert forall i :: 0 <= i < |h| ==> file[..|h|][i] == file[i];
  }

  // ---------------------------------------------------------------- frames

  function BytesPerFrame(h: seq<byte>): u32
    requires |h| == HEADER_BYTES
  {
    Wrap32(TruncDiv(Signed16(W16(h, 34)), 8) * Signed16(W16(h, 22)))
  }

  /** An unsigned division; by zero it has no result. */
  function NumFrames(h: seq<byte>): Option<int32>
    requires |h| == HEADER_BYTES
  {
    if BytesPerFrame(h) == 0 then None else Some(ToInt32(W32(h, 40) / BytesPerFrame(h)))
  }

  function FrameStart(h: seq<byte>, frame: u32, headerSize: u32): u32
    requires |h| == HEADER_BYTES
  {
    Wrap32(headerSize + Wrap32(frame * BytesPerFrame(h)))
  }

  /** The samples of the stream take less than 2^31 bytes. */
  predicate FitsInt(s: Stream) {
    s.channels > 0 && s.frames >= 0 && s.frames * s.channels < 0x8000_0000
    && s.frames * s.channels * TruncDiv(s.bits, 8) + HEADER_BYTES < 0x8000_0000
  }

  lemma SampleWidth(s: Stream)
    requires s.bits >= 0 && s.channels > 0
    ensures Signed16(Wrap16(s.bits)) == s.bits && Signed16(Wrap16(s.channels)) == s.channels
    ensures 0 <= TruncDiv(s.bits, 8) <= 4095 && (TruncDiv(s.bits, 8) >= 1 <==> s.bits >= 8)
  {
  }

  /** A stream that does not overflow gives its number of frames back exactly when a sample takes a
      whole byte or more, and then the last frame ends where the RIFF chunk does. */
  lemma FramesRoundTrip(s: Stream, h: seq<byte>)
    requires Describes(h, s) && FitsInt(s) && s.bits >= 0
    ensures NumFrames(h) == Some(s.frames) <==> s.bits >= 8
    ensures s.bits >= 8 ==> FrameStart(h, s.frames, HEADER_BYTES) == W32(h, 4) + 8
  {
    hide TruncDiv, W16, W32, Tagged, Signed16, Wrap16, Wrap32, ToInt32, DataBytes;
    var width, n := TruncDiv(s.bits, 8), s.channels as int;
    var total := s.frames * n * width;
    SampleWidth(s);
    MulMono(width, n, 4095, 0x7fff);
    KeptWord32(width * n);
    DataBytesExact(s);
    assert s.frames * (width * n) == total;
    if s.bits >= 8 {
      MulMono(1, 1, width, n);
      DivUnique(total, width * n, s.frames);
      KeptInt32(s.frames);
      KeptWord32(total);
      KeptWord32(total + HEADER_BYTES);
      KeptWord32(total + HEADER_BYTES - 8);
    } else {
      assert width * n == 0;
    }
  }

  /** Every frame starts where the frames before it end, the first one behind a header of whatever
      size. */
  lemma FrameStartExact(s: Stream, h: seq<byte>, frame: u32, headerSize: u32)
    requires Describes(h, s) && s.channels > 0 && s.bits >= 0
    requires headerSize + frame * (s.channels * (s.bits / 8)) < TWO32
    ensures FrameStart(h, frame, headerSize) == headerSize + frame * (s.channels * (s.bits / 8))
  {
    hide BytesPerFrame, Wrap32, Describes;
    var size := s.channels * (s.bits / 8);
    FrameBytes(s, h);
    MulMono(0, 0, frame, size);
    KeptWord32(frame * size);
    KeptWord32(headerSize + frame * size);
  }

  lemma FrameBytes(s: Stream, h: seq<byte>)
    requires Describes(h, s) && s.channels > 0 && s.bits >= 0
    ensures BytesPerFrame(h) == s.channels * (s.bits / 8) >= 0
  {
    hide W16, W32, Tagged, Signed16, Wrap16, Wrap32, ToInt32, DataBytes;
    var width, n := s.bits / 8, s.channels as int;
    SampleWidth(s);
    MulMono(width, n, 4095, 0x7fff);
    KeptWord32(width * n);
  }

  /** The two rates a player goes by: bytes per frame and bytes per second. */
  lemma RatesExact(s: Stream, h: seq<byte>)
    requires Describes(h, s) && s.channels > 0 && s.bits >= 0 && s.bits % 8 == 0 && s.rate >= 0
    requires s.channels * (s.bits / 8) < 0x1_0000 && s.rate * s.bits * s.channels < 0x8000_0000
    ensures W16(h, 32) == s.channels * (s.bits / 8)
    ensures W32(h, 28) == s.rate * W16(h, 32)
  {
    hide W16, W32, Tagged, DataBytes, Wrap32, ToInt32, TruncDiv, Describes;
    var width, n := s.bits / 8, s.channels as int;
    RatesStored(s, h);
    MulMono(0, 0, n, width);
    MulMono(0, 0, s.rate, s.bits);
    MulMono(s.rate * s.bits, 1, s.rate * s.bits, n);
    KeptInt32(s.rate * s.bits);
    KeptInt32(s.rate * s.bits * n);
    ByteRate(s.rate, width, n);
    MulMono(0, 0, s.rate, n * width);
    KeptWord32(s.rate * (n * width));
  }

  lemma RatesStored(s: Stream, h: seq<byte>)
    requires Describes(h, s) && s.bits >= 0
    ensures W16(h, 32) == Wrap16(s.channels * (s.bits / 8))
    ensures W32(h, 28) == Wrap32(TruncDiv(ToInt32(ToInt32(s.rate * s.bits) * s.channels), 8))
  {
    hide W16, W32, Tagged, DataBytes, Wrap16, Wrap32, ToInt32;
  }

  lemma ByteRate(rate: nat, width: nat, n: nat)
    ensures TruncDiv(rate * (8 * width) * n, 8) == rate * (n * width)
  {
    assert rate * (8 * width) * n == (rate * (n * width)) * 8;
    MulMono(0, 0, rate, n * width);
  }

  lemma DataBytesExact(s: Stream)
    requires FitsInt(s) && s.bits >= 0
    ensures DataBytes(s) == s.frames * s.channels * TruncDiv(s.bits, 8) >= 0
  {
    hide TruncDiv, ToInt32;
    SampleWidth(s);
    MulMono(0, 0, s.frames, s.channels);
    MulMono(0, 0, s.frames * s.channels, TruncDiv(s.bits, 8));
    KeptInt32(s.frames * s.channels);
    KeptInt32(s.frames * s.channels * TruncDiv(s.bits, 8));
  }

  // ---------------------------------------------------------------- files that end too early

  /** What a field holds after it has been read at `pos`: the file's bytes as far as they go, and
      then what was in memory before. */
  function Seen(file: seq<byte>, pos: nat, memory: seq<byte>): (s: seq<byte>)
    ensures |s| == |memory|
    ensures forall i :: 0 <= i < |memory| ==> s[i] == if pos + i < |file| then file[pos + i] else memory[i]
  {
    seq(|memory|, i requires 0 <= i < |memory| => if pos + i < |file| then file[pos + i] else memory[i])
  }

  function AfterRead(file: seq<byte>, pos: nat, n: nat): nat {
    Max(pos, Min(pos + n, |file|))
  }

  function Landing(pos: nat, offset: int): nat {
    FSeek(Reader(pos, []), offset).pos
  }

  /** Where the format chunk is taken to end, if it is taken for PCM. */
  function FormatEndSeen(file: seq<byte>, fixed: seq<byte>): Option<nat>
    requires |fixed| == 36
  {
    var pos, rest := Min(|file|, 36), W32(fixed, 16) - 16;
    if W16(fixed, 20) == 1 then Some(Landing(pos, rest))
    else if W16(fixed, 20) != 0xfffe then None
    else
      var at := Landing(pos, rest - 16);
      if at + 2 <= |file| && W16(file, at) == 1 then Some(at + 16) else None
  }

  /** Whether a data chunk is seen at `pos`, directly or behind a fact chunk. */
  predicate DataSeen(file: seq<byte>, pos: nat, tag: seq<byte>, slot: seq<byte>)
    requires |tag| == 4 && |slot| == 4
  {
    var seen := Seen(file, pos, tag);
    || seen == DATA
    || (seen == FACT &&
          var at := AfterRead(file, pos, 4);
          Tagged(file, Landing(AfterRead(file, at, 4), W32(Seen(file, at, slot), 0)), DATA))
  }

  /** What makes the parser accept a file of any length, given what memory held before. */
  predicate SeenAsWav(file: seq<byte>, raw: seq<byte>, slot: seq<byte>)
    requires |raw| == HEADER_BYTES && |slot| == 4
  {
    var fixed := Seen(file, 0, raw[..36]);
    && Tagged(fixed, 0, RIFF) && Tagged(fixed, 8, WAVE) && Tagged(fixed, 12, FMT)
    && FormatEndSeen(file, fixed).Some?
    && DataSeen(file, FormatEndSeen(file, fixed).value, raw[36..40], slot)
  }

  lemma FReadAny(file: seq<byte>, r: Reader, at: nat, n: nat)
    requires at + n <= |r.raw|
    ensures var next := FRead(file, r, at, n);
      && next.pos == AfterRead(file, r.pos, n)
      && forall i :: 0 <= i < |r.raw| ==>
           next.raw[i] == if at <= i < at + n && r.pos + (i - at) < |file| then file[r.pos + (i - at)] else r.raw[i]
  {
  }

  /** The two fixed reads. */
  lemma FixedSeen(file: seq<byte>, raw: seq<byte>)
    requires |raw| == HEADER_BYTES
    ensures var a := FRead(file, Reader(0, raw), 0, 12);
      var b := FRead(file, a, 12, 24);
      var fixed := Seen(file, 0, raw[..36]);
      && b.pos == Min(|file|, 36) && b.raw == fixed + raw[36..]
      && (Tagged(a.raw, 0, RIFF) <==> Tagged(fixed, 0, RIFF)) && (Tagged(a.raw, 8, WAVE) <==> Tagged(fixed, 8, WAVE))
      && (Tagged(b.raw, 12, FMT) <==> Tagged(fixed, 12, FMT))
  {
    hide FRead, Patch;
    FReadAny(file, Reader(0, raw), 0, 12);
    var a := FRead(file, Reader(0, raw), 0, 12);
    FReadAny(file, a, 12, 24);
    assert FRead(file, a, 12, 24).raw == Seen(file, 0, raw[..36]) + raw[36..];
  }

  lemma FormatSeen(file: seq<byte>, b: Reader, fixed: seq<byte>, rest: seq<byte>)
    requires |fixed| == 36 && |rest| == 8 && b == Reader(Min(|file|, 36), fixed + rest)
    ensures var c, end := SkipFormat(file, b), FormatEndSeen(file, fixed);
      && (W16(c.raw, 20) == 1 <==> end.Some?)
      && (end.Some? ==> c.pos == end.value) && c.raw[36..] == rest
  {
    hide FRead, Patch, W32, ToInt32, Tagged;
    SameWord(b.raw, 16, fixed, 16);
    SameHalf(b.raw, 20, fixed, 20);
    if W16(fixed, 20) == 0xfffe {
      var at := FSeek(b, W32(fixed, 16) - 32);
      FReadAny(file, at, 20, 2);
      SubFormatSeen(file, at, FRead(file, at, 20, 2));
    }
  }

  lemma SubFormatSeen(file: seq<byte>, at: Reader, read: Reader)
    requires |at.raw| == HEADER_BYTES && W16(at.raw, 20) == 0xfffe && |read.raw| == HEADER_BYTES
    requires read.pos == AfterRead(file, at.pos, 2)
    requires forall i :: 0 <= i < HEADER_BYTES ==>
      read.raw[i] == if 20 <= i < 22 && at.pos + (i - 20) < |file| then file[at.pos + (i - 20)] else at.raw[i]
    ensures W16(read.raw, 20) == 1 <==> at.pos + 2 <= |file| && W16(file, at.pos) == 1
    ensures at.pos + 2 <= |file| ==> FSeek(read, 14).pos == at.pos + 16
  {
  }

  lemma DataSeenFound(file: seq<byte>, c: Reader, slot: seq<byte>)
    requires |c.raw| == HEADER_BYTES && |slot| == 4
    ensures Tagged(FindData(file, c, slot).raw, 36, DATA) <==> DataSeen(file, c.pos, c.raw[36..40], slot)
  {
    hide FRead, Patch, W32, FSeek, Seen, Tagged;
    var a := FRead(file, c, 36, 4);
    NameSeen(file, c);
    if Tagged(a.raw, 36, FACT) {
      var size := FRead(file, Reader(a.pos, slot), 0, 4);
      SizeSeen(file, a.pos, slot);
      SeekAlike(size.pos, a.raw, W32(size.raw, 0));
      TagRead(file, FSeek(Reader(size.pos, a.raw), W32(size.raw, 0)), a.raw);
    }
  }

  /** The name read first. */
  lemma NameSeen(file: seq<byte>, c: Reader)
    requires |c.raw| == HEADER_BYTES
    ensures var a, seen := FRead(file, c, 36, 4), Seen(file, c.pos, c.raw[36..40]);
      && a.pos == AfterRead(file, c.pos, 4)
      && (Tagged(a.raw, 36, FACT) <==> seen == FACT) && (Tagged(a.raw, 36, DATA) <==> seen == DATA)
  {
    hide FRead;
    FReadAny(file, c, 36, 4);
    assert Seen(file, c.pos, c.raw[36..40]) == FRead(file, c, 36, 4).raw[36..40];
  }

  lemma SizeSeen(file: seq<byte>, pos: nat, slot: seq<byte>)
    requires |slot| == 4
    ensures var size := FRead(file, Reader(pos, slot), 0, 4);
      size.pos == AfterRead(file, pos, 4) && size.raw == Seen(file, pos, slot)
  {
    hide FRead;
    FReadAny(file, Reader(pos, slot), 0, 4);
  }

  lemma SeekAlike(pos: nat, raw: seq<byte>, offset: int)
    ensures FSeek(Reader(pos, raw), offset) == Reader(Landing(pos, offset), raw)
  {
    hide ToInt32;
  }

  /** The name read behind a fact chunk: what is left of the first one cannot be taken for `data`. */
  lemma TagRead(file: seq<byte>, at: Reader, raw: seq<byte>)
    requires at.raw == raw && |raw| == HEADER_BYTES && Tagged(raw, 36, FACT)
    ensures Tagged(FRead(file, at, 36, 4).raw, 36, DATA) <==> Tagged(file, at.pos, DATA)
  {
    hide FRead;
    FReadAny(file, at, 36, 4);
  }

  /** The parser accepts exactly the files it sees as WAV, each field being the file's as far as the
      file goes and memory's beyond. */
  lemma ParseSeen(file: seq<byte>, raw: seq<byte>, slot: seq<byte>)
    requires |raw| == HEADER_BYTES && |slot| == 4
    ensures Parse(file, raw, slot).size.Some? <==> SeenAsWav(file, raw, slot)
  {
    hide FRead, SkipFormat, FindData, FormatEndSeen, DataSeen, Seen, W16, Tagged;
    FixedSeen(file, raw);
    var b := FRead(file, FRead(file, Reader(0, raw), 0, 12), 12, 24);
    FormatSeen(file, b, Seen(file, 0, raw[..36]), raw[36..]);
    var c := SkipFormat(file, b);
    DataSeenFound(file, c, slot);
    assert c.raw[36..40] == c.raw[36..][..4] == raw[36..40];
  }

  /** An empty file is accepted exactly when memory holds a PCM header with its data tag. */
  lemma EmptyFileAccepted(raw: seq<byte>, slot: seq<byte>)
    requires |raw| == HEADER_BYTES && |slot| == 4
    ensures Parse([], raw, slot).size.Some? <==>
      && Tagged(raw, 0, RIFF) && Tagged(raw, 8, WAVE) && Tagged(raw, 12, FMT)
      && W16(raw, 20) == 1 && Tagged(raw, 36, DATA)
  {
    hide Parse, W32;
    ParseSeen([], raw, slot);
    assert Seen([], 0, raw[..36]) == raw[..36];
    SameHalf(raw[..36], 20, raw, 20);
  }

  // ---------------------------------------------------------------- a WAV file cut short

  lemma LandingForward(pos: nat, offset: int)
    requires FitsInt32(offset) && pos + offset >= 0
    ensures Landing(pos, offset) == pos + offset
  {
    SeekForward(Reader(pos, []), offset);
  }

  lemma CutWord(f: seq<byte>, k: nat, at: nat)
    requires at + 4 <= k <= |f|
    ensures W32(f[..k], at) == W32(f, at)
    ensures Tagged(f[..k], at, FACT) <==> Tagged(f, at, FACT)
    ensures Tagged(f[..k], at, DATA) <==> Tagged(f, at, DATA)
  {
    hide W32, W16;
    SameWord(f[..k], at, f, at);
  }

  lemma CutHalf(f: seq<byte>, k: nat, at: nat)
    requires at + 2 <= k <= |f|
    ensures W16(f[..k], at) == W16(f, at)
  {
    SameHalf(f[..k], at, f, at);
  }

  /** With the fixed part intact, the end of the format chunk is found unless the sub-format of an
      extended one is cut off. */
  lemma CutFormat(f: seq<byte>, k: nat, fixed: seq<byte>)
    requires Legible(f) && IsWav(f) && 36 <= k <= |f| && fixed == f[..36]
    ensures FormatEndSeen(f[..k], fixed).Some? ==> FormatEndSeen(f[..k], fixed).value == FormatEnd(f)
    ensures FormatEndSeen(f[..k], fixed).Some? <==> W16(f, 20) == 1 || k >= FormatEnd(f) - 14
  {
    hide W32, W16, Tagged, DataChunk, Landing;
    SameWord(fixed, 16, f, 16);
    SameHalf(fixed, 20, f, 20);
    var n := W32(f, 16);
    LandingForward(36, n - 16);
    LandingForward(36, n - 32);
    if n + 4 + 2 <= k {
      CutHalf(f, k, n + 4);
    }
  }

  lemma SeenTag(file: seq<byte>, pos: nat, tag: seq<byte>)
    requires |tag| == 4 && pos + 4 <= |file|
    ensures Seen(file, pos, tag) == DATA <==> Tagged(file, pos, DATA)
    ensures Seen(file, pos, tag) == FACT <==> Tagged(file, pos, FACT)
    ensures W32(Seen(file, pos, tag), 0) == W32(file, pos)
  {
    var s := Seen(file, pos, tag);
    assert s[0] == file[pos] && s[1] == file[pos + 1] && s[2] == file[pos + 2] && s[3] == file[pos + 3];
    assert s == [s[0], s[1], s[2], s[3]];
  }

  /** A file that goes on to the end of its data tag is accepted whatever memory held. */
  lemma CutSeen(f: seq<byte>, k: nat, raw: seq<byte>, slot: seq<byte>)
    requires Legible(f) && IsWav(f) && DataChunk(f) + 4 <= k <= |f| && |raw| == HEADER_BYTES && |slot| == 4
    ensures SeenAsWav(f[..k], raw, slot)
  {
    hide W32, W16, Tagged, Landing, FormatEndSeen, Seen, IsPcm;
    var cut, end := f[..k], FormatEnd(f);
    var fixed := Seen(cut, 0, raw[..36]);
    assert fixed == f[..36];
    SameTags(f, fixed);
    CutFormat(f, k, fixed);
    var tag := raw[36..40];
    SeenTag(cut, end, tag);
    CutWord(f, k, end);
    if Tagged(f, end, FACT) {
      SeenTag(cut, end + 4, slot);
      CutWord(f, k, end + 4);
      LandingForward(end + 8, W32(f, end + 4));
      CutWord(f, k, DataChunk(f));
    }
  }

  lemma SameTags(f: seq<byte>, fixed: seq<byte>)
    requires |f| >= 36 && fixed == f[..36]
    ensures (Tagged(fixed, 0, RIFF) <==> Tagged(f, 0, RIFF)) && (Tagged(fixed, 8, WAVE) <==> Tagged(f, 8, WAVE))
    ensures Tagged(fixed, 12, FMT) <==> Tagged(f, 12, FMT)
  {
  }

  // With cleared memory nothing that is not in the file is ever seen.

  lemma ClearedTag(file: seq<byte>, pos: nat)
    requires pos + 4 > |file|
    ensures Seen(file, pos, Zeros(4)) != DATA && Seen(file, pos, Zeros(4)) != FACT
  {
    assert Seen(file, pos, Zeros(4))[3] == 0;
  }

  lemma ClearedTags(f: seq<byte>, k: nat)
    requires k < 16 && k <= |f|
    ensures !Tagged(Seen(f[..k], 0, Zeros(36)), 12, FMT)
  {
  }

  /** A cut in the fixed part. */
  lemma ClearedFixed(f: seq<byte>, k: nat)
    requires Legible(f) && IsWav(f) && 16 <= k < 36
    ensures var fixed := Seen(f[..k], 0, Zeros(36));
      FormatEndSeen(f[..k], fixed).Some? ==> FormatEndSeen(f[..k], fixed).value >= k
  {
    hide W32, Tagged, DataChunk, Landing;
    var cut := f[..k];
    var fixed := Seen(cut, 0, Zeros(36));
    var n: int := W32(f, 16);
    if k < 22 {
      ClearedFormat(f, k, fixed);
    } else {
      SameHalf(fixed, 20, f, 20);
    }
    if k >= 20 {
      SameWord20(fixed, f);
      LandingForward(k, n - 16);
      LandingForward(k, n - 32);
    }
  }

  lemma SameWord20(fixed: seq<byte>, f: seq<byte>)
    requires |fixed| == 36 && |f| >= 36 && forall i :: 16 <= i < 20 ==> fixed[i] == f[i]
    ensures W32(fixed, 16) == W32(f, 16)
  {
    SameWord(fixed, 16, f, 16);
  }

  lemma ClearedFormat(f: seq<byte>, k: nat, fixed: seq<byte>)
    requires |f| >= 36 && 16 <= k < 22 && fixed == Seen(f[..k], 0, Zeros(36))
    requires W16(f, 20) == 1 || W16(f, 20) == 0xfffe
    ensures W16(fixed, 20) != 0xfffe && (W16(fixed, 20) == 1 ==> k == 21)
  {
    assert fixed[21] == 0;
    assert k <= 20 ==> fixed[20] == 0;
  }

  /** A cut before the end of the data tag. */
  lemma ClearedData(f: seq<byte>, k: nat)
    requires Legible(f) && IsWav(f) && 36 <= k < DataChunk(f) + 4
    ensures !DataSeen(f[..k], FormatEnd(f), Zeros(4), Zeros(4))
  {
    hide W32, Tagged, Landing, Seen, IsPcm, Zeros;
    var cut, end := f[..k], FormatEnd(f);
    if k < end + 4 {
      ClearedTag(cut, end);
    } else {
      SeenTag(cut, end, Zeros(4));
      CutWord(f, k, end);
      TagsExclude(f, end);
      if Tagged(f, end, FACT) {
        FactSize(f, k, end + 4);
        var at := AfterRead(cut, end + 4, 4);
        var size := W32(Seen(cut, end + 4, Zeros(4)), 0);
        LandingForward(at, size);
        TagInside(cut, at + size, DATA);
      }
    }
  }

  lemma TagsExclude(file: seq<byte>, at: nat)
    ensures Tagged(file, at, FACT) ==> !Tagged(file, at, DATA)
  {
  }

  lemma TagInside(file: seq<byte>, at: nat, tag: seq<byte>)
    requires |tag| == 4
    ensures Tagged(file, at, tag) ==> at + 4 <= |file|
  {
  }

  /** A size field cut short reads as no more than the real one. */
  lemma FactSize(f: seq<byte>, k: nat, at: nat)
    requires at <= k <= |f| && at + 4 <= |f| && W32(f, at) < 0x8000_0000
    ensures 0 <= W32(Seen(f[..k], at, Zeros(4)), 0) < 0x8000_0000
    ensures k >= at + 4 ==> W32(Seen(f[..k], at, Zeros(4)), 0) == W32(f, at)
  {
    var s := Seen(f[..k], at, Zeros(4));
    assert s[0] <= f[at] && s[1] <= f[at + 1] && s[2] <= f[at + 2] && s[3] <= f[at + 3];
    if k >= at + 4 {
      SeenTag(f[..k], at, Zeros(4));
      CutWord(f, k, at);
    }
  }

  /** A WAV file cut short anywhere, read into cleared memory, is accepted exactly when its data tag
      is still complete. */
  lemma ClearedMemory(f: seq<byte>, k: nat)
    requires Legible(f) && IsWav(f) && k <= |f|
    ensures Parse(f[..k], Zeros(HEADER_BYTES), Zeros(4)).size.Some? <==> k >= DataChunk(f) + 4
  {
    hide Parse, Seen, FormatEndSeen, DataSeen, Tagged, W32, W16, IsPcm, Zeros;
    var raw, slot, cut := Zeros(HEADER_BYTES), Zeros(4), f[..k];
    ParseSeen(cut, raw, slot);
    assert raw[..36] == Zeros(36) && raw[36..40] == Zeros(4);
    var fixed := Seen(cut, 0, Zeros(36));
    if k >= DataChunk(f) + 4 {
      CutSeen(f, k, raw, slot);
    } else if k < 16 {
      ClearedTags(f, k);
    } else if k < 36 {
      ClearedFixed(f, k);
      if FormatEndSeen(cut, fixed).Some? {
        ClearedDataAt(cut, FormatEndSeen(cut, fixed).value);
      }
    } else {
      FixedKept(f, k);
      CutFormat(f, k, fixed);
      ClearedData(f, k);
    }
  }

  lemma FixedKept(f: seq<byte>, k: nat)
    requires 36 <= k <= |f|
    ensures Seen(f[..k], 0, Zeros(36)) == f[..36]
  {
  }

  lemma ClearedDataAt(file: seq<byte>, pos: nat)
    requires pos >= |file|
    ensures !DataSeen(file, pos, Zeros(4), Zeros(4))
  {
    hide Seen;
    ClearedTag(file, pos);
  }

  /** And a cut file is accepted whatever memory holds under exactly the same condition. */
  lemma AnyMemory(f: seq<byte>, k: nat)
    requires Legible(f) && IsWav(f) && k <= |f|
    ensures (forall raw, slot | |raw| == HEADER_BYTES && |slot| == 4 :: Parse(f[..k], raw, slot).size.Some?)
       <==> k >= DataChunk(f) + 4
  {
    hide Parse, SeenAsWav, DataChunk, IsWav;
    ClearedMemory(f, k);
    if k >= DataChunk(f) + 4 {
      forall raw, slot | |raw| == HEADER_BYTES && |slot| == 4
        ensures Parse(f[..k], raw, slot).size.Some?
      {
        ParseSeen(f[..k], raw, slot);
        CutSeen(f, k, raw, slot);
      }
    }
  }

  /** Where the fixed part of the header is intact, memory decides through the next chunk's name and
      a fact chunk's size alone. */
  lemma CutBehindFormat(f: seq<byte>, k: nat, raw: seq<byte>, slot: seq<byte>)
    requires Legible(f) && IsWav(f) && 36 <= k <= |f| && |raw| == HEADER_BYTES && |slot| == 4
    ensures Parse(f[..k], raw, slot).size.Some? <==>
      && (W16(f, 20) == 1 || k >= FormatEnd(f) - 14)
      && DataSeen(f[..k], FormatEnd(f), raw[36..40], slot)
  {
    hide Parse, FormatEndSeen, DataSeen, Tagged, W32, W16, IsPcm, DataChunk;
    ParseSeen(f[..k], raw, slot);
    var fixed := Seen(f[..k], 0, raw[..36]);
    assert fixed == f[..36];
    SameTags(f, fixed);
    CutFormat(f, k, fixed);
  }

  /** The header of every lawful layout, cut short anywhere: whatever memory held, it is accepted
      exactly as its fields are seen; cleared memory accepts it exactly from the end of the data tag
      on, and only from there on does all memory. */
  lemma CutHeader(l: Layout, k: nat, raw: seq<byte>, slot: seq<byte>)
    requires Lawful(l) && k <= |Image(l)| && |raw| == HEADER_BYTES && |slot| == 4
    ensures Parse(Image(l)[..k], raw, slot).size.Some? <==> SeenAsWav(Image(l)[..k], raw, slot)
    ensures Parse(Image(l)[..k], Zeros(HEADER_BYTES), Zeros(4)).size.Some? <==> k >= |Image(l)| - 4
    ensures (forall raw, slot | |raw| == HEADER_BYTES && |slot| == 4 :: Parse(Image(l)[..k], raw, slot).size.Some?)
       <==> k >= |Image(l)| - 4
  {
    hide Parse, SeenAsWav, DataChunk, IsWav, Image, Lawful;
    var f := Image(l);
    assert f == f + [];
    ImageIsWav(f, l, []);
    ParseSeen(f[..k], raw, slot);
    ClearedMemory(f, k);
    AnyMemory(f, k);
  }
}
