/** Convert2TransferBuffer.c: recording data cut into frames of two or four bytes with a checksum
    byte each, against the decoder at the other end of the line. */
module ChecksumFraming {
  import opened Words

  // ---------------------------------------------------------------- frames and their decoder

  function Xor(s: seq<bv8>): bv8 {
    if s == [] then 0 else Xor(s[..|s| - 1]) ^ s[|s| - 1]
  }

  /** Data with the byte that makes the exclusive-or of the whole frame 0xFF. */
  function Frame(data: seq<bv8>): seq<bv8> {
    data + [Xor(data) ^ 0xFF]
  }

  /** The first `k` units of the input, each in its frame. */
  function Framed(input: seq<bv8>, unit: nat, k: nat): (stream: seq<bv8>)
    requires unit * k <= |input|
    ensures |stream| == (unit + 1) * k
  {
    if k == 0 then [] else
      assert unit * k == unit * (k - 1) + unit;
      assert (unit + 1) * k == (unit + 1) * (k - 1) + unit + 1;
      Framed(input, unit, k - 1) + Frame(input[unit * (k - 1)..unit * k])
  }

  predicate Sound(frame: seq<bv8>) {
    Xor(frame) == 0xFF
  }

  /** The receiver: `k` frames with sound checksums, stripped of them; anything else is refused. */
  function Decode(stream: seq<bv8>, unit: nat, k: nat): Option<seq<bv8>>
    requires |stream| == (unit + 1) * k
  {
    if k == 0 then Some([]) else
      assert (unit + 1) * k == (unit + 1) * (k - 1) + unit + 1;
      var last := stream[(unit + 1) * (k - 1)..];
      var front := Decode(stream[..(unit + 1) * (k - 1)], unit, k - 1);
      if front.None? || !Sound(last) then None else Some(front.value + last[..unit])
  }

  lemma FrameIsSound(data: seq<bv8>)
    ensures Xor(Frame(data)) == 0xFF && Sound(Frame(data))
  {
    assert Frame(data)[..|data|] == data;
  }

  /** The decoder recovers exactly the units that were sent. */
  lemma {:induction false} RoundTrip(input: seq<bv8>, unit: nat, k: nat)
    requires unit * k <= |input|
    ensures Decode(Framed(input, unit, k), unit, k) == Some(input[..unit * k])
    decreases k
  {
    hide Sound, Xor;
    if k > 0 {
      UnitBounds(unit, k);
      var data, front := input[unit * (k - 1)..unit * k], Framed(input, unit, k - 1);
      RoundTrip(input, unit, k - 1);
      FrameIsSound(data);
      assert Framed(input, unit, k)[..(unit + 1) * (k - 1)] == front;
      assert Framed(input, unit, k)[(unit + 1) * (k - 1)..] == Frame(data);
      assert Frame(data)[..unit] == data;
      assert input[..unit * (k - 1)] + data == input[..unit * k];
    } else {
      assert unit * k == 0;
    }
  }

  lemma UnitBounds(unit: nat, k: nat)
    requires k > 0
    ensures unit * k == unit * (k - 1) + unit && (unit + 1) * k == (unit + 1) * (k - 1) + unit + 1
    ensures 0 <= unit * (k - 1) && 0 <= (unit + 1) * (k - 1)
  {
    MulMono(0, 0, unit, k - 1);
    MulMono(0, 0, unit + 1, k - 1);
  }

  /** One changed byte changes the exclusive-or. */
  lemma {:induction false} XorUpdate(s: seq<bv8>, i: nat, b: bv8)
    requires i < |s|
    ensures Xor(s[i := b]) == Xor(s) ^ s[i] ^ b
    decreases |s|
  {
    var n := |s| - 1;
    if i == n {
      assert s[i := b][..n] == s[..n];
      XorCancels(Xor(s[..n]), s[n], b);
    } else {
      assert s[i := b][..n] == s[..n][i := b];
      XorUpdate(s[..n], i, b);
      XorMoves(Xor(s[..n]), s[i], b, s[n]);
    }
  }

  lemma XorCancels(x: bv8, y: bv8, b: bv8)
    ensures x ^ b == x ^ y ^ y ^ b
  {
  }

  lemma XorMoves(x: bv8, y: bv8, b: bv8, z: bv8)
    ensures (x ^ y ^ b) ^ z == (x ^ z) ^ y ^ b
  {
  }

  lemma XorDiffers(x: bv8, y: bv8, b: bv8)
    ensures x ^ y ^ b == x <==> y == b
  {
  }

  /** Any one byte changed on the line makes the decoder refuse. */
  lemma {:induction false} OneByteErrorRefused(stream: seq<bv8>, unit: nat, k: nat, i: nat, b: bv8)
    requires |stream| == (unit + 1) * k && i < |stream| && b != stream[i]
    requires Decode(stream, unit, k).Some?
    ensures Decode(stream[i := b], unit, k).None?
    decreases k
  {
    hide Xor;
    if k > 0 {
      UnitBounds(unit, k);
      var at := (unit + 1) * (k - 1);
      var bad := stream[i := b];
      if i < at {
        assert bad[..at] == stream[..at][i := b];
        OneByteErrorRefused(stream[..at], unit, k - 1, i, b);
      } else {
        assert bad[at..] == stream[at..][i - at := b];
        XorUpdate(stream[at..], i - at, b);
        XorDiffers(0xFF, stream[i], b);
      }
    }
  }

  // ---------------------------------------------------------------- the converter

  const TWO_BYTES: int := 0
  const FOUR_BYTES: int := 1

  /** The frames that input and output both have room for. */
  function Whole(inputSize: int32, outputSize: int32, unit: nat): (k: nat)
    requires unit > 0
  {
    Min(Max(0, inputSize) / unit, Max(0, outputSize) / (unit + 1))
  }

  /** How many frames come out: none unless the capacity test, in 32-bit arithmetic, passes. */
  function FrameCount(inputSize: int32, outputSize: int32, mode: int): (k: nat) {
    if mode == FOUR_BYTES && outputSize >= TruncDiv(ToInt32(inputSize * 5), 4) then Whole(inputSize, outputSize, 4)
    else if mode == TWO_BYTES && outputSize >= TruncDiv(ToInt32(inputSize * 3), 2) then Whole(inputSize, outputSize, 2)
    else 0
  }

  function Unit(mode: int): nat {
    if mode == FOUR_BYTES then 4 else 2
  }

  method PutFour(input: array<bv8>, i: nat, output: array<bv8>, index: nat)
    requires i + 4 <= input.Length && index + 5 <= output.Length && input != output
    modifies output
    ensures output[..index + 5] == old(output[..index]) + Frame(input[i..i + 4])
    ensures forall j :: index + 5 <= j < output.Length ==> output[j] == old(output[j])
  {
    hide Xor;
    output[index] := input[i];
    output[index + 1] := input[i + 1];
    output[index + 2] := input[i + 2];
    output[index + 3] := input[i + 3];
    output[index + 4] := input[i] ^ input[i + 1] ^ input[i + 2] ^ input[i + 3] ^ 0xFF;
    FourXor(input[i..i + 4]);
  }

  /** The loop of the four-byte mode. */
  method ConvertFours(input: array<bv8>, inputSize: int32, output: array<bv8>, outputSize: int32) returns (index: int)
    requires inputSize <= input.Length && outputSize <= output.Length && input != output
    modifies output
    ensures var k := Whole(inputSize, outputSize, 4);
      && index == 5 * k <= output.Length && 4 * k <= input.Length
      && output[..index] == Framed(input[..], 4, k)
    ensures forall j :: index <= j < output.Length ==> output[j] == old(output[j])
  {
    hide Frame, Framed, Whole;
    index := 0;
    ghost var k := 0;
    WholeMeaning(inputSize, outputSize, 4);
    NoFrames(input[..], 4);
    var i := 0;
    while i <= inputSize - 4
      invariant i == 4 * k && index == 5 * k && k <= Whole(inputSize, outputSize, 4)
      invariant index <= output.Length && i <= input.Length
      invariant output[..index] == Framed(input[..], 4, k)
      invariant forall j :: index <= j < output.Length ==> output[j] == old(output[j])
    {
      if index > outputSize - 5 {
        break;
      }
      ghost var before := output[..index];
      PutFour(input, i, output, index);
      OneMoreFrame(input[..], 4, k, before, output[..index + 5]);
      index := index + 5;
      i := i + 4;
      k := k + 1;
    }
  }

  method PutTwo(input: array<bv8>, i: nat, output: array<bv8>, index: nat)
    requires i + 2 <= input.Length && index + 3 <= output.Length && input != output
    modifies output
    ensures output[..index + 3] == old(output[..index]) + Frame(input[i..i + 2])
    ensures forall j :: index + 3 <= j < output.Length ==> output[j] == old(output[j])
  {
    hide Xor;
    output[index] := input[i];
    output[index + 1] := input[i + 1];
    output[index + 2] := input[i] ^ input[i + 1] ^ 0xFF;
    TwoXor(input[i..i + 2]);
  }

  /** The loop of the two-byte mode. */
  method ConvertTwos(input: array<bv8>, inputSize: int32, output: array<bv8>, outputSize: int32) returns (index: int)
    requires inputSize <= input.Length && outputSize <= output.Length && input != output
    modifies output
    ensures var k := Whole(inputSize, outputSize, 2);
      && index == 3 * k <= output.Length && 2 * k <= input.Length
      && output[..index] == Framed(input[..], 2, k)
    ensures forall j :: index <= j < output.Length ==> output[j] == old(output[j])
  {
    hide Frame, Framed, Whole;
    index := 0;
    ghost var k := 0;
    WholeMeaning(inputSize, outputSize, 2);
    NoFrames(input[..], 2);
    var i := 0;
    while i <= inputSize - 2
      invariant i == 2 * k && index == 3 * k && k <= Whole(inputSize, outputSize, 2)
      invariant index <= output.Length && i <= input.Length
      invariant output[..index] == Framed(input[..], 2, k)
      invariant forall j :: index <= j < output.Length ==> output[j] == old(output[j])
    {
      if index > outputSize - 3 {
        break;
      }
      ghost var before := output[..index];
      PutTwo(input, i, output, index);
      OneMoreFrame(input[..], 2, k, before, output[..index + 3]);
      index := index + 3;
      i := i + 2;
      k := k + 1;
    }
  }

  method Convert(input: array<bv8>, inputSize: int32, output: array<bv8>, outputSize: int32,
                 mode: int) returns (index: int)
    requires inputSize <= input.Length && outputSize <= output.Length && input != output
    modifies output
    ensures var unit, k := Unit(mode), FrameCount(inputSize, outputSize, mode);
      && index == (unit + 1) * k <= output.Length && unit * k <= input.Length
      && output[..index] == Framed(input[..], unit, k)
    ensures forall j :: index <= j < output.Length ==> output[j] == old(output[j])
  {
    hide ToInt32, TruncDiv, Xor, Framed, Whole;
    index := 0;
    NoFrames(input[..], Unit(mode));
    if mode == FOUR_BYTES && outputSize >= TruncDiv(ToInt32(inputSize * 5), 4) {
      index := ConvertFours(input, inputSize, output, outputSize);
    } else if mode == TWO_BYTES && outputSize >= TruncDiv(ToInt32(inputSize * 3), 2) {
      index := ConvertTwos(input, inputSize, output, outputSize);
    }
  }

  lemma NoFrames(input: seq<bv8>, unit: nat)
    ensures unit * 0 == 0 && Framed(input, unit, 0) == []
  {
  }

  /** The count as the bounds that end the loops. */
  lemma WholeMeaning(inputSize: int32, outputSize: int32, unit: nat)
    requires unit in {2, 4}
    ensures forall j: nat :: j < Whole(inputSize, outputSize, unit) <==>
      unit * j <= inputSize - unit && (unit + 1) * j <= outputSize - (unit + 1)
  {
  }

  lemma OneMoreFrame(input: seq<bv8>, unit: nat, k: nat, before: seq<bv8>, after: seq<bv8>)
    requires unit * k + unit <= |input| && unit * (k + 1) <= |input|
    requires before == Framed(input, unit, k)
    requires after == before + Frame(input[unit * k..unit * k + unit])
    ensures after == Framed(input, unit, k + 1)
  {
    assert unit * (k + 1) == unit * k + unit;
  }

  lemma XorNext(s: seq<bv8>, b: bv8)
    ensures Xor(s + [b]) == Xor(s) ^ b
  {
    assert (s + [b])[..|s|] == s;
  }

  lemma XorZero(b: bv8)
    ensures Xor([b]) == b
  {
    assert [b][..0] == [];
  }

  lemma TwoXor(s: seq<bv8>)
    requires |s| == 2
    ensures Frame(s) == [s[0], s[1], s[0] ^ s[1] ^ 0xFF]
  {
    hide Xor;
    assert s == [s[0]] + [s[1]];
    XorZero(s[0]);
    XorNext([s[0]], s[1]);
  }

  lemma FourXor(s: seq<bv8>)
    requires |s| == 4
    ensures Frame(s) == [s[0], s[1], s[2], s[3], s[0] ^ s[1] ^ s[2] ^ s[3] ^ 0xFF]
  {
    hide Xor;
    assert s == [s[0]] + [s[1]] + [s[2]] + [s[3]];
    XorZero(s[0]);
    XorNext([s[0]], s[1]);
    XorNext([s[0]] + [s[1]], s[2]);
    XorNext([s[0]] + [s[1]] + [s[2]], s[3]);
  }

  // ---------------------------------------------------------------- nothing is left out

  /** What the line carries for a whole call. */
  predicate Complete(inputSize: int32, outputSize: int32, mode: int) {
    FrameCount(inputSize, outputSize, mode) == Max(0, inputSize) / Unit(mode)
  }

  predicate Passes(inputSize: int32, outputSize: int32, mode: int) {
    || (mode == FOUR_BYTES && outputSize >= TruncDiv(ToInt32(inputSize * 5), 4))
    || (mode == TWO_BYTES && outputSize >= TruncDiv(ToInt32(inputSize * 3), 2))
  }

  lemma WholeUnits(inputSize: int32, mode: int)
    ensures Unit(mode) * (Max(0, inputSize) / Unit(mode)) <= Max(0, inputSize)
    ensures inputSize <= 0 ==> Max(0, inputSize) / Unit(mode) == 0
  {
  }

  /** Once the capacity test passes, the break is never taken exactly when the output has room for
      every whole unit and its checksum. */
  lemma CompleteExactly(inputSize: int32, outputSize: int32, mode: int)
    requires Passes(inputSize, outputSize, mode)
    ensures Complete(inputSize, outputSize, mode) <==>
      inputSize <= 0 || (Unit(mode) + 1) * (inputSize / Unit(mode)) <= outputSize
  {
    hide ToInt32, TruncDiv;
    LessThanUnit(inputSize, outputSize, mode);
  }

  lemma LessThanUnit(inputSize: int32, outputSize: int32, mode: int)
    requires Passes(inputSize, outputSize, mode)
    ensures 0 <= inputSize < Unit(mode) ==> outputSize >= 0
  {
  }

  /** A test without overflow implies that much room. */
  lemma PassingHasRoom(inputSize: int32, outputSize: int32, mode: int)
    requires Passes(inputSize, outputSize, mode) && FitsInt32(inputSize * (Unit(mode) + 1))
    ensures inputSize <= 0 || (Unit(mode) + 1) * (inputSize / Unit(mode)) <= outputSize
  {
  }

  /** What arrives: with that much room every whole unit of the input goes out and the decoder gets
      all of them back, and without it the call reports fewer, with no error. */
  lemma SentExactly(input: seq<bv8>, inputSize: int32, outputSize: int32, mode: int)
    requires Passes(inputSize, outputSize, mode) && inputSize <= |input|
    ensures var unit, sent := Unit(mode), FrameCount(inputSize, outputSize, mode);
            var whole := Max(0, inputSize) / Unit(mode);
      && sent <= whole && unit * sent <= |input|
      && Decode(Framed(input, unit, sent), unit, sent) == Some(input[..unit * sent])
      && (sent == whole <==> inputSize <= 0 || (unit + 1) * (inputSize / unit) <= outputSize)
  {
    hide Decode, Framed, ToInt32, TruncDiv;
    var unit, sent := Unit(mode), FrameCount(inputSize, outputSize, mode);
    CompleteExactly(inputSize, outputSize, mode);
    WholeUnits(inputSize, mode);
    MulMono(unit, sent, unit, Max(0, inputSize) / unit);
    RoundTrip(input, unit, sent);
  }

  /** When the test passes without overflow everything arrives. */
  lemma PassingTestIsComplete(inputSize: int32, outputSize: int32, mode: int)
    requires Passes(inputSize, outputSize, mode) && FitsInt32(inputSize * (Unit(mode) + 1))
    ensures Complete(inputSize, outputSize, mode)
  {
    hide Passes, Complete;
    CompleteExactly(inputSize, outputSize, mode);
    PassingHasRoom(inputSize, outputSize, mode);
  }

  /** With 2^30 bytes the product wraps: a quarter of the room needed passes the test, and what
      does not fit is dropped without a word. */
  lemma OverflowingTestTruncates()
    ensures Passes(0x4000_0000, 0x1000_0000, FOUR_BYTES) && !Complete(0x4000_0000, 0x1000_0000, FOUR_BYTES)
  {
    hide Complete;
    CompleteExactly(0x4000_0000, 0x1000_0000, FOUR_BYTES);
  }

  /** A failing test, or a mode that is neither, sends nothing at all. */
  lemma NothingSent(inputSize: int32, outputSize: int32, mode: int)
    requires !Passes(inputSize, outputSize, mode)
    ensures FrameCount(inputSize, outputSize, mode) == 0
  {
  }

  /** For an input whose size does not overflow the test is the one it is meant to be: it fails
      exactly for an unknown mode, or when the output is smaller than five quarters of the input,
      or three halves, rounded down. */
  lemma TestExact(inputSize: int32, outputSize: int32, mode: int)
    requires 0 <= inputSize && 5 * inputSize < 0x8000_0000 && outputSize >= 0
    ensures Passes(inputSize, outputSize, mode) <==>
      || (mode == 1 && 4 * outputSize + 3 >= 5 * inputSize)
      || (mode == 0 && 2 * outputSize + 1 >= 3 * inputSize)
  {
    KeptInt32(inputSize * 5);
    KeptInt32(inputSize * 3);
  }
}
