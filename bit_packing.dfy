/**
 * Bit packing (`writeBits`) and unpacking (`readBits`). The `ofstream`/`ifstream` parameters of the
 * source become byte sequences: the bytes `writeBits` puts, and the bytes `readBits` gets.
 */
module BitPacking {
  import opened Bytes

  function Pow2(n: nat): (p: nat)
    ensures p >= 1
  {
    if n == 0 then 1 else 2 * Pow2(n - 1)
  }

  /** The number a bit string denotes, most significant bit first; it fits in as many bits as it has. */
  function Value(bits: seq<Bit>): (v: nat)
    ensures v < Pow2(|bits|)
  {
    if bits == [] then 0 else 2 * Value(bits[..|bits| - 1]) + bits[|bits| - 1]
  }

  function Zeros(n: nat): (z: seq<Bit>)
    ensures |z| == n && forall i :: 0 <= i < n ==> z[i] == 0
  {
    seq(n, _ => 0)
  }

  /** The number of zero bits that fill the last byte: none when the length is a multiple of 8. */
  function PadLength(n: nat): nat
  {
    (8 - n % 8) % 8
  }

  /** The bit string with zero bits appended up to the next multiple of 8. */
  function Pad(bits: seq<Bit>): (p: seq<Bit>)
    ensures |p| == 8 * ((|bits| + 7) / 8)
    ensures bits <= p
  {
    bits + Zeros(PadLength(|bits|))
  }

  /** Bits 8k to 8k+7 of a bit string. */
  function Chunk(s: seq<Bit>, k: nat): seq<Bit>
    requires 8 * k + 8 <= |s|
  {
    s[8 * k .. 8 * k + 8]
  }

  /** `bitset<8>(byte).to_string()` for n = 8: the n low bits of v, most significant first. */
  function BitsOf(v: nat, n: nat): (s: seq<Bit>)
    ensures |s| == n
  {
    if n == 0 then [] else BitsOf(v / 2, n - 1) + [v % 2]
  }

  lemma {:induction false} ValueOfBitsOf(v: nat, n: nat)
    requires v < Pow2(n)
    ensures Value(BitsOf(v, n)) == v
  {
    if n > 0 {
      ValueOfBitsOf(v / 2, n - 1);
      assert BitsOf(v, n)[..n - 1] == BitsOf(v / 2, n - 1);
    }
  }

  lemma {:induction false} BitsOfValue(s: seq<Bit>)
    ensures BitsOf(Value(s), |s|) == s
  {
    if s != [] {
      var init := s[..|s| - 1];
      BitsOfValue(init);
      assert Value(s) / 2 == Value(init) && Value(s) % 2 == s[|s| - 1];
      assert s == init + [s[|s| - 1]];
    }
  }

  /** Shifting left by n (`bitBuffer <<= n`) is appending n zero bits. */
  lemma {:induction false} ValueZeros(s: seq<Bit>, n: nat)
    ensures Value(s + Zeros(n)) == Value(s) * Pow2(n)
  {
    if n == 0 {
      assert s + Zeros(0) == s;
    } else {
      var t := s + Zeros(n);
      assert t[..|t| - 1] == s + Zeros(n - 1);
      assert t[|t| - 1] == 0;
      ValueZeros(s, n - 1);
      assert Value(t) == 2 * Value(s + Zeros(n - 1));
      MulAssoc(Value(s), Pow2(n - 1));
    }
  }

  /** Kept apart from `ValueZeros`: the product regrouping is cheap on its own and costly there. */
  lemma MulAssoc(a: nat, b: nat)
    ensures 2 * (a * b) == a * (2 * b)
  {
  }

  /** The bytes a bit string packs to: one byte per 8 bits, most significant bit first, the last
      byte filled with zero bits in its low positions. */
  predicate PackedForm(bits: seq<Bit>, bytes: seq<Byte>)
  {
    && |bytes| == (|bits| + 7) / 8
    && forall k :: 0 <= k < |bytes| ==> bytes[k] == Value(Chunk(Pad(bits), k))
  }

  /** `readBits`'s result: every byte expanded to its 8 bits, in order. */
  function Unpack(bytes: seq<Byte>): (bits: seq<Bit>)
    ensures |bits| == 8 * |bytes|
  {
    if bytes == [] then [] else Unpack(bytes[..|bytes| - 1]) + BitsOf(bytes[|bytes| - 1], 8)
  }

  lemma {:induction false} UnpackAt(bytes: seq<Byte>, k: nat)
    requires k < |bytes|
    ensures Chunk(Unpack(bytes), k) == BitsOf(bytes[k], 8)
  {
    var init := bytes[..|bytes| - 1];
    if k < |bytes| - 1 {
      UnpackAt(init, k);
      assert init[k] == bytes[k];
    }
  }

  /** Two bit strings of 8n bits that agree byte by byte are equal. */
  lemma ChunksEqual(s: seq<Bit>, t: seq<Bit>, n: nat)
    requires |s| == |t| == 8 * n
    requires forall k :: 0 <= k < n ==> Chunk(s, k) == Chunk(t, k)
    ensures s == t
  {
    forall j | 0 <= j < |s|
      ensures s[j] == t[j]
    {
      var k := j / 8;
      assert Chunk(s, k)[j - 8 * k] == s[j];
      assert Chunk(t, k)[j - 8 * k] == t[j];
    }
  }

  /** Round trip: unpacking the packed bytes gives the bits followed by the zero padding. */
  lemma UnpackPacked(bits: seq<Bit>, bytes: seq<Byte>)
    requires PackedForm(bits, bytes)
    ensures Unpack(bytes) == Pad(bits)
  {
    forall k | 0 <= k < |bytes|
      ensures Chunk(Unpack(bytes), k) == Chunk(Pad(bits), k)
    {
      UnpackAt(bytes, k);
      BitsOfValue(Chunk(Pad(bits), k));
    }
    ChunksEqual(Unpack(bytes), Pad(bits), |bytes|);
  }

  /** The other round trip: packing what `readBits` returns gives back the bytes read. */
  lemma PackUnpacked(bytes: seq<Byte>)
    ensures Pad(Unpack(bytes)) == Unpack(bytes)
    ensures PackedForm(Unpack(bytes), bytes)
  {
    var bits := Unpack(bytes);
    assert PadLength(|bits|) == 0;
    assert Pad(bits) == bits;
    forall k | 0 <= k < |bytes|
      ensures bytes[k] == Value(Chunk(Pad(bits), k))
    {
      UnpackAt(bytes, k);
      assert Pow2(8) == 256;
      ValueOfBitsOf(bytes[k], 8);
    }
  }

  /** `writeBits`: shifts each bit into `bitBuffer`, emits it every 8 bits, and left-aligns the last
      partial byte. The bytes put are the packed form of the bits, so reading them back gives the
      bits followed by zero padding. */
  method WriteBits(bits: seq<Bit>) returns (output: seq<Byte>)
    ensures PackedForm(bits, output)
    ensures Unpack(output) == Pad(bits)
  {
    var bitBuffer, bitCount;
    output, bitBuffer, bitCount := ShiftInBits(bits);
    ghost var full := output;
    if bitCount > 0 {
      LastBytePacked(bits, |output|, bitBuffer, 8 - bitCount);
      bitBuffer := bitBuffer * Pow2(8 - bitCount);
      output := output + [bitBuffer];
      assert (8 * (|full| + 1) + (8 - bitCount - 1)) / 8 == |full| + 1;
    } else {
      assert (8 * |full| + 7) / 8 == |full|;
    }
    assert forall k :: 0 <= k < |full| ==> output[k] == full[k];
    UnpackPacked(bits, output);
  }

  /** The loop of `writeBits`: every complete group of 8 bits is emitted as a byte; the bits of an
      incomplete last group are left in `bitBuffer`, `bitCount` of them. */
  method ShiftInBits(bits: seq<Bit>) returns (output: seq<Byte>, bitBuffer: nat, bitCount: nat)
    ensures bitCount < 8 && 8 * |output| + bitCount == |bits|
    ensures bitBuffer == Value(bits[8 * |output| ..])
    ensures forall k :: 0 <= k < |output| ==> output[k] == Value(Chunk(Pad(bits), k))
  {
    output := [];
    bitBuffer := 0;
    bitCount := 0;
    assert Pow2(8) == 256;
    for i := 0 to |bits|
      invariant 0 <= bitCount < 8 && 8 * |output| + bitCount == i
      invariant bitBuffer == Value(bits[8 * |output| .. i])
      invariant forall k :: 0 <= k < |output| ==> output[k] == Value(bits[8 * k .. 8 * k + 8])
    {
      ShiftInOne(bits, 8 * |output|, i);
      bitBuffer := bitBuffer * 2 + bits[i];
      bitCount := bitCount + 1;
      if bitCount == 8 {
        output := output + [bitBuffer];
        bitBuffer := 0;
        bitCount := 0;
      }
    }
    assert bits[8 * |output| .. |bits|] == bits[8 * |output| ..];
    FullBytesPacked(bits, output);
  }

  /** Shifting one more bit into the buffer: `bitBuffer = (bitBuffer << 1) | bit`. */
  lemma ShiftInOne(bits: seq<Bit>, from: nat, i: nat)
    requires from <= i < |bits|
    ensures Value(bits[from .. i + 1]) == 2 * Value(bits[from .. i]) + bits[i]
  {
    var run := bits[from .. i + 1];
    assert run[..|run| - 1] == bits[from .. i];
  }

  /** The bytes emitted inside the loop are the packed form's full bytes. */
  lemma FullBytesPacked(bits: seq<Bit>, out: seq<Byte>)
    requires 8 * |out| <= |bits|
    requires forall k :: 0 <= k < |out| ==> out[k] == Value(bits[8 * k .. 8 * k + 8])
    ensures forall k :: 0 <= k < |out| ==> out[k] == Value(Chunk(Pad(bits), k))
  {
    forall k | 0 <= k < |out|
      ensures out[k] == Value(Chunk(Pad(bits), k))
    {
      assert Chunk(Pad(bits), k) == bits[8 * k .. 8 * k + 8];
    }
  }

  /** The byte emitted after the loop is the packed form's last, zero-filled byte. */
  lemma LastBytePacked(bits: seq<Bit>, full: nat, buffer: nat, shift: nat)
    requires 8 * full < |bits| < 8 * full + 8
    requires shift == 8 * full + 8 - |bits|
    requires buffer == Value(bits[8 * full ..])
    ensures buffer * Pow2(shift) == Value(Chunk(Pad(bits), full)) < 256
  {
    assert Pow2(8) == 256;
    var tail := bits[8 * full ..];
    ValueZeros(tail, shift);
    assert Chunk(Pad(bits), full) == tail + Zeros(shift);
  }

  /** `readBits`: appends the 8 bits of every byte read, in order. */
  method ReadBits(input: seq<Byte>) returns (bits: seq<Bit>)
    ensures bits == Unpack(input)
    ensures forall k :: 0 <= k < |input| ==> Chunk(bits, k) == BitsOf(input[k], 8)
  {
    bits := [];
    for i := 0 to |input|
      invariant bits == Unpack(input[..i])
    {
      assert input[..i + 1][..i] == input[..i];
      bits := bits + BitsOf(input[i], 8);
    }
    assert input[..|input|] == input;
    forall k | 0 <= k < |input|
      ensures Chunk(bits, k) == BitsOf(input[k], 8)
    {
      UnpackAt(input, k);
    }
  }
}
