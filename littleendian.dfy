/**
 * Little-endian decoding and encoding of the 16- and 32-bit header fields,
 * as a little-endian host lays them out in memory when `fread` and `fwrite`
 * copy them.
 */
module LittleEndian {
  import opened CArith

  function DecodeU16(b: seq<Byte>): U16
    requires |b| == 2
  {
    b[0] as int + 0x100 * b[1] as int
  }

  function EncodeU16(x: U16): (b: seq<Byte>)
    ensures |b| == 2
  {
    [x % 0x100, x / 0x100]
  }

  lemma DecodeEncodeU16(x: U16)
    ensures DecodeU16(EncodeU16(x)) == x
  {
  }

  lemma EncodeDecodeU16(b: seq<Byte>)
    requires |b| == 2
    ensures EncodeU16(DecodeU16(b)) == b
  {
  }

  /** Four bytes: the low half first. */
  function DecodeU32(b: seq<Byte>): U32
    requires |b| == 4
  {
    DecodeU16(b[..2]) as int + 0x1_0000 * DecodeU16(b[2..]) as int
  }

  function EncodeU32(x: U32): (b: seq<Byte>)
    ensures |b| == 4
  {
    EncodeU16(x % 0x1_0000) + EncodeU16(x / 0x1_0000)
  }

  lemma DecodeEncodeU32(x: U32)
    ensures DecodeU32(EncodeU32(x)) == x
  {
    var b := EncodeU32(x);
    assert b[..2] == EncodeU16(x % 0x1_0000) && b[2..] == EncodeU16(x / 0x1_0000);
    DecodeEncodeU16(x % 0x1_0000);
    DecodeEncodeU16(x / 0x1_0000);
  }

  lemma EncodeDecodeU32(b: seq<Byte>)
    requires |b| == 4
    ensures EncodeU32(DecodeU32(b)) == b
  {
    var lo, hi := DecodeU16(b[..2]), DecodeU16(b[2..]);
    assert DecodeU32(b) % 0x1_0000 == lo && DecodeU32(b) / 0x1_0000 == hi;
    EncodeDecodeU16(b[..2]);
    EncodeDecodeU16(b[2..]);
    assert b == b[..2] + b[2..];
  }

  /** A signed field: the two's-complement reading of the same four bytes. */
  function DecodeI32(b: seq<Byte>): (x: I32)
    requires |b| == 4
    ensures ToU32(x) == DecodeU32(b)
  {
    var u := DecodeU32(b);
    if u < 0x8000_0000 then u else u - TwoTo32
  }

  function EncodeI32(x: I32): (b: seq<Byte>)
    ensures |b| == 4
  {
    EncodeU32(ToU32(x))
  }

  lemma DecodeEncodeI32(x: I32)
    ensures DecodeI32(EncodeI32(x)) == x
  {
    DecodeEncodeU32(ToU32(x));
  }

  lemma EncodeDecodeI32(b: seq<Byte>)
    requires |b| == 4
    ensures EncodeI32(DecodeI32(b)) == b
  {
    EncodeDecodeU32(b);
  }
}
