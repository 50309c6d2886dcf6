/** Little-endian 32-bit integers in byte buffers: what a cast between `int*` and `char*` does
    on the configured host. */
module Bytes {

  type Byte = b: int | 0 <= b < 256
  type Int32 = x: int | -0x8000_0000 <= x < 0x8000_0000

  function Unsigned(x: Int32): (u: nat)
    ensures u < 0x1_0000_0000
  {
    if x < 0 then x + 0x1_0000_0000 else x
  }

  function Signed(u: nat): Int32
    requires u < 0x1_0000_0000
  {
    if u < 0x8000_0000 then u else u - 0x1_0000_0000
  }

  function Encode32(x: Int32): (b: seq<Byte>)
    ensures |b| == 4
  {
    var u := Unsigned(x);
    [u % 256, u / 0x100 % 256, u / 0x1_0000 % 256, u / 0x100_0000]
  }

  function Decode32(b: seq<Byte>): Int32
    requires |b| == 4
  {
    var b0: int, b1: int, b2: int, b3: int := b[0], b[1], b[2], b[3];
    Signed(b0 + 0x100 * b1 + 0x1_0000 * b2 + 0x100_0000 * b3)
  }

  lemma RoundTrip32(x: Int32)
    ensures Decode32(Encode32(x)) == x
  {
    var u := Unsigned(x);
    assert u / 0x100 == u / 0x1_0000 * 256 + u / 0x100 % 256;
    assert u / 0x1_0000 == u / 0x100_0000 * 256 + u / 0x1_0000 % 256;
  }

  lemma DecodeEncode32(b: seq<Byte>)
    requires |b| == 4
    ensures Encode32(Decode32(b)) == b
  {
    var b0: int, b1: int, b2: int, b3: int := b[0], b[1], b[2], b[3];
    var high := b2 + 0x100 * b3;
    var u := b0 + 0x100 * (b1 + 0x100 * high);
    assert Unsigned(Decode32(b)) == u;
    assert u / 0x100 == b1 + 0x100 * high;
    assert u / 0x1_0000 == high;
    assert u / 0x100_0000 == b3;
  }

  // An array of ints seen as bytes.
  function EncodeInts(xs: seq<Int32>): (b: seq<Byte>)
    ensures |b| == 4 * |xs|
  {
    if xs == [] then [] else Encode32(xs[0]) + EncodeInts(xs[1..])
  }

  lemma {:induction false} EncodeIntsAt(xs: seq<Int32>, i: nat)
    requires i < |xs|
    ensures EncodeInts(xs)[4 * i..4 * i + 4] == Encode32(xs[i])
  {
    if i > 0 {
      EncodeIntsAt(xs[1..], i - 1);
      var b := EncodeInts(xs[1..]);
      assert EncodeInts(xs)[4 * i..4 * i + 4] == b[4 * (i - 1)..4 * (i - 1) + 4];
    }
  }

  // A sector number below 1024 is read back from its first byte, as a signed char, exactly
  // when it is below 128.
  function SignedByte(b: Byte): int {
    if b < 128 then b else b - 256
  }

  lemma LowByteIff(x: Int32)
    requires 0 <= x < 1024
    ensures SignedByte(Encode32(x)[0]) == x <==> x < 128
  {
  }
}
