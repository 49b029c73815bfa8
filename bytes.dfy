/** The byte-level encodings the filter's persisted form is built from:
    unsigned little-endian integers (the `Q` fields of the `<dQQQQ` header)
    and the packing of a little-endian bit array into bytes, bit `j` of the
    array being bit `j % 8` (counted from the least significant) of byte `j / 8`. */
module Bytes {

  type byte = x: int | 0 <= x < 256

  /** An IEEE-754 double kept as its eight bytes; its value is never interpreted. */
  type Double = s: seq<byte> | |s| == 8 witness [0, 0, 0, 0, 0, 0, 0, 0]

  function Pow2(k: nat): (r: nat)
    ensures r >= 1
  {
    if k == 0 then 1 else 2 * Pow2(k - 1)
  }

  function Pow256(w: nat): (r: nat)
    ensures r >= 1
  {
    if w == 0 then 1 else 256 * Pow256(w - 1)
  }

  // ---------------------------------------------------------------------------
  // Unsigned little-endian integers

  /** The `w` low-order bytes of `x`, least significant first. */
  function LittleEndian(x: nat, w: nat): (r: seq<byte>)
    ensures |r| == w
  {
    if w == 0 then [] else [x % 256] + LittleEndian(x / 256, w - 1)
  }

  /** The unsigned integer whose little-endian bytes are `bs`. */
  function LittleEndianValue(bs: seq<byte>): (x: nat)
    ensures x < Pow256(|bs|)
  {
    if bs == [] then 0 else bs[0] + 256 * LittleEndianValue(bs[1..])
  }

  /** Decoding the `w` bytes of a value that fits in them gives the value back. */
  lemma {:induction false} LittleEndianRoundTrip(x: nat, w: nat)
    requires x < Pow256(w)
    ensures LittleEndianValue(LittleEndian(x, w)) == x
  {
    if w > 0 {
      assert x / 256 < Pow256(w - 1);
      LittleEndianRoundTrip(x / 256, w - 1);
      assert LittleEndian(x, w)[1..] == LittleEndian(x / 256, w - 1);
    }
  }

  /** Every byte string is the encoding of its own value. */
  lemma {:induction false} LittleEndianOfValue(bs: seq<byte>)
    ensures LittleEndian(LittleEndianValue(bs), |bs|) == bs
  {
    if bs != [] {
      var v := LittleEndianValue(bs[1..]);
      assert (bs[0] + 256 * v) % 256 == bs[0];
      assert (bs[0] + 256 * v) / 256 == v;
      LittleEndianOfValue(bs[1..]);
    }
  }

  // ---------------------------------------------------------------------------
  // Bits of a number

  /** Bit `k` of `x`, counted from the least significant. */
  function BitOf(x: nat, k: nat): (b: bool)
  {
    if k == 0 then x % 2 == 1 else BitOf(x / 2, k - 1)
  }

  /** The `w` low-order bits of `x`, least significant first. */
  function ToBits(x: nat, w: nat): (r: seq<bool>)
    ensures |r| == w
    ensures forall k :: 0 <= k < w ==> r[k] == BitOf(x, k)
  {
    if w == 0 then [] else [x % 2 == 1] + ToBits(x / 2, w - 1)
  }

  /** The number whose bits, least significant first, are `b`. */
  function FromBits(b: seq<bool>): (x: nat)
    ensures x < Pow2(|b|)
  {
    if b == [] then 0 else (if b[0] then 1 else 0) + 2 * FromBits(b[1..])
  }

  lemma {:induction false} FromToBits(x: nat, w: nat)
    requires x < Pow2(w)
    ensures FromBits(ToBits(x, w)) == x
  {
    if w > 0 {
      FromToBits(x / 2, w - 1);
      assert ToBits(x, w)[1..] == ToBits(x / 2, w - 1);
    }
  }

  lemma {:induction false} ToFromBits(b: seq<bool>)
    ensures ToBits(FromBits(b), |b|) == b
  {
    if b != [] {
      var v := FromBits(b[1..]);
      var d := if b[0] then 1 else 0;
      assert (d + 2 * v) % 2 == d;
      assert (d + 2 * v) / 2 == v;
      ToFromBits(b[1..]);
    }
  }

  // ---------------------------------------------------------------------------
  // A little-endian bit array and its bytes

  /** The bits of `bytes`, eight per byte, least significant bit first: what
      reading bytes into a little-endian bit array appends to it. */
  function Unpack(bytes: seq<byte>): (r: seq<bool>)
    ensures |r| == 8 * |bytes|
  {
    if bytes == [] then [] else ToBits(bytes[0], 8) + Unpack(bytes[1..])
  }

  lemma {:induction false} UnpackAppend(a: seq<byte>, b: seq<byte>)
    ensures Unpack(a + b) == Unpack(a) + Unpack(b)
  {
    if a != [] {
      assert (a + b)[1..] == a[1..] + b;
      UnpackAppend(a[1..], b);
    } else {
      assert a + b == b;
    }
  }

  /** Bit `j` of the unpacked array is bit `j % 8` of byte `j / 8`. */
  lemma {:induction false} UnpackAt(bytes: seq<byte>, j: nat)
    requires j < 8 * |bytes|
    ensures Unpack(bytes)[j] == BitOf(bytes[j / 8], j % 8)
  {
    if j >= 8 {
      UnpackAt(bytes[1..], j - 8);
      assert (j - 8) / 8 == j / 8 - 1 && (j - 8) % 8 == j % 8;
    }
  }

  /** How many zero bits fill the last byte of an `n`-bit array. */
  function PadLength(n: nat): (p: nat)
    ensures p < 8 && (n + p) % 8 == 0
  {
    (8 - n % 8) % 8
  }

  /** `bits` followed by zero bits up to a whole number of bytes. */
  function Padded(bits: seq<bool>): (r: seq<bool>)
    ensures |r| % 8 == 0 && |bits| <= |r| < |bits| + 8
    ensures r[..|bits|] == bits
    ensures forall j :: |bits| <= j < |r| ==> !r[j]
  {
    bits + seq(PadLength(|bits|), _ => false)
  }

  lemma PaddedWhole(bits: seq<bool>)
    requires |bits| % 8 == 0
    ensures Padded(bits) == bits
  {
  }

  /** The bytes of a bit array that fills whole bytes. */
  function PackWhole(bits: seq<bool>): (r: seq<byte>)
    requires |bits| % 8 == 0
    ensures 8 * |r| == |bits|
    decreases |bits|
  {
    if bits == [] then []
    else
      assert Pow2(8) == 256;
      [FromBits(bits[..8])] + PackWhole(bits[8..])
  }

  /** The bytes of a little-endian bit array, the last one padded with zero bits. */
  function Pack(bits: seq<bool>): (r: seq<byte>)
    ensures |r| == (|bits| + 7) / 8
  {
    PackWhole(Padded(bits))
  }

  lemma {:induction false} UnpackPackWhole(bits: seq<bool>)
    requires |bits| % 8 == 0
    ensures Unpack(PackWhole(bits)) == bits
    decreases |bits|
  {
    if bits != [] {
      ToFromBits(bits[..8]);
      UnpackPackWhole(bits[8..]);
      assert bits == bits[..8] + bits[8..];
    }
  }

  lemma {:induction false} PackWholeUnpack(bytes: seq<byte>)
    ensures PackWhole(Unpack(bytes)) == bytes
  {
    if bytes != [] {
      var u := Unpack(bytes);
      assert Pow2(8) == 256;
      assert u[..8] == ToBits(bytes[0], 8);
      assert u[8..] == Unpack(bytes[1..]);
      FromToBits(bytes[0], 8);
      PackWholeUnpack(bytes[1..]);
    }
  }

  /** Unpacking the packed bytes gives the bits back, followed by the padding. */
  lemma UnpackPack(bits: seq<bool>)
    ensures Unpack(Pack(bits)) == Padded(bits)
  {
    UnpackPackWhole(Padded(bits));
  }

  /** Packing the bits of whole bytes gives the bytes back. */
  lemma PackUnpack(bytes: seq<byte>)
    ensures Pack(Unpack(bytes)) == bytes
  {
    PaddedWhole(Unpack(bytes));
    PackWholeUnpack(bytes);
  }

  /** Bit `j` of the array is bit `j % 8` of packed byte `j / 8`, and every
      padding bit of the last byte is zero. */
  lemma PackAt(bits: seq<bool>, j: nat)
    requires j < 8 * |Pack(bits)|
    ensures BitOf(Pack(bits)[j / 8], j % 8) == (j < |bits| && bits[j])
  {
    UnpackPack(bits);
    UnpackAt(Pack(bits), j);
    if j < |bits| {
      assert Padded(bits)[..|bits|][j] == bits[j];
    }
  }
}
