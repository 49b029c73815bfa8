/** The persisted form of a filter: a 40-byte little-endian header laid out
    as `<dQQQQ` (the false-positive target as an 8-byte double, then the
    inserted count, the capacity, the bit-array length and the number of
    hash probes as unsigned 64-bit integers), followed by the bit array
    packed eight bits to a byte, least significant bit first. */
module Codec {
  import opened Bytes
  import opened FilterSpec

  datatype Error =
    | TruncatedHeader   // fewer than 40 bytes to unpack the header from
    | SizeMismatch      // the bits read disagree with the declared bit-array length
    | FieldOutOfRange   // a counter does not fit an unsigned 64-bit field

  datatype Result<V> = Ok(value: V) | Err(error: Error)

  const HeaderSize: nat := 40
  const U64Bound: nat := 0x1_0000_0000_0000_0000

  predicate FitsU64(x: nat)
  {
    x < U64Bound
  }

  function EncodeU64(x: nat): (r: seq<byte>)
    requires FitsU64(x)
    ensures |r| == 8
  {
    LittleEndian(x, 8)
  }

  function DecodeU64(bs: seq<byte>): (x: nat)
    requires |bs| == 8
    ensures FitsU64(x)
  {
    assert Pow256(8) == U64Bound;
    LittleEndianValue(bs)
  }

  /** An unsigned 64-bit field reads back as the value written. */
  lemma U64RoundTrip(x: nat)
    requires FitsU64(x)
    ensures DecodeU64(EncodeU64(x)) == x
  {
    assert Pow256(8) == U64Bound;
    LittleEndianRoundTrip(x, 8);
  }

  /** Any eight bytes are the encoding of the value they decode to. */
  lemma U64BytesRoundTrip(bs: seq<byte>)
    requires |bs| == 8
    ensures EncodeU64(DecodeU64(bs)) == bs
  {
    LittleEndianOfValue(bs);
  }

  /** The five header fields. */
  datatype Header = Header(fpProbability: Double, used: nat, size: nat, filterSize: nat, numHashes: nat)

  function HeaderOf(f: Filter): (h: Header)
  {
    Header(f.fpProbability, f.used, f.size, f.filterSize, f.numHashes)
  }

  /** The header can be packed: every unsigned field fits 64 bits. */
  predicate HeaderFits(h: Header)
  {
    FitsU64(h.used) && FitsU64(h.size) && FitsU64(h.filterSize) && FitsU64(h.numHashes)
  }

  function EncodeHeader(h: Header): (r: seq<byte>)
    requires HeaderFits(h)
    ensures |r| == HeaderSize
  {
    h.fpProbability + EncodeU64(h.used) + EncodeU64(h.size) + EncodeU64(h.filterSize) + EncodeU64(h.numHashes)
  }

  function DecodeHeader(bs: seq<byte>): (h: Header)
    requires |bs| == HeaderSize
    ensures HeaderFits(h)
  {
    Header(bs[..8], DecodeU64(bs[8..16]), DecodeU64(bs[16..24]), DecodeU64(bs[24..32]), DecodeU64(bs[32..40]))
  }

  /** Each field of an encoded header sits at its own offset. */
  lemma EncodeHeaderFields(h: Header)
    requires HeaderFits(h)
    ensures EncodeHeader(h)[..8] == h.fpProbability
    ensures EncodeHeader(h)[8..16] == EncodeU64(h.used)
    ensures EncodeHeader(h)[16..24] == EncodeU64(h.size)
    ensures EncodeHeader(h)[24..32] == EncodeU64(h.filterSize)
    ensures EncodeHeader(h)[32..40] == EncodeU64(h.numHashes)
  {
  }

  /** A header reads back as the header written. */
  lemma HeaderRoundTrip(h: Header)
    requires HeaderFits(h)
    ensures DecodeHeader(EncodeHeader(h)) == h
  {
    EncodeHeaderFields(h);
    U64RoundTrip(h.used);
    U64RoundTrip(h.size);
    U64RoundTrip(h.filterSize);
    U64RoundTrip(h.numHashes);
  }

  /** Any 40 bytes are the encoding of the header they decode to. */
  lemma HeaderBytesRoundTrip(bs: seq<byte>)
    requires |bs| == HeaderSize
    ensures EncodeHeader(DecodeHeader(bs)) == bs
  {
    U64BytesRoundTrip(bs[8..16]);
    U64BytesRoundTrip(bs[16..24]);
    U64BytesRoundTrip(bs[24..32]);
    U64BytesRoundTrip(bs[32..40]);
    assert bs == bs[..8] + bs[8..16] + bs[16..24] + bs[24..32] + bs[32..40];
  }

  /** The saved bytes of a filter: its header, then its packed bits. Packing
      fails when a counter does not fit its 64-bit field. */
  function Encode(f: Filter): (r: Result<seq<byte>>)
    ensures r.Ok? <==> HeaderFits(HeaderOf(f))
    ensures r.Ok? ==> |r.value| == HeaderSize + (|f.bits| + 7) / 8
  {
    if HeaderFits(HeaderOf(f)) then Ok(EncodeHeader(HeaderOf(f)) + Pack(f.bits)) else Err(FieldOutOfRange)
  }

  /** The bit counts a load accepts for a declared bit-array length: the
      length itself, or the length plus the distance to the next multiple of
      eight (which is a whole extra byte when the length already is one). */
  predicate LengthAccepted(nbits: nat, filterSize: nat)
  {
    nbits == filterSize || nbits == filterSize + (8 - filterSize % 8)
  }

  function Min(a: int, b: int): (r: int)
    ensures r <= a && r <= b && (r == a || r == b)
  {
    if a <= b then a else b
  }

  /** The bytes a load takes after the header: at most `n - 40` of them when
      the expected total `n` is at least 40, otherwise all that remain. */
  function ReadPayload(rest: seq<byte>, n: int): (r: seq<byte>)
    ensures r <= rest
    ensures n >= HeaderSize ==> |r| == Min(n - HeaderSize, |rest|)
    ensures n < HeaderSize ==> r == rest
  {
    if n >= HeaderSize then rest[..Min(n - HeaderSize, |rest|)] else rest
  }

  /** The filter a load of `data`, with expected total length `n`, builds:
      the header fields verbatim and the unpacked bits, provided the number
      of bits read is accepted for the declared bit-array length. */
  function Decode(data: seq<byte>, n: int): (r: Result<Filter>)
    ensures r.Ok? ==> LengthAccepted(|r.value.bits|, r.value.filterSize)
    ensures r.Ok? ==> |r.value.bits| % 8 == 0 && r.value.filterSize <= |r.value.bits|
    ensures r.Ok? ==> HeaderFits(HeaderOf(r.value))
    ensures r.Err? ==> r.error != FieldOutOfRange
  {
    if |data| < HeaderSize then Err(TruncatedHeader)
    else
      var h := DecodeHeader(data[..HeaderSize]);
      var payload := ReadPayload(data[HeaderSize..], n);
      if !LengthAccepted(8 * |payload|, h.filterSize) then Err(SizeMismatch)
      else Ok(Filter(h.fpProbability, h.used, h.size, h.filterSize, h.numHashes, Unpack(payload)))
  }

  /** The saved bytes split into the encoded header and the packed bits. */
  lemma EncodeParts(f: Filter)
    requires Encode(f).Ok?
    ensures |Encode(f).value| >= HeaderSize
    ensures DecodeHeader(Encode(f).value[..HeaderSize]) == HeaderOf(f)
    ensures Encode(f).value[HeaderSize..] == Pack(f.bits)
  {
    var out := Encode(f).value;
    assert out[..HeaderSize] == EncodeHeader(HeaderOf(f));
    HeaderRoundTrip(HeaderOf(f));
  }

  /** A load builds `f` when the header reads as `f`'s fields, the bytes
      read unpack to `f`'s bits and their number is accepted. */
  lemma DecodeBuilds(data: seq<byte>, n: int, f: Filter)
    requires |data| >= HeaderSize && DecodeHeader(data[..HeaderSize]) == HeaderOf(f)
    requires Unpack(ReadPayload(data[HeaderSize..], n)) == f.bits
    requires LengthAccepted(|f.bits|, f.filterSize)
    ensures Decode(data, n) == Ok(f)
  {
  }

  /** The saved header: the five fields at offsets 0, 8, 16, 24 and 32. */
  lemma EncodeHeaderLayout(f: Filter)
    requires HeaderFits(HeaderOf(f))
    ensures Encode(f).value[..8] == f.fpProbability
    ensures DecodeU64(Encode(f).value[8..16]) == f.used
    ensures DecodeU64(Encode(f).value[16..24]) == f.size
    ensures DecodeU64(Encode(f).value[24..32]) == f.filterSize
    ensures DecodeU64(Encode(f).value[32..40]) == f.numHashes
  {
    var out := Encode(f).value;
    var hb := out[..HeaderSize];
    EncodeParts(f);
    assert out[..8] == hb[..8];
    assert out[8..16] == hb[8..16];
    assert out[16..24] == hb[16..24];
    assert out[24..32] == hb[24..32];
    assert out[32..40] == hb[32..40];
  }

  /** The saved bits: bit `j` of the array is bit `j % 8` of byte
      `40 + j / 8`, and the padding bits of the last byte are zero. */
  lemma EncodeBitsLayout(f: Filter)
    requires HeaderFits(HeaderOf(f))
    ensures forall j :: 0 <= j < 8 * (|Encode(f).value| - HeaderSize) ==>
      BitOf(Encode(f).value[HeaderSize + j / 8], j % 8) == (j < |f.bits| && f.bits[j])
  {
    forall j | 0 <= j < 8 * (|Encode(f).value| - HeaderSize)
      ensures BitOf(Encode(f).value[HeaderSize + j / 8], j % 8) == (j < |f.bits| && f.bits[j])
    {
      EncodeBitAt(f, j);
    }
  }

  lemma EncodeBitAt(f: Filter, j: nat)
    requires HeaderFits(HeaderOf(f))
    requires j < 8 * (|Encode(f).value| - HeaderSize)
    ensures BitOf(Encode(f).value[HeaderSize + j / 8], j % 8) == (j < |f.bits| && f.bits[j])
  {
    var out := Encode(f).value;
    assert out[HeaderSize..] == Pack(f.bits);
    PackAt(f.bits, j);
    assert out[HeaderSize + j / 8] == Pack(f.bits)[j / 8];
  }

  /** Round trip: loading saved bytes (reading to the end, or told a total
      length at least that of the bytes) restores every field verbatim and
      the bits followed by the zero padding of the last byte. */
  lemma SaveLoadRoundTrip(f: Filter, n: int)
    requires LengthAccepted(|f.bits|, f.filterSize)
    requires Encode(f).Ok?
    requires n < HeaderSize || n >= |Encode(f).value|
    ensures Decode(Encode(f).value, n) == Ok(f.(bits := Padded(f.bits)))
  {
    var out := Encode(f).value;
    var g := f.(bits := Padded(f.bits));
    EncodeParts(f);
    SavedBitsReadBack(f, n);
    PaddedAccepted(|f.bits|, f.filterSize);
    DecodeBuilds(out, n, g);
  }

  /** The bits a load reads from saved bytes are the saved bits, padded. */
  lemma SavedBitsReadBack(f: Filter, n: int)
    requires Encode(f).Ok?
    requires n < HeaderSize || n >= |Encode(f).value|
    ensures Unpack(ReadPayload(Encode(f).value[HeaderSize..], n)) == Padded(f.bits)
  {
    EncodeParts(f);
    assert ReadPayload(Encode(f).value[HeaderSize..], n) == Pack(f.bits);
    UnpackPack(f.bits);
  }

  /** Padding an accepted bit count to whole bytes keeps it accepted. */
  lemma PaddedAccepted(nbits: nat, filterSize: nat)
    requires LengthAccepted(nbits, filterSize)
    ensures LengthAccepted(nbits + PadLength(nbits), filterSize)
  {
    if nbits != filterSize {
      assert nbits % 8 == 0;
      assert PadLength(nbits) == 0;
    }
  }

  /** The zero padding a round trip appends lies beyond every probe, so the
      reloaded filter answers every membership query as the saved one. */
  lemma PaddingKeepsAnswers<T>(f: Filter, hash: (T, nat) -> int, item: T)
    requires Queryable(f)
    ensures Queryable(f.(bits := Padded(f.bits)))
    ensures IsMember(f.(bits := Padded(f.bits)), hash, item) == IsMember(f, hash, item)
  {
    var g := f.(bits := Padded(f.bits));
    forall i | 0 <= i < f.numHashes
      ensures g.bits[Probe(hash, item, i, f.filterSize)] == f.bits[Probe(hash, item, i, f.filterSize)]
    {
      var p := Probe(hash, item, i, f.filterSize);
      assert g.bits[..|f.bits|][p] == f.bits[p];
    }
  }

  /** Load after save gives the same answer to every membership query. */
  lemma SaveLoadSameAnswers<T>(f: Filter, n: int, hash: (T, nat) -> int, item: T)
    requires LengthAccepted(|f.bits|, f.filterSize) && Queryable(f)
    requires Encode(f).Ok?
    requires n < HeaderSize || n >= |Encode(f).value|
    ensures Decode(Encode(f).value, n).Ok?
    ensures Queryable(Decode(Encode(f).value, n).value)
    ensures IsMember(Decode(Encode(f).value, n).value, hash, item) == IsMember(f, hash, item)
  {
    SaveLoadRoundTrip(f, n);
    PaddingKeepsAnswers(f, hash, item);
  }

  /** Save after load writes back exactly the bytes the load consumed. */
  lemma LoadSaveRoundTrip(data: seq<byte>, n: int)
    requires Decode(data, n).Ok?
    ensures Encode(Decode(data, n).value) == Ok(data[..HeaderSize] + ReadPayload(data[HeaderSize..], n))
  {
    var payload := ReadPayload(data[HeaderSize..], n);
    var f := Decode(data, n).value;
    HeaderBytesRoundTrip(data[..HeaderSize]);
    assert HeaderOf(f) == DecodeHeader(data[..HeaderSize]);
    PackUnpack(payload);
  }

  /** Dropping the last byte of a saved filter whose bit array has exactly
      the declared length makes the load fail with a size mismatch. */
  lemma TruncatedPayloadRejected(f: Filter)
    requires |f.bits| == f.filterSize > 0
    requires Encode(f).Ok?
    ensures Decode(Encode(f).value[..|Encode(f).value| - 1], -1) == Err(SizeMismatch)
  {
    var out := Encode(f).value;
    var cut := out[..|out| - 1];
    EncodeParts(f);
    assert cut[..HeaderSize] == out[..HeaderSize];
    assert |ReadPayload(cut[HeaderSize..], -1)| == (f.filterSize + 7) / 8 - 1;
  }

  /** When the declared length is a multiple of eight, one whole extra byte
      after the packed bits is accepted and appended to the bit array. */
  lemma ExtraByteTolerated(f: Filter, extra: byte)
    requires |f.bits| == f.filterSize && f.filterSize % 8 == 0
    requires Encode(f).Ok?
    ensures Decode(Encode(f).value + [extra], -1).Ok?
    ensures Decode(Encode(f).value + [extra], -1).value == f.(bits := f.bits + Unpack([extra]))
  {
    var out := Encode(f).value;
    var data := out + [extra];
    var g := f.(bits := f.bits + Unpack([extra]));
    EncodeParts(f);
    assert data[..HeaderSize] == out[..HeaderSize];
    assert Unpack(ReadPayload(data[HeaderSize..], -1)) == g.bits by {
      assert ReadPayload(data[HeaderSize..], -1) == Pack(f.bits) + [extra];
      UnpackAppend(Pack(f.bits), [extra]);
      UnpackPack(f.bits);
      PaddedWhole(f.bits);
    }
    DecodeBuilds(data, -1, g);
  }
}
