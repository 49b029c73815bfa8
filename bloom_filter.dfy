/** The Bloom filter object: its fields are updated in place by insertion and
    by a load, and every operation is specified against the snapshot of
    those fields in `FilterSpec` and the byte layout in `Codec`. */
module Bloom {
  import opened Bytes
  import opened FilterSpec
  import opened Codec

  class BloomFilter<T> {
    var usedSize: nat
    var size: nat
    var fpProbability: Double
    var filterSize: nat
    var numHashes: nat
    /** Whether `filterSize` and `numHashes` were ever assigned: a filter
        built with capacity zero has neither until a load assigns them. */
    var hasDimensions: bool
    var bits: seq<bool>
    /** The seeded hash `hash(item, seed)` every probe uses. */
    const hash: (T, nat) -> int

    /** The bit array holds the declared number of bits, possibly padded to
        the next whole byte by a load. */
    ghost predicate Valid()
      reads this
    {
      hasDimensions ==> LengthAccepted(|bits|, filterSize)
    }

    ghost function Snapshot(): Filter
      reads this
    {
      Filter(fpProbability, usedSize, size, filterSize, numHashes, bits)
    }

    /** Membership and insertion can run: the dimensions exist and probing
        needs no division by zero. */
    ghost predicate Ready()
      reads this
    {
      hasDimensions && Queryable(Snapshot())
    }

    /** Builds an empty filter. `filterSize` and `numHashes` stand for the
        sizing the capacity and false-positive target determine; with
        capacity zero they are not assigned and the bit array is empty. */
    constructor (size: nat, fpProbability: Double, filterSize: nat, numHashes: nat, hash: (T, nat) -> int)
      requires size > 0 ==> filterSize > 0
      ensures this.size == size && this.fpProbability == fpProbability && this.hash == hash
      ensures usedSize == 0 && hasDimensions == (size > 0)
      ensures size > 0 ==> this.filterSize == filterSize && this.numHashes == numHashes
      ensures size > 0 ==> bits == seq(filterSize, _ => false)
      ensures size == 0 ==> bits == []
      ensures Valid() && (size > 0 ==> Ready())
    {
      this.usedSize := 0;
      this.size := size;
      this.fpProbability := fpProbability;
      this.hash := hash;
      if size > 0 {
        this.filterSize := filterSize;
        this.numHashes := numHashes;
        this.hasDimensions := true;
        this.bits := seq(filterSize, _ => false);
      } else {
        this.filterSize := 0;
        this.numHashes := 0;
        this.hasDimensions := false;
        this.bits := [];
      }
    }

    function FilterSize(): (r: nat)
      reads this
      requires hasDimensions && Valid()
      ensures r == Snapshot().filterSize && r <= |bits|
    {
      filterSize
    }

    function NumHashes(): (r: nat)
      reads this
      requires hasDimensions
      ensures r == Snapshot().numHashes
    {
      numHashes
    }

    /** Reports the capacity, not the false-positive target. */
    function FpProb(): (r: nat)
      reads this
      ensures r == Snapshot().size
    {
      size
    }

    function Size(): (r: nat)
      reads this
      ensures r == Snapshot().size
    {
      size
    }

    /** The number of items counted as inserted. */
    function Length(): (r: nat)
      reads this
      ensures r == Snapshot().used
    {
      usedSize
    }

    /** Whether every probed bit of `item` is set; stops at the first clear one. */
    method Contains(item: T) returns (present: bool)
      requires Ready()
      ensures present == IsMember(Snapshot(), hash, item)
    {
      var i := 0;
      while i < numHashes
        invariant 0 <= i <= numHashes
        invariant forall k :: 0 <= k < i ==> bits[Probe(hash, item, k, filterSize)]
      {
        if !bits[Probe(hash, item, i, filterSize)] {
          return false;
        }
        i := i + 1;
      }
      return true;
    }

    /** Sets the probe positions of `item` and counts it, unless it is
        already reported present or the capacity is reached. */
    method Add(item: T)
      requires Valid() && Ready()
      modifies this
      ensures Valid() && Ready()
      ensures Snapshot() == Insert(old(Snapshot()), hash, item)
      ensures old(usedSize) <= size ==> usedSize <= size
      ensures Covers(old(bits), bits)
      ensures old(usedSize) < size ==> IsMember(Snapshot(), hash, item)
    {
      ghost var before := Snapshot();
      var present := Contains(item);
      if !present && usedSize < size {
        SetProbeBits(item);
        usedSize := usedSize + 1;
      }
      InsertOnlySetsProbes(before, hash, item);
      InsertMakesMember(before, hash, item);
    }

    /** Sets bit `hash(item, i) % filterSize` for every probe `i`, in order. */
    method SetProbeBits(item: T)
      requires Valid() && Ready()
      modifies this`bits
      ensures bits == SetProbes(old(bits), filterSize, hash, item, numHashes)
      ensures Valid() && Ready()
    {
      var i := 0;
      while i < numHashes
        invariant 0 <= i <= numHashes
        invariant bits == SetProbes(old(bits), filterSize, hash, item, i)
      {
        bits := bits[Probe(hash, item, i, filterSize) := true];
        i := i + 1;
      }
    }

    /** The header and packed bits this filter writes. */
    method Save() returns (r: Result<seq<byte>>)
      requires hasDimensions
      ensures r == Encode(Snapshot())
    {
      var header := Header(fpProbability, usedSize, size, filterSize, numHashes);
      if !HeaderFits(header) {
        return Err(FieldOutOfRange);
      }
      r := Ok(EncodeHeader(header) + Pack(bits));
    }

    /** Appends the bits of `payload`, least significant bit of each byte
        first, to a shell whose dimensions are not yet assigned. */
    method AppendBytes(payload: seq<byte>)
      requires !hasDimensions
      modifies this`bits
      ensures bits == old(bits) + Unpack(payload)
      ensures Valid() && !hasDimensions
    {
      var i := 0;
      while i < |payload|
        invariant 0 <= i <= |payload|
        invariant bits == old(bits) + Unpack(payload[..i])
      {
        UnpackAppend(payload[..i], [payload[i]]);
        assert payload[..i + 1] == payload[..i] + [payload[i]];
        assert Unpack([payload[i]]) == ToBits(payload[i], 8) + Unpack([]);
        bits := bits + ToBits(payload[i], 8);
        i := i + 1;
      }
      assert payload[..i] == payload;
    }
  }

  /** Reads a filter from `data`, told the expected total length `n`: the
      header, a shell with capacity zero, the bits appended to it, the
      length check, then the header fields assigned verbatim. */
  method Load<T>(data: seq<byte>, n: int, hash: (T, nat) -> int) returns (r: Result<BloomFilter<T>>)
    ensures Decode(data, n).Err? ==> r == Err(Decode(data, n).error)
    ensures Decode(data, n).Ok? ==> r.Ok? && fresh(r.value) && r.value.hash == hash
    ensures Decode(data, n).Ok? ==> r.value.Valid() && r.value.hasDimensions
    ensures Decode(data, n).Ok? ==> r.value.Snapshot() == Decode(data, n).value
  {
    if |data| < HeaderSize {
      return Err(TruncatedHeader);
    }
    var h := DecodeHeader(data[..HeaderSize]);
    var shell := new BloomFilter(0, h.fpProbability, 0, 0, hash);
    var payload := ReadPayload(data[HeaderSize..], n);
    shell.AppendBytes(payload);
    if !LengthAccepted(|shell.bits|, h.filterSize) {
      return Err(SizeMismatch);
    }
    shell.usedSize := h.used;
    shell.size := h.size;
    shell.filterSize := h.filterSize;
    shell.numHashes := h.numHashes;
    shell.hasDimensions := true;
    return Ok(shell);
  }

  /** Three insertions into a filter of capacity three are all reported
      present afterwards, and a fourth insertion cannot push the count past
      the capacity. (An item reported present by a false positive is not
      counted, so the count may stay below three.) */
  method SaturationScenario(fpProbability: Double, hash: (string, nat) -> int)
    returns (a: bool, b: bool, c: bool, count: nat)
    ensures a && b && c && count <= 3
  {
    var f := new BloomFilter(3, fpProbability, 29, 7, hash);
    f.Add("a");
    ghost var s1 := f.Snapshot();
    f.Add("b");
    ghost var s2 := f.Snapshot();
    InsertKeepsMember(s1, hash, "b", "a");
    f.Add("c");
    ghost var s3 := f.Snapshot();
    InsertKeepsMember(s2, hash, "c", "a");
    InsertKeepsMember(s2, hash, "c", "b");
    f.Add("d");
    InsertKeepsMember(s3, hash, "d", "a");
    InsertKeepsMember(s3, hash, "d", "b");
    InsertKeepsMember(s3, hash, "d", "c");
    a := f.Contains("a");
    b := f.Contains("b");
    c := f.Contains("c");
    count := f.Length();
  }
}
