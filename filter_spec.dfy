/** What a Bloom filter's state means: a snapshot of its fields, the probe
    positions of an item, membership as a conjunction over those positions,
    and insertion as setting them under the capacity counter. The hash
    function is a parameter `hash(item, seed)`; nothing is assumed about it. */
module FilterSpec {
  import opened Bytes

  /** The fields of a filter: false-positive target, inserted count,
      capacity, bit-array length, number of hash probes, and the bits. */
  datatype Filter = Filter(
    fpProbability: Double,
    used: nat,
    size: nat,
    filterSize: nat,
    numHashes: nat,
    bits: seq<bool>)

  /** Probing is defined: there are no probes, or every position below
      `filterSize` is an index of the bit array. */
  predicate Queryable(f: Filter)
  {
    f.numHashes == 0 || 0 < f.filterSize <= |f.bits|
  }

  /** Probe `i` of `item` in an array of `m` bits; the remainder with a
      positive divisor is never negative, whatever the sign of the hash. */
  function Probe<T>(hash: (T, nat) -> int, item: T, i: nat, m: nat): (p: nat)
    requires m > 0
    ensures p < m
  {
    hash(item, i) % m
  }

  /** Whether `j` is one of the first `n` probe positions of `item`. */
  predicate IsProbed<T>(hash: (T, nat) -> int, item: T, n: nat, m: nat, j: nat)
    requires m > 0
  {
    exists i :: 0 <= i < n && Probe(hash, item, i, m) == j
  }

  /** The filter reports `item` present: every probed bit is set. */
  predicate IsMember<T>(f: Filter, hash: (T, nat) -> int, item: T)
    requires Queryable(f)
  {
    forall i :: 0 <= i < f.numHashes ==> f.bits[Probe(hash, item, i, f.filterSize)]
  }

  /** `bits` with the first `n` probe positions of `item` set. */
  function SetProbes<T>(bits: seq<bool>, m: nat, hash: (T, nat) -> int, item: T, n: nat): (r: seq<bool>)
    requires n == 0 || 0 < m <= |bits|
    ensures |r| == |bits|
  {
    if n == 0 then bits
    else SetProbes(bits, m, hash, item, n - 1)[Probe(hash, item, n - 1, m) := true]
  }

  /** A bit is set afterwards exactly when it was set before or is probed. */
  lemma {:induction false} SetProbesAt<T>(bits: seq<bool>, m: nat, hash: (T, nat) -> int, item: T, n: nat, j: nat)
    requires 0 < m <= |bits| && j < |bits|
    ensures SetProbes(bits, m, hash, item, n)[j] == (bits[j] || IsProbed(hash, item, n, m, j))
  {
    if n > 0 {
      SetProbesAt(bits, m, hash, item, n - 1, j);
      if Probe(hash, item, n - 1, m) == j {
        assert IsProbed(hash, item, n, m, j);
      } else if IsProbed(hash, item, n, m, j) {
        var i :| 0 <= i < n && Probe(hash, item, i, m) == j;
        assert IsProbed(hash, item, n - 1, m, j);
      }
    }
  }

  /** The array `next` keeps every bit that is set in `prev`. */
  predicate Covers(prev: seq<bool>, next: seq<bool>)
  {
    |prev| == |next| && forall j :: 0 <= j < |prev| && prev[j] ==> next[j]
  }

  /** One insertion: when `item` is not reported present and the filter is
      below capacity, set its probe positions and count it; otherwise change
      nothing. */
  function Insert<T>(f: Filter, hash: (T, nat) -> int, item: T): (r: Filter)
    requires Queryable(f)
    ensures Queryable(r) && |r.bits| == |f.bits|
    ensures r.fpProbability == f.fpProbability && r.size == f.size
    ensures r.filterSize == f.filterSize && r.numHashes == f.numHashes
    ensures r.used == f.used + 1 <==> !IsMember(f, hash, item) && f.used < f.size
    ensures r.used != f.used + 1 ==> r == f
  {
    if !IsMember(f, hash, item) && f.used < f.size then
      f.(bits := SetProbes(f.bits, f.filterSize, hash, item, f.numHashes), used := f.used + 1)
    else
      f
  }

  /** Insertion never clears a bit, and the only bits it sets are probe
      positions of the inserted item. */
  lemma InsertOnlySetsProbes<T>(f: Filter, hash: (T, nat) -> int, item: T)
    requires Queryable(f)
    ensures Covers(f.bits, Insert(f, hash, item).bits)
    ensures forall j :: 0 <= j < |f.bits| && Insert(f, hash, item).bits[j] != f.bits[j] ==>
      f.filterSize > 0 && IsProbed(hash, item, f.numHashes, f.filterSize, j) && !f.bits[j]
  {
    var r := Insert(f, hash, item);
    if r != f && f.numHashes > 0 {
      forall j | 0 <= j < |f.bits|
        ensures f.bits[j] ==> r.bits[j]
        ensures r.bits[j] != f.bits[j] ==> IsProbed(hash, item, f.numHashes, f.filterSize, j) && !f.bits[j]
      {
        SetProbesAt(f.bits, f.filterSize, hash, item, f.numHashes, j);
      }
    }
  }

  /** Membership depends on the bits only through the probed positions, so
      more set bits never turn a member into a non-member. */
  lemma MemberMonotone<T>(f: Filter, g: Filter, hash: (T, nat) -> int, item: T)
    requires Queryable(f) && IsMember(f, hash, item)
    requires g.filterSize == f.filterSize && g.numHashes == f.numHashes && Covers(f.bits, g.bits)
    ensures Queryable(g) && IsMember(g, hash, item)
  {
    forall i | 0 <= i < g.numHashes
      ensures g.bits[Probe(hash, item, i, g.filterSize)]
    {
      assert f.bits[Probe(hash, item, i, f.filterSize)];
    }
  }

  /** After an insertion the item is reported present exactly when it was
      already present or the filter was below capacity. */
  lemma InsertMakesMember<T>(f: Filter, hash: (T, nat) -> int, item: T)
    requires Queryable(f)
    ensures IsMember(Insert(f, hash, item), hash, item) <==> IsMember(f, hash, item) || f.used < f.size
  {
    var r := Insert(f, hash, item);
    if !IsMember(f, hash, item) && f.used < f.size {
      forall i | 0 <= i < f.numHashes
        ensures r.bits[Probe(hash, item, i, f.filterSize)]
      {
        var p := Probe(hash, item, i, f.filterSize);
        SetProbesAt(f.bits, f.filterSize, hash, item, f.numHashes, p);
        assert IsProbed(hash, item, f.numHashes, f.filterSize, p);
      }
    }
  }

  /** Inserting anything keeps every present item present. */
  lemma InsertKeepsMember<T>(f: Filter, hash: (T, nat) -> int, x: T, y: T)
    requires Queryable(f) && IsMember(f, hash, y)
    ensures IsMember(Insert(f, hash, x), hash, y)
  {
    InsertOnlySetsProbes(f, hash, x);
    MemberMonotone(f, Insert(f, hash, x), hash, y);
  }

  /** Inserting the same item twice is the same as inserting it once. */
  lemma InsertIdempotent<T>(f: Filter, hash: (T, nat) -> int, item: T)
    requires Queryable(f)
    ensures Insert(Insert(f, hash, item), hash, item) == Insert(f, hash, item)
  {
    InsertMakesMember(f, hash, item);
  }

  /** A run of insertions, in order. */
  function InsertAll<T>(f: Filter, hash: (T, nat) -> int, items: seq<T>): (r: Filter)
    requires Queryable(f)
    ensures Queryable(r) && |r.bits| == |f.bits|
    ensures r.fpProbability == f.fpProbability && r.size == f.size
    ensures r.filterSize == f.filterSize && r.numHashes == f.numHashes
    ensures f.used <= r.used <= f.used + |items|
    ensures f.used <= f.size ==> r.used <= r.size
    decreases |items|
  {
    if items == [] then f else InsertAll(Insert(f, hash, items[0]), hash, items[1..])
  }

  lemma {:induction false} InsertAllAppend<T>(f: Filter, hash: (T, nat) -> int, a: seq<T>, b: seq<T>)
    requires Queryable(f)
    ensures InsertAll(f, hash, a + b) == InsertAll(InsertAll(f, hash, a), hash, b)
    decreases |a|
  {
    if a == [] {
      assert a + b == b;
    } else {
      assert (a + b)[0] == a[0] && (a + b)[1..] == a[1..] + b;
      InsertAllAppend(Insert(f, hash, a[0]), hash, a[1..], b);
    }
  }

  /** Bits only accumulate over a run of insertions. */
  lemma {:induction false} InsertAllMonotone<T>(f: Filter, hash: (T, nat) -> int, items: seq<T>)
    requires Queryable(f)
    ensures Covers(f.bits, InsertAll(f, hash, items).bits)
    decreases |items|
  {
    if items != [] {
      var g := Insert(f, hash, items[0]);
      InsertOnlySetsProbes(f, hash, items[0]);
      InsertAllMonotone(g, hash, items[1..]);
    }
  }

  /** A present item stays present through any run of insertions. */
  lemma InsertAllKeepsMember<T>(f: Filter, hash: (T, nat) -> int, items: seq<T>, y: T)
    requires Queryable(f) && IsMember(f, hash, y)
    ensures IsMember(InsertAll(f, hash, items), hash, y)
  {
    InsertAllMonotone(f, hash, items);
    MemberMonotone(f, InsertAll(f, hash, items), hash, y);
  }

  /** An item inserted while the filter is below capacity is reported
      present right after. */
  lemma InsertedIsMember<T>(f: Filter, hash: (T, nat) -> int, before: seq<T>, x: T)
    requires Queryable(f) && InsertAll(f, hash, before).used < f.size
    ensures IsMember(InsertAll(f, hash, before + [x]), hash, x)
  {
    var g := InsertAll(f, hash, before);
    InsertAllAppend(f, hash, before, [x]);
    assert InsertAll(g, hash, [x]) == Insert(g, hash, x);
    InsertMakesMember(g, hash, x);
  }

  /** No false negatives: an item inserted while the filter was below
      capacity is reported present after any later insertions. */
  lemma NoFalseNegatives<T>(f: Filter, hash: (T, nat) -> int, before: seq<T>, x: T, after: seq<T>)
    requires Queryable(f) && InsertAll(f, hash, before).used < f.size
    ensures IsMember(InsertAll(f, hash, before + [x] + after), hash, x)
  {
    InsertedIsMember(f, hash, before, x);
    InsertAllAppend(f, hash, before + [x], after);
    InsertAllKeepsMember(InsertAll(f, hash, before + [x]), hash, after, x);
  }

  /** Once the counter has reached capacity, insertions change nothing. */
  lemma {:induction false} SaturatedInsertAllIsNoOp<T>(f: Filter, hash: (T, nat) -> int, items: seq<T>)
    requires Queryable(f) && f.used >= f.size
    ensures InsertAll(f, hash, items) == f
    decreases |items|
  {
    if items != [] {
      SaturatedInsertAllIsNoOp(f, hash, items[1..]);
    }
  }

  /** A filter with no capacity and no probes reports every item present and
      ignores every insertion. */
  lemma EmptyFilterDegenerate<T>(f: Filter, hash: (T, nat) -> int, items: seq<T>, y: T)
    requires f.size == 0 && f.numHashes == 0
    ensures Queryable(f) && IsMember(f, hash, y)
    ensures InsertAll(f, hash, items) == f
  {
    SaturatedInsertAllIsNoOp(f, hash, items);
  }
}
