# Bloom filter with a binary save format — a verified Dafny model

This project models `BloomFilter` from `libraries/filter.py`. It is a fixed-capacity Bloom filter. `num_hashes`
seeded hash probes, each reduced modulo `filter_size`, address a little-endian bit array. `add` sets the probed bits
and counts the item, provided the item is not already reported present and the counter `used_size` is below the
capacity `size`. Membership is the conjunction of the probed bits. `save` writes a 40-byte `<dQQQQ` header followed
by the packed bits, and `load` reads that layout back without recomputing anything.

Layout:

- `bytes.dfy` (module `Bytes`): how the persisted form is encoded at the byte level. Unsigned 64-bit little-endian
  integers stand for the `Q` fields. The packing of a little-endian bit array into bytes and back stands for
  `tobytes` / `frombytes`. `Double` is the 8-byte `d` field, carried as opaque bytes.
- `filter_spec.dfy` (module `FilterSpec`): the meaning of the filter's state. `Filter` is a snapshot of the fields.
  It also defines `Probe`, `IsMember` (a ∀ over the probes), `SetProbes`, one insertion `Insert` and a run of
  insertions `InsertAll`. The lemmas cover the counter, monotone bits, no false negatives and saturation.
- `codec.dfy` (module `Codec`): the header and the whole saved form. `Encode` models `save` and `Decode` models
  `load`. It proves both round trips, the exact layout, and the length check of `load`, including its quirks.
- `bloom_filter.dfy` (module `Bloom`): the object itself. Class `BloomFilter<T>` has the source's fields and
  methods. `Add` updates the bits in place with a loop. `Contains` is a loop with an early exit. `Save` and `Load`
  build the object step by step the way the source does. Each method is proved against the functions above.

The hash (`mmh3.hash(item, seed)`) is a value `hash: (T, nat) -> int` fixed when the object is built. No property
of it is assumed. Python's `%` with a positive divisor and Dafny's `%` agree: both give a result in
`[0, filter_size)` even for the negative values the hash can return.

Behaviours of the code that the model keeps:

- There is no validation of the false-positive target.
- A short payload produces no separate "unexpected end of input" error. The bytes that are present are read, and
  only the length check fails.
- The length check accepts `filter_size + (8 - filter_size % 8)` bits. When `filter_size` is already a multiple
  of 8, that is a whole extra byte (`Codec.ExtraByteTolerated`), so it is not the same as rounding up to the
  next multiple of 8.
- A filter built with capacity 0 never gets `filter_size` or `num_hashes`. So `add`, `in`, `save`,
  `filter_size` and `num_hashes` on it raise an error. The model records this with the field `hasDimensions`,
  and those members require it.
- `used_size <= size` is not an invariant of a loaded filter, because `load` copies `used_size` verbatim. `Add`
  keeps the inequality whenever it already holds. Every filter the constructor builds starts with it.
- `fp_prob` returns the capacity, not the probability (`Bloom.BloomFilter.FpProb`).

## Model

| member | source | states |
|---|---|---|
| `Bytes.LittleEndianRoundTrip` | libraries/filter.py:51-58 | an unsigned value written in `w` little-endian bytes reads back unchanged when it fits |
| `Bytes.LittleEndianOfValue` | libraries/filter.py:30-33 | any byte string is the little-endian encoding of the value it reads as |
| `Bytes.FromToBits` | libraries/filter.py:61 | a byte value split into its 8 bits, least significant first, and reassembled is the same value |
| `Bytes.ToFromBits` | libraries/filter.py:36 | 8 bits assembled into a byte and split again are the same bits |
| `Bytes.Unpack` | libraries/filter.py:36-38 | reading bytes into the bit array yields exactly 8 bits per byte |
| `Bytes.UnpackAppend` | libraries/filter.py:36 | unpacking distributes over concatenation, so appending bytes appends their bits |
| `Bytes.UnpackAt` | libraries/filter.py:21-24 | in the little-endian bit array, bit `j` is bit `j % 8` of byte `j / 8` |
| `Bytes.Padded` | libraries/filter.py:61 | the padded array keeps the bits as a prefix, has a length that is a multiple of 8 and under 8 more, and its padding bits are zero |
| `Bytes.Pack` | libraries/filter.py:61 | `tobytes` writes `ceil(len/8)` bytes |
| `Bytes.UnpackPack` | libraries/filter.py:36-61 | unpacking the written bytes gives the bits followed by the zero padding |
| `Bytes.PackUnpack` | libraries/filter.py:36-61 | packing the bits of whole bytes gives the same bytes back |
| `Bytes.PackAt` | libraries/filter.py:61 | bit `j` of the array is bit `j % 8` of written byte `j / 8`, and every padding bit is zero |
| `FilterSpec.Probe` | libraries/filter.py:85 | a probe position `hash(item, i) % filter_size` always lies in `[0, filter_size)`, whatever the sign of the hash |
| `FilterSpec.SetProbes` | libraries/filter.py:84-85 | setting probe positions never changes the array's length |
| `FilterSpec.SetProbesAt` | libraries/filter.py:84-85 | after the loop, a bit is set exactly when it was set before or is one of the probed positions |
| `FilterSpec.Insert` | libraries/filter.py:82-87 | `used` grows by exactly one iff the item was not reported present and `used < size`; otherwise nothing changes; capacity, dimensions and array length are kept |
| `FilterSpec.InsertOnlySetsProbes` | libraries/filter.py:84-85 | insertion never clears a bit, and a bit it changes is a previously clear probe position of the item |
| `FilterSpec.MemberMonotone` | libraries/filter.py:89-94 | with the same dimensions and a superset of set bits, a reported member stays a reported member |
| `FilterSpec.InsertMakesMember` | libraries/filter.py:82-94 | after `add(x)`, `x in f` holds iff it held before or the filter was below capacity |
| `FilterSpec.InsertKeepsMember` | libraries/filter.py:82-94 | adding any item keeps every reported member reported |
| `FilterSpec.InsertIdempotent` | libraries/filter.py:82-87 | adding the same item twice has the effect of adding it once |
| `FilterSpec.InsertAll` | libraries/filter.py:82-87 | over a run of adds, `used` grows by at most the number of adds, and `used <= size` is preserved when it held |
| `FilterSpec.InsertAllAppend` | libraries/filter.py:82-87 | a run of adds split in two is the second part applied after the first |
| `FilterSpec.InsertAllMonotone` | libraries/filter.py:84-85 | the set bits only grow over any run of adds |
| `FilterSpec.InsertAllKeepsMember` | libraries/filter.py:82-94 | a reported member stays reported through any run of adds |
| `FilterSpec.InsertedIsMember` | libraries/filter.py:82-94 | an item added while the filter is below capacity is reported present right after |
| `FilterSpec.NoFalseNegatives` | libraries/filter.py:82-94 | an item added while below capacity is reported present after any later adds |
| `FilterSpec.SaturatedInsertAllIsNoOp` | libraries/filter.py:83 | once `used >= size`, any run of adds leaves the filter unchanged, bits included |
| `FilterSpec.EmptyFilterDegenerate` | libraries/filter.py:89-94 | with capacity 0 and no probes, every item is reported present and adds change nothing |
| `Codec.U64RoundTrip` | libraries/filter.py:51-58 | a `Q` field reads back as the value written |
| `Codec.U64BytesRoundTrip` | libraries/filter.py:30-33 | any 8 bytes are the `Q` encoding of the value they read as |
| `Codec.EncodeHeader` | libraries/filter.py:28-29 | the packed header is exactly 40 bytes |
| `Codec.DecodeHeader` | libraries/filter.py:30-33 | every decoded counter fits 64 bits |
| `Codec.EncodeHeaderFields` | libraries/filter.py:51-58 | the header holds the probability, used size, size, filter size and hash count at offsets 0, 8, 16, 24 and 32 |
| `Codec.HeaderRoundTrip` | libraries/filter.py:28-33 | unpacking a packed header gives back all five fields |
| `Codec.HeaderBytesRoundTrip` | libraries/filter.py:28-33 | any 40 header bytes are the packing of the fields they unpack to |
| `Codec.EncodeParts` | libraries/filter.py:49-61 | the saved bytes are the header, which reads back as the filter's fields, followed by the packed bits |
| `Codec.Encode` | libraries/filter.py:49-61 | `save` succeeds iff every counter fits 64 bits, and then writes `40 + ceil(len(bits)/8)` bytes |
| `Codec.ReadPayload` | libraries/filter.py:35-38 | `load` reads a prefix of the remaining input: `min(n - 40, available)` bytes when `n >= 40`, otherwise all of it |
| `Codec.Decode` | libraries/filter.py:27-47 | a successful load has an accepted bit count (a multiple of 8, at least `filter_size`) and 64-bit counters; failures are a short header or a size mismatch |
| `Codec.DecodeBuilds` | libraries/filter.py:34-47 | `load` restores the header fields verbatim with the bits read, whenever their count is accepted |
| `Codec.EncodeHeaderLayout` | libraries/filter.py:49-59 | the saved bytes hold the five header fields at offsets 0, 8, 16, 24 and 32 |
| `Codec.EncodeBitsLayout` | libraries/filter.py:61 | after the header, bit `j` is bit `j % 8` of byte `40 + j / 8`, and the padding bits are zero |
| `Codec.EncodeBitAt` | libraries/filter.py:61 | the same fact as `EncodeBitsLayout`, for one bit position |
| `Codec.SaveLoadRoundTrip` | libraries/filter.py:27-61 | `load(save(f))` restores every field verbatim, and its bits are `f`'s bits followed by zero padding |
| `Codec.SavedBitsReadBack` | libraries/filter.py:36-61 | the bits `load` reads from saved bytes are the saved bits, padded |
| `Codec.PaddedAccepted` | libraries/filter.py:39-41 | padding an accepted bit count to whole bytes keeps it accepted |
| `Codec.PaddingKeepsAnswers` | libraries/filter.py:89-94 | the zero padding lies beyond every probe position, so every membership answer is unchanged |
| `Codec.SaveLoadSameAnswers` | libraries/filter.py:27-94 | the reloaded filter answers every membership query as the saved one |
| `Codec.LoadSaveRoundTrip` | libraries/filter.py:27-61 | saving a loaded filter writes exactly the header and payload bytes that were read |
| `Codec.TruncatedPayloadRejected` | libraries/filter.py:39-41 | dropping the last byte of a saved filter whose bit array has exactly `filter_size` bits makes `load` fail the size check |
| `Codec.ExtraByteTolerated` | libraries/filter.py:39-41 | when `filter_size % 8 == 0`, one extra byte after the payload passes the check, and its bits are appended |
| `Bloom.BloomFilter.constructor` | libraries/filter.py:8-24 | capacity > 0 gives `used_size == 0` and `filter_size` bits all false; capacity 0 gives an empty array and leaves the dimensions unassigned |
| `Bloom.BloomFilter.FilterSize` | libraries/filter.py:63-65 | returns the bit-array length, which never exceeds the number of bits held |
| `Bloom.BloomFilter.NumHashes` | libraries/filter.py:67-69 | returns the stored hash count; only defined once dimensions exist |
| `Bloom.BloomFilter.FpProb` | libraries/filter.py:71-73 | returns the capacity, not the false-positive target |
| `Bloom.BloomFilter.Size` | libraries/filter.py:75-77 | returns the capacity |
| `Bloom.BloomFilter.Length` | libraries/filter.py:79-80 | returns the inserted count |
| `Bloom.BloomFilter.Contains` | libraries/filter.py:89-94 | the early-exit loop answers exactly `IsMember`: every probed bit is set (true when there are no probes) |
| `Bloom.BloomFilter.Add` | libraries/filter.py:82-87 | the new state is `Insert` of the old one; `used <= size` is kept, no bit is cleared, and the item is a member afterwards when the filter was below capacity |
| `Bloom.BloomFilter.SetProbeBits` | libraries/filter.py:84-85 | the `for` loop sets exactly the probe positions of the item, in place, and keeps the bit-array invariant |
| `Bloom.BloomFilter.Save` | libraries/filter.py:49-61 | writes `Encode` of the current state, or fails when a counter does not fit 64 bits |
| `Bloom.BloomFilter.AppendBytes` | libraries/filter.py:36-38 | appends the unpacked bits of the bytes read to the array of a shell without dimensions, which stays valid |
| `Bloom.Load` | libraries/filter.py:26-47 | returns a fresh object whose state is `Decode` of the input, or the same error as `Decode` |
| `Bloom.SaturationScenario` | libraries/filter.py:82-94 | in a filter of capacity 3, three added items are all reported present, and a fourth add keeps the count at most 3 |

## Left out

- Sizing: the floating-point formulas for `filter_size` and `num_hashes` (`ceil(-size*log(p)/log(2)**2)` and
  `round(...)`) are not modelled. The constructor takes both values as inputs. It requires `filter_size >= 1`
  when the capacity is positive, which the formula gives for any target in (0, 1).
- The hash function (mmh3) is a foreign library. It is a parameter with no assumed properties. mmh3's limit on
  the seed range, which would restrict `num_hashes`, is not modelled.
- `fp_probability` is a double. Its IEEE-754 encoding is not modelled: the 8 bytes are carried through
  unchanged.
- File objects (`fp.read`, `fp.write`) are left out. `save` returns the byte sequence it would write, and
  `load` consumes a byte sequence.
- Negative capacities and negative or non-integer sizes, which Python would accept or reject in other ways, are
  out of scope. All counters are `nat`.
- Exceptions raised on misuse are modelled as preconditions rather than results:
  - `AttributeError` on a capacity-0 filter that was never loaded: `Contains`, `Add`, `Save`, `FilterSize` and
    `NumHashes` require `hasDimensions`.
  - `ZeroDivisionError` when a loaded filter has `num_hashes > 0` and `filter_size == 0`: `Contains` and `Add`
    require `Ready()`.
- `struct` failures are modelled as `Err` results: `TruncatedHeader` for fewer than 40 bytes, and
  `FieldOutOfRange` for a counter of 2^64 or more.
- Bloom.SaturationScenario: it does not promise a count of exactly 3. A false positive on the second or third item
  would leave it uncounted, and the code allows that.
- Default arguments become explicit arguments: the constructor's `fp_probability=1e-12` (`libraries/filter.py:8`)
  and `load`'s `n=-1` (`libraries/filter.py:27`) are passed by the caller. Because the double is opaque bytes, the
  first 8 saved bytes of a filter built with the default target are not stated.
- Concurrency is out of scope. The object is single-threaded.
