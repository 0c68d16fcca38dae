# bloomy in Dafny

A model of the `bloomy` crate: a packed bit vector, and a Bloom filter built on
top of it that uses enhanced double hashing. Both are sequential and
deterministic and do no I/O.

- `results.dfy` (module `Results`) turns the library's panics into values.
  A `Result<T>` is either `Ok(value)` or `Err(fault)`. The possible faults are:
  - an index out of bounds;
  - a length mismatch between two bit vectors;
  - incompatible filters;
  - a remainder by zero;
  - a division by zero.
- `bitvec.dfy` (module `BitVector`) models `BitVec`, a byte buffer plus a
  logical length `nbits`. Bit `i` sits in byte `i / 8` under the mask
  `0x01 << (i % 8)`.
  - `Valid` is the representation invariant. The buffer holds
    `ceil(nbits / 8)` bytes, and the padding bits of the tail byte are 0.
  - `Model` reads the `nbits` addressable bits as a `seq<bool>`. `Bits` reads
    any buffer as bits; it is the reference the byte-level code is proved
    against.
- `bitvec_props.dfy` (module `BitVectorProps`) holds the properties that
  relate several bit-vector calls, and the crate's bit-vector unit tests as
  lemmas.
- `bloom.dfy` (module `Bloom`) models `BloomFilter`. A filter is a bit vector,
  a hash count `k` and the pair of SipHash keys its hashers were built with.
  - An item maps to the positions `g_i = (h1 + i*h2 + i^3) mod m` for
    `i < k`, computed in wrapping 64-bit arithmetic.
  - SipHash is a parameter `sip`: an arbitrary function from a key and an
    item to a 64-bit digest, shared by all filters.
  - `Member` is the reference meaning of membership: every probe position is
    set.
- `bloom_props.dfy` (module `BloomProps`) holds the filter's promises:
  - no false negatives;
  - monotone, idempotent and commutative insertion;
  - what union and intersection keep;
  - clearing, equality, and the byte round trip;
  - `InsertAll`, which loads a sequence of items in order the way the tests
    do.

Where the source panics, the model returns `Err`. Each operation's contract
states exactly when that happens. Callers are only asked for what the types
promise, namely that bit vectors satisfy `Valid`.

The floating-point sizing is not modelled.
- `Bloom.Create(nbits, nhashes)` stands for `new` and `with_rate`, which
  compute those two numbers from a capacity and a false-positive rate.
- `Bloom.WithSize` and `Bloom.FromBytes` take `hashesFor`, the hash count
  the sizing formulas give for a bit length.

Nothing forces a filter to have at least one hash or at least one bit, and
the code does not either. `with_rate(c, p)` yields zero hashes exactly when
`optimal_bits(c, p) < c`, because `optimal_hashes` divides the two as
integers. Examples are `with_rate(4, 0.7)` and `with_rate(1000, 0.63)`. How
high `p` must be depends on `c`, and tends to about 0.62 for large `c`. A
filter with zero hashes contains every item.
`insert` and `contains` on a zero-bit filter with hashes reduce modulo 0, and
the model returns `RemainderByZero` in that case. `with_size(0)` and the
conversion from an empty byte vector derive a capacity of 0 and then divide
by it, so the model returns `DivisionByZero`. Nothing in `src/bloom.rs`
requires `nhashes >= 1`, so the model does not either.

## Model

| member | source | states |
|---|---|---|
| BitVector.ByteLength | src/bitvec.rs:19-23 | the byte length for `capacity` bits is the least whole number of bytes holding them: `capacity <= 8*r < capacity + 8` |
| BitVector.New | src/bitvec.rs:18-29 | a new vector is valid, has `len() == capacity` and `ceil(capacity/8)` bytes, and every bit is 0 |
| BitVector.Len | src/bitvec.rs:32-34 | `len()` is the number of addressable bits |
| BitVector.IsEmpty | src/bitvec.rs:37-39 | a vector is empty exactly when it has no addressable bit |
| BitVector.Clear | src/bitvec.rs:42-44 | after `clear` every addressable bit is 0; the length and the byte count are unchanged and the padding stays 0 |
| BitVector.Set | src/bitvec.rs:47-59 | `set(i)` fails exactly when `i >= len()`, with the index-out-of-bounds error carrying the length and `i`; otherwise bit `i` becomes 1, no other bit changes, and the padding stays 0 |
| BitVector.IsSet | src/bitvec.rs:62-74 | `is_set(i)` fails exactly when `i >= len()`; otherwise it returns addressable bit `i` |
| BitVector.MaskTest | src/bitvec.rs:70-73 | the mask test `byte & mask == mask` reads the same bit as the reference reading of the byte |
| BitVector.MaskIsShift | src/bitvec.rs:56 | the per-bit mask is `0x01 << (i % 8)` |
| BitVector.BitOfIsBit | src/bitvec.rs:70-73 | testing byte `i/8` under mask `i%8` reads bit `i` of the buffer |
| BitVector.CountOnes | src/bitvec.rs:77-79 | the sum of the byte pop-counts is the number of addressable 1 bits, and at most `len()` |
| BitVector.CountOnesIsModelCount | src/bitvec.rs:77-79 | summing pop-counts over the whole buffer counts no padding bit, because the padding is 0 |
| BitVector.CountZeros | src/bitvec.rs:82-84 | `len() - count_ones()` is the number of addressable 0 bits |
| BitVector.Union | src/bitvec.rs:88-104 | `union` fails exactly when the lengths differ, with both lengths in the error; otherwise the result has the same length and bit `i` is `a[i] OR b[i]` |
| BitVector.Intersection | src/bitvec.rs:108-124 | `intersection` fails exactly when the lengths differ; otherwise the result has the same length and bit `i` is `a[i] AND b[i]` |
| BitVector.AsBytes | src/bitvec.rs:127-129 | the raw buffer is exactly `ceil(len()/8)` bytes long, holds every addressable bit at its place, and its padding bits are 0 |
| BitVector.FromBytes | src/bitvec.rs:132-137 | a buffer becomes a valid vector of `8 * len` bits whose bits are exactly the buffer's bits |
| BitVector.BitsInjective | src/bitvec.rs:10 | two buffers of the same length with the same bits are the same buffer |
| BitVector.SetKeepsValid | src/bitvec.rs:55-58 | or-ing the mask into byte `i/8` keeps the padding 0 and turns on exactly bit `i` |
| BitVector.UnionBits | src/bitvec.rs:95-103 | the byte-wise `OR` of two valid equal-length buffers is valid and is the bitwise `OR` |
| BitVector.IntersectionBits | src/bitvec.rs:115-123 | the byte-wise `AND` of two valid equal-length buffers is valid and is the bitwise `AND` |
| BitVectorProps.Extensionality | src/bitvec.rs:10 | derived equality of two valid vectors holds exactly when their lengths and addressable bits agree |
| BitVectorProps.SetThenIsSet | src/bitvec.rs:178-194 | after `set(i)`, `is_set(i)` is true and every other in-range bit reads as before |
| BitVectorProps.SetIdempotent | src/bitvec.rs:47-59 | setting a bit twice gives the same vector as setting it once |
| BitVectorProps.SetCommutes | src/bitvec.rs:47-59 | setting two bits in either order gives the same vector |
| BitVectorProps.SetCountOnes | src/bitvec.rs:227-276 | `set` of a 0 bit raises `count_ones` by one, and of a 1 bit leaves it alone; `count_zeros` stays `len() - count_ones()` |
| BitVectorProps.CountsAddUp | src/bitvec.rs:77-84 | `count_ones() + count_zeros() == len()` and `count_ones() <= len()` |
| BitVectorProps.UnionCountOnes | src/bitvec.rs:88-104 | a union has at least as many 1 bits as either input |
| BitVectorProps.IntersectionCountOnes | src/bitvec.rs:108-124 | an intersection has at most as many 1 bits as either input |
| BitVectorProps.ClearCounts | src/bitvec.rs:42-44 | a cleared vector counts no 1 bits and `len()` 0 bits |
| BitVectorProps.ClearIsNew | src/bitvec.rs:42-44 | clearing gives exactly the vector `new` builds for the same length |
| BitVectorProps.BytesRoundTrip | src/bitvec.rs:132-144 | bytes to vector to bytes is the identity, and the vector has `8 * len` bits |
| BitVectorProps.VectorRoundTrip | src/bitvec.rs:132-144 | vector to bytes to vector is the identity exactly when the length is a multiple of 8; the first `len()` bits always come back |
| BitVectorProps.NewLengths | src/bitvec.rs:160-175 | 1 and 8 bits take one byte, 9 bits take two, and `len()` is the requested length |
| BitVectorProps.BoundsAtLength | src/bitvec.rs:196-206 | `set` and `is_set` at index `len()` fail; at `len() - 1` they succeed on a fresh vector, which reads 0 |
| BitVectorProps.UnionExample | src/bitvec.rs:279-320 | {0, 3} and {2, 3, 5} in six bits count 2 and 3 ones, and their union counts 4 |
| BitVectorProps.IntersectionExample | src/bitvec.rs:323-364 | the same two vectors intersect in one bit, bit 3, and bit 0 is not in it |
| Bloom.WrappingAdd | src/bloom.rs:218 | the 64-bit wrapping sum is the exact sum below `2^64` and the sum minus `2^64` above it |
| Bloom.BloomHash | src/bloom.rs:217-220 | every probe position is below the bit length `m` |
| Bloom.Positions | src/bloom.rs:89-91 | an item gets `k` positions, all below `m` |
| Bloom.Probes | src/bloom.rs:87-91 | an item's probes are `nhashes` in-range positions computed from its two keyed digests |
| Bloom.NumBits | src/bloom.rs:116-118 | `bits()` is the number of addressable bits of the filter |
| Bloom.SetAll | src/bloom.rs:89-92 | setting a list of positions succeeds exactly when all are in range; bit `j` is then on exactly when it was on before or `j` is in the list |
| Bloom.AllSet | src/bloom.rs:101-107 | when every position is in range, the scan returns true exactly when all of them are set; a true answer always means every position is in range and set |
| Bloom.Create | src/bloom.rs:44-82 | a new filter has the given bit length and hash count, the fixed keys, and no bit set |
| Bloom.WithSize | src/bloom.rs:49-64 | `with_size(n)` fails with a division by zero exactly when `n == 0`; otherwise it has `8n` bits, the derived hash count, the fixed keys and no bit set |
| Bloom.Insert | src/bloom.rs:86-93 | `insert` fails exactly when positions would be reduced modulo 0; otherwise the configuration is unchanged and bit `j` is on exactly when it was before or `j` is a probe of the item |
| Bloom.Contains | src/bloom.rs:98-108 | `contains` fails exactly when positions would be reduced modulo 0; otherwise it is true exactly when every probe of the item is set |
| Bloom.Clear | src/bloom.rs:111-113 | `clear` keeps the configuration and turns every bit off |
| Bloom.Union | src/bloom.rs:160-173 | `union` fails exactly when the filters are not comparable; otherwise it keeps the configuration and ORs the bits |
| Bloom.Intersection | src/bloom.rs:176-189 | `intersection` fails exactly when the filters are not comparable; otherwise it keeps the configuration and ANDs the bits |
| Bloom.AsBytes | src/bloom.rs:199-202 | the filter's bytes are exactly `ceil(bits()/8)` long, hold its bits in place, and their padding bits are 0 |
| Bloom.FromBytes | src/bloom.rs:256-273 | bytes become a filter exactly when there is at least one byte; it has `8 * len` bits equal to the bytes' bits, the derived hash count and the fixed keys |
| BloomProps.InsertAll | src/bloom.rs:337-348 | loading items in order fails exactly when there are items and positions would be reduced modulo 0; otherwise it keeps the configuration, and bit `j` is set exactly when it was set before or is a probe position of some loaded item |
| BloomProps.LoadStep | src/bloom.rs:86-93 | the bits a load sets after its first insertion, together with that insertion's probes, are the bits the whole load sets |
| BloomProps.ComparableProbes | src/bloom.rs:192-197 | comparable filters send every item to the same positions |
| BloomProps.BloomHashClosedForm | src/bloom.rs:217-220 | for all digests and every `i`, position `i` is `((h1 + i*h2 + i^3) mod 2^64) mod m`: the wrapping add, multiply and cube agree with reducing the exact sum once |
| BloomProps.BloomHashFormula | src/bloom.rs:217-220 | when nothing wraps, position `i` is `(h1 + i*h2 + i^3) mod m` |
| BloomProps.NoFalseNegatives | src/bloom.rs:95-108 | right after `insert(x)`, `contains(x)` is true |
| BloomProps.InsertMonotone | src/bloom.rs:86-93 | an item contained before an insertion is contained after it, and `bits()` and `hashes()` do not change |
| BloomProps.InsertIdempotent | src/bloom.rs:84-85 | inserting an item a second time gives the same filter |
| BloomProps.InsertCommutes | src/bloom.rs:86-93 | inserting two items in either order gives the same filter |
| BloomProps.InsertAllMonotone | src/bloom.rs:86-93 | loading more items keeps every item already contained |
| BloomProps.InsertAllContainsAll | src/bloom.rs:300-327 | after loading a sequence of items, each of them is contained |
| BloomProps.UnionKeepsMembers | src/bloom.rs:160-173 | the union of comparable filters contains every item either one contains |
| BloomProps.UnionOfLoadedFilters | src/bloom.rs:336-354 | the union of two loaded comparable filters contains every item loaded into either |
| BloomProps.IntersectionMembers | src/bloom.rs:176-189 | the intersection contains an item exactly when both inputs contain it |
| Bloom.IsComparable | src/bloom.rs:192-197 | two filters are comparable exactly when `hashes()`, the bit lengths and the keys of both hashers agree; comparable filters either both can probe or both cannot |
| BloomProps.ComparableIsEquivalence | src/bloom.rs:192-197 | comparability is reflexive, symmetric and transitive |
| BloomProps.ClearIsFresh | src/bloom.rs:111-113 | a cleared filter with the fixed keys equals a fresh filter of the same size and hash count |
| BloomProps.ClearForgets | src/bloom.rs:111-113 | a cleared filter with at least one hash and one bit contains no item |
| Bloom.Equal | src/bloom.rs:248-252 | filter equality holds exactly when the bit lengths, hash counts and addressable bits agree |
| BloomProps.EqualIsEquivalence | src/bloom.rs:248-254 | filter equality is reflexive, symmetric and transitive, and replacing the keys does not change it |
| BloomProps.HashesCountProbes | src/bloom.rs:121-123 | `hashes()` is the number of positions `insert` sets and `contains` checks for any item; this only unfolds the definitions of `Probes` and `NumHashes` |
| BloomProps.ZeroHashesContainAll | src/bloom.rs:89-107 | a filter with zero hashes reports every item present, and inserting into it changes nothing |
| BloomProps.DigestsDependOnKeys | src/bloom.rs:204-215 | an item's two digests are its keyed hashes under the filter's first and second key, so filters with the same keys get the same digests; this only unfolds the definition of `SipHashes` |
| BloomProps.BytesRoundTrip | src/bloom.rs:256-279 | bytes to filter to bytes is the identity, and the filter has `8 * len` bits |
| BloomProps.FilterRoundTrip | src/bloom.rs:256-279 | a filter with the fixed keys comes back from its bytes exactly when its bit length is a non-zero multiple of 8 and its hash count is the derived one |
| BloomProps.LoadedFilterRoundTrip | src/bloom.rs:461-476 | a filter built by size and then loaded comes back from its bytes as the same filter, with the same `bits()` and `hashes()` |

## Left out

- SipHash-1-3 is not part of this model; it comes from the `siphasher` crate. `sip_hashes` becomes a parameter `sip`, and the two fixed 16-byte keys are modelled as data.
- The floating-point sizing (`optimal_bits`, `optimal_capacity`, `optimal_hashes`, `DEFAULT_FALSE_POSITIVE_RATE`) is left out because it depends on f64 `ln`, `ceil` and `round`.
  - `new` and `with_rate` become `Bloom.Create` with the bit length and hash count as arguments.
  - `with_size` and the conversion from bytes take the derived hash count as the function `hashesFor`.
  - The sizing's edge cases are not modelled. A capacity of 0, as in `new(0)`, divides by zero in `optimal_hashes` at any rate. A rate of 1 gives a filter with 0 bits and 0 hashes, with no panic. A rate of 0 saturates the bit count to `usize::MAX`, so allocation fails rather than any arithmetic.
- The estimators `count`, `similarity` and `overlap` and their tests are left out because they are approximate f64 computations.
- `test_intersection` is left out because its outcome depends on the concrete SipHash digests of small integers.
- The `Debug` formatting and the `PhantomData` marker are left out because they carry no behaviour.
- `src/lib.rs`, `benches/benchmarks.rs` and `examples/simple.rs` are not part of this model.
- Bloom.NumHashes: its own contract states nothing beyond returning the stored count. What `hashes()` means is stated by `HashesCountProbes` and `ZeroHashesContainAll`.
- Bloom.BloomHash: `i.pow(3)` is modelled as the wrapping cube a release build computes. A debug build panics on overflow once `i >= 2642246`, which would take that many hashes.
- BitVector.FromBytes: `bytes.len() * 8` is taken as exact. On a 64-bit target it overflows only for buffers beyond 2^61 bytes.
- Integer widths (`usize`, `u64`) are unbounded `nat` except in the probe arithmetic, which is explicitly modulo 2^64.
- The filter's copy and clone semantics and in-place mutation are modelled as pure functions that return the new value.
