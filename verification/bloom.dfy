/** The Bloom filter of `src/bloom.rs`.

    A filter owns a bit vector of `m` bits, a hash count `k` and the pair of
    SipHash keys its two hashers were built with. An item is mapped to `k`
    probe positions by enhanced double hashing,
    `g_i = (h1 + i * h2 + i^3) mod m` in wrapping 64-bit arithmetic, where
    `h1` and `h2` are the item's two keyed digests.

    SipHash itself is not modelled: every operation that hashes an item takes
    the keyed hash `sip` as a parameter, an arbitrary function from a key and
    an item to a 64-bit digest, shared by all filters. The floating-point
    sizing formulas are not modelled either: constructors take the bit length
    and the hash count they would have computed. */
module Bloom {
  import opened Results
  import BV = BitVector
  import BVP = BitVectorProps

  /* ---------------------------------------------------------------------
     Wrapping 64-bit arithmetic
     --------------------------------------------------------------------- */

  const U64_MODULUS: int := 0x1_0000_0000_0000_0000

  type U64 = x: int | 0 <= x < U64_MODULUS

  /** `u64::wrapping_add`. */
  function WrappingAdd(a: U64, b: U64): (r: U64)
    ensures a + b < U64_MODULUS ==> r == a + b
    ensures a + b >= U64_MODULUS ==> r == a + b - U64_MODULUS
  {
    (a + b) % U64_MODULUS
  }

  /** `u64::wrapping_mul`. */
  function WrappingMul(a: U64, b: U64): U64
  {
    (a * b) % U64_MODULUS
  }

  /** `u64::pow(i, 3)` as a release build computes it, wrapping on overflow. */
  function WrappingCube(i: U64): U64
  {
    (i * i * i) % U64_MODULUS
  }

  /** `usize as u64` on a 64-bit target: the identity on every `usize`. */
  function ToU64(i: nat): U64
  {
    i % U64_MODULUS
  }

  /* ---------------------------------------------------------------------
     The filter
     --------------------------------------------------------------------- */

  /** The two 16-byte SipHash keys of a filter's hashers. */
  datatype Seeds = Seeds(first: seq<bv8>, second: seq<bv8>)

  /** `HASHER_SEEDS`, the keys every constructor uses. */
  const HASHER_SEEDS: Seeds := Seeds(
    [136, 168, 28, 251, 141, 239, 69, 38, 166, 209, 98, 201, 2, 169, 146, 170],
    [103, 236, 177, 212, 54, 11, 66, 5, 194, 86, 6, 254, 82, 93, 203, 37])

  /** A keyed 64-bit hash of an item: SipHash-1-3 keyed by a 16-byte seed. */
  type KeyedHash<!K> = (seq<bv8>, K) -> U64

  datatype Filter = Filter(bits: BV.BitVec, nhashes: nat, seeds: Seeds)

  /** The invariant of a filter is the one of its bit vector. */
  ghost predicate WellFormed(f: Filter)
  {
    BV.Valid(f.bits)
  }

  /** The addressable bits of a filter. */
  function Model(f: Filter): (r: seq<bool>)
    requires WellFormed(f)
    ensures |r| == f.bits.nbits
  {
    BV.Model(f.bits)
  }

  /** Probing is possible unless positions would be reduced modulo zero bits. */
  predicate CanProbe(f: Filter)
  {
    f.nhashes == 0 || f.bits.nbits > 0
  }

  /** `bits()`: the length of the bit vector. */
  function NumBits(f: Filter): (r: nat)
    requires WellFormed(f)
    ensures r == |Model(f)|
  {
    BV.Len(f.bits)
  }

  /** `hashes()`: the `k` parameter. */
  function NumHashes(f: Filter): nat
  {
    f.nhashes
  }

  /** `is_comparable`: same hash count, same bit length, and the same key
      on each of the two hashers. Comparable filters can probe alike. */
  function IsComparable(f: Filter, g: Filter): (r: bool)
    ensures r <==> && NumHashes(f) == NumHashes(g)
                   && f.bits.nbits == g.bits.nbits
                   && f.seeds.first == g.seeds.first
                   && f.seeds.second == g.seeds.second
    ensures r ==> CanProbe(f) == CanProbe(g)
  {
    && f.nhashes == g.nhashes
    && f.bits.nbits == g.bits.nbits
    && f.seeds == g.seeds
  }

  /** `PartialEq`: same bit vector and same hash count; the keys are not
      compared. On well-formed filters that is equality of bit length, hash
      count and addressable bits. */
  function Equal(f: Filter, g: Filter): (r: bool)
    requires WellFormed(f) && WellFormed(g)
    ensures r <==> NumBits(f) == NumBits(g) && NumHashes(f) == NumHashes(g) && Model(f) == Model(g)
  {
    BVP.Extensionality(f.bits, g.bits);
    f.bits == g.bits && f.nhashes == g.nhashes
  }

  /* ---------------------------------------------------------------------
     Hashing an item to positions
     --------------------------------------------------------------------- */

  /** `sip_hashes`: the item's digests under the filter's two keys. */
  function SipHashes<K>(f: Filter, sip: KeyedHash<K>, x: K): (U64, U64)
  {
    (sip(f.seeds.first, x), sip(f.seeds.second, x))
  }

  /** `bloom_hash`: the `i`-th probe position of digests `h1`, `h2` in a
      vector of `m` bits. */
  function BloomHash(h1: U64, h2: U64, i: U64, m: nat): (r: nat)
    requires m > 0
    ensures r < m
  {
    WrappingAdd(WrappingAdd(h1, WrappingMul(i, h2)), WrappingCube(i)) % m
  }

  /** The `k` positions `insert` and `contains` visit, in loop order. */
  function Positions(h1: U64, h2: U64, k: nat, m: nat): (r: seq<nat>)
    requires m > 0 || k == 0
    ensures |r| == k
    ensures forall p | p in r :: p < m
  {
    seq(k, i requires 0 <= i < k => BloomHash(h1, h2, ToU64(i), m))
  }

  /** The probe positions of item `x` in filter `f`. */
  function Probes<K>(f: Filter, sip: KeyedHash<K>, x: K): (r: seq<nat>)
    requires CanProbe(f)
    ensures |r| == f.nhashes
    ensures forall p | p in r :: p < f.bits.nbits
  {
    var (h1, h2) := SipHashes(f, sip, x);
    Positions(h1, h2, f.nhashes, f.bits.nbits)
  }

  /** The reference meaning of membership: every probe position is set. */
  ghost predicate Member<K>(f: Filter, sip: KeyedHash<K>, x: K)
    requires WellFormed(f) && CanProbe(f)
  {
    forall p | p in Probes(f, sip, x) :: p < f.bits.nbits && Model(f)[p]
  }

  /* ---------------------------------------------------------------------
     The loops of `insert` and `contains`
     --------------------------------------------------------------------- */

  /** `bits.set(index)` for each position in turn; the first out-of-range
      position aborts. */
  function SetAll(v: BV.BitVec, ps: seq<nat>): (r: Result<BV.BitVec>)
    requires BV.Valid(v)
    ensures r.Ok? <==> forall p | p in ps :: p < v.nbits
    ensures r.Ok? ==> BV.Valid(r.value) && r.value.nbits == v.nbits
    ensures r.Ok? ==> forall j | 0 <= j < v.nbits :: BV.Model(r.value)[j] == (BV.Model(v)[j] || j in ps)
    decreases |ps|
  {
    if |ps| == 0 then
      Ok(v)
    else
      assert ps[0] in ps && forall p :: p in ps <==> p == ps[0] || p in ps[1..];
      match BV.Set(v, ps[0])
      case Err(e) => Err(e)
      case Ok(w) => SetAll(w, ps[1..])
  }

  /** `bits.is_set(index)` for each position in turn, returning `false` at the
      first unset one; an out-of-range position reached before that aborts. */
  function AllSet(v: BV.BitVec, ps: seq<nat>): (r: Result<bool>)
    requires BV.Valid(v)
    ensures (forall p | p in ps :: p < v.nbits) ==>
              r == Ok(forall p | p in ps :: p < v.nbits && BV.Model(v)[p])
    ensures r == Ok(true) ==> forall p | p in ps :: p < v.nbits && BV.Model(v)[p]
    decreases |ps|
  {
    if |ps| == 0 then
      Ok(true)
    else
      assert ps[0] in ps && forall p :: p in ps <==> p == ps[0] || p in ps[1..];
      match BV.IsSet(v, ps[0])
      case Err(e) => Err(e)
      case Ok(b) => if !b then Ok(false) else AllSet(v, ps[1..])
  }

  /* ---------------------------------------------------------------------
     Operations of `BloomFilter`
     --------------------------------------------------------------------- */

  /** `new` / `with_rate`: a zeroed filter of `nbits` bits and `nhashes`
      hashes, both as the sizing formulas chose them. */
  function Create(nbits: nat, nhashes: nat): (r: Filter)
    ensures WellFormed(r) && NumBits(r) == nbits && NumHashes(r) == nhashes
    ensures r.seeds == HASHER_SEEDS
    ensures forall j | 0 <= j < nbits :: !Model(r)[j]
  {
    Filter(BV.New(nbits), nhashes, HASHER_SEEDS)
  }

  /** `with_size`: exactly `nbytes * 8` bits. `hashesFor(n)` is the hash
      count the sizing formulas derive for `n` bits at the default rate. Zero
      bytes imply a capacity of 0, and deriving the hash count then divides
      by zero. */
  function WithSize(nbytes: nat, hashesFor: nat -> nat): (r: Result<Filter>)
    ensures r.Err? <==> nbytes == 0
    ensures r.Err? ==> r.error == DivisionByZero
    ensures r.Ok? ==> WellFormed(r.value) && NumBits(r.value) == 8 * nbytes
    ensures r.Ok? ==> NumHashes(r.value) == hashesFor(8 * nbytes) && r.value.seeds == HASHER_SEEDS
    ensures r.Ok? ==> forall j | 0 <= j < 8 * nbytes :: !Model(r.value)[j]
  {
    if nbytes == 0 then Err(DivisionByZero) else Ok(Create(8 * nbytes, hashesFor(8 * nbytes)))
  }

  /** `insert`: sets the item's probe positions and nothing else. */
  function Insert<K>(f: Filter, sip: KeyedHash<K>, x: K): (r: Result<Filter>)
    requires WellFormed(f)
    ensures r.Err? <==> !CanProbe(f)
    ensures r.Err? ==> r.error == RemainderByZero
    ensures r.Ok? ==> WellFormed(r.value) && IsComparable(r.value, f)
    ensures r.Ok? ==> forall j | 0 <= j < f.bits.nbits ::
                        Model(r.value)[j] == (Model(f)[j] || j in Probes(f, sip, x))
  {
    if !CanProbe(f) then
      Err(RemainderByZero)
    else
      match SetAll(f.bits, Probes(f, sip, x))
      case Err(e) => Err(e)
      case Ok(b) => Ok(f.(bits := b))
  }

  /** `contains`: whether every probe position of the item is set. */
  function Contains<K>(f: Filter, sip: KeyedHash<K>, x: K): (r: Result<bool>)
    requires WellFormed(f)
    ensures r.Err? <==> !CanProbe(f)
    ensures r.Err? ==> r.error == RemainderByZero
    ensures r.Ok? ==> (r.value <==> Member(f, sip, x))
  {
    if !CanProbe(f) then Err(RemainderByZero) else AllSet(f.bits, Probes(f, sip, x))
  }

  /** `clear`: every bit becomes 0; the configuration stays. */
  function Clear(f: Filter): (r: Filter)
    requires WellFormed(f)
    ensures WellFormed(r) && IsComparable(r, f)
    ensures forall j | 0 <= j < f.bits.nbits :: !Model(r)[j]
  {
    f.(bits := BV.Clear(f.bits))
  }

  /** `union`: aborts unless the filters are comparable, otherwise the filter
      whose bits are the `OR` of both. */
  function Union(f: Filter, g: Filter): (r: Result<Filter>)
    requires WellFormed(f) && WellFormed(g)
    ensures r.Err? <==> !IsComparable(f, g)
    ensures r.Err? ==> r.error == IncompatibleFilters
    ensures r.Ok? ==> WellFormed(r.value) && IsComparable(r.value, f)
    ensures r.Ok? ==> forall j | 0 <= j < f.bits.nbits :: Model(r.value)[j] == (Model(f)[j] || Model(g)[j])
  {
    if !IsComparable(f, g) then
      Err(IncompatibleFilters)
    else
      match BV.Union(f.bits, g.bits)
      case Err(e) => Err(e)
      case Ok(b) => Ok(Filter(b, f.nhashes, f.seeds))
  }

  /** `intersection`: aborts unless the filters are comparable, otherwise the
      filter whose bits are the `AND` of both. */
  function Intersection(f: Filter, g: Filter): (r: Result<Filter>)
    requires WellFormed(f) && WellFormed(g)
    ensures r.Err? <==> !IsComparable(f, g)
    ensures r.Err? ==> r.error == IncompatibleFilters
    ensures r.Ok? ==> WellFormed(r.value) && IsComparable(r.value, f)
    ensures r.Ok? ==> forall j | 0 <= j < f.bits.nbits :: Model(r.value)[j] == (Model(f)[j] && Model(g)[j])
  {
    if !IsComparable(f, g) then
      Err(IncompatibleFilters)
    else
      match BV.Intersection(f.bits, g.bits)
      case Err(e) => Err(e)
      case Ok(b) => Ok(Filter(b, f.nhashes, f.seeds))
  }

  /** `as_bytes`, `AsRef<[u8]>` and `From<BloomFilter> for Vec<u8>`: the bit
      vector's raw buffer. */
  function AsBytes(f: Filter): (r: seq<bv8>)
    requires WellFormed(f)
    ensures |r| == BV.ByteLength(NumBits(f))
    ensures 8 * |r| >= NumBits(f) && BV.Bits(r)[..NumBits(f)] == Model(f)
    ensures forall i | NumBits(f) <= i < 8 * |r| :: !BV.Bits(r)[i]
  {
    BV.AsBytes(f.bits)
  }

  /** `From<Vec<u8>> for BloomFilter`: every byte's bits become addressable,
      the hash count is derived from that length at the default rate, and an
      empty buffer divides by zero while deriving it. */
  function FromBytes(bytes: seq<bv8>, hashesFor: nat -> nat): (r: Result<Filter>)
    ensures r.Err? <==> |bytes| == 0
    ensures r.Err? ==> r.error == DivisionByZero
    ensures r.Ok? ==> WellFormed(r.value) && NumBits(r.value) == 8 * |bytes|
    ensures r.Ok? ==> Model(r.value) == BV.Bits(bytes)
    ensures r.Ok? ==> NumHashes(r.value) == hashesFor(8 * |bytes|) && r.value.seeds == HASHER_SEEDS
  {
    if |bytes| == 0 then
      Err(DivisionByZero)
    else
      Ok(Filter(BV.FromBytes(bytes), hashesFor(8 * |bytes|), HASHER_SEEDS))
  }
}
