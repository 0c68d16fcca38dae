/** The promises of the Bloom filter that relate several calls: no false
    negatives, monotone and idempotent insertion, what union and intersection
    keep, clearing, equality and the raw-byte round trip. */
module BloomProps {
  import opened Results
  import BV = BitVector
  import BVP = BitVectorProps
  import opened Bloom

  /** Bit `j` is a probe position of some item of `xs`. */
  ghost predicate Probed<K>(f: Filter, sip: KeyedHash<K>, xs: seq<K>, j: nat)
  {
    CanProbe(f) && exists x | x in xs :: j in Probes(f, sip, x)
  }

  /** A filter loaded with `xs` in order, as the library's callers and tests
      build one: bit `j` ends up set exactly when it was set before or it is a
      probe position of one of the items. */
  function InsertAll<K>(f: Filter, sip: KeyedHash<K>, xs: seq<K>): (r: Result<Filter>)
    requires WellFormed(f)
    ensures r.Err? <==> |xs| > 0 && !CanProbe(f)
    ensures r.Ok? ==> WellFormed(r.value) && IsComparable(r.value, f)
    ensures r.Ok? ==> forall j | 0 <= j < f.bits.nbits ::
                        Model(r.value)[j] == (Model(f)[j] || Probed(f, sip, xs, j))
    decreases |xs|
  {
    if |xs| == 0 then
      Ok(f)
    else
      match Insert(f, sip, xs[0])
      case Err(e) => Err(e)
      case Ok(g) =>
        var r := InsertAll(g, sip, xs[1..]);
        if r.Ok? then LoadStep(f, g, r.value, sip, xs); r else r
  }

  /** One step of a load: what the rest of the load sets in the filter after
      the first insertion is what the whole load sets in the original. */
  lemma LoadStep<K>(f: Filter, g: Filter, h: Filter, sip: KeyedHash<K>, xs: seq<K>)
    requires WellFormed(f) && |xs| > 0 && Insert(f, sip, xs[0]) == Ok(g)
    requires WellFormed(h) && h.bits.nbits == g.bits.nbits
    requires forall j | 0 <= j < g.bits.nbits ::
               Model(h)[j] == (Model(g)[j] || Probed(g, sip, xs[1..], j))
    ensures forall j | 0 <= j < f.bits.nbits ::
              Model(h)[j] == (Model(f)[j] || Probed(f, sip, xs, j))
  {
    forall j | 0 <= j < f.bits.nbits
      ensures Model(h)[j] == (Model(f)[j] || Probed(f, sip, xs, j))
    {
      forall x | x in xs
        ensures Probes(g, sip, x) == Probes(f, sip, x)
      {
        ComparableProbes(f, g, sip, x);
      }
      assert xs[0] in xs;
      assert forall x :: x in xs <==> x == xs[0] || x in xs[1..];
      assert Probed(f, sip, xs, j) <==> j in Probes(f, sip, xs[0]) || Probed(g, sip, xs[1..], j);
    }
  }

  /** Comparable filters hash every item to the same positions. */
  lemma ComparableProbes<K>(f: Filter, g: Filter, sip: KeyedHash<K>, x: K)
    requires IsComparable(f, g) && CanProbe(f)
    ensures CanProbe(g) && Probes(f, sip, x) == Probes(g, sip, x)
  {
  }

  /** `y` divided by `n` leaves remainder `r` whenever `y = n*q + r` with
      `0 <= r < n`. */
  lemma ModUnique(y: int, n: int, q: int, r: int)
    requires n > 0 && y == n * q + r && 0 <= r < n
    ensures y % n == r
  {
    var q', r' := y / n, y % n;
    var d := q - q';
    assert y == n * q' + r';
    MulDistributes(n, q', d);
    assert n * d == r' - r;
    if d >= 1 {
      MulAtLeast(n, d);
    } else if d <= -1 {
      MulAtLeast(n, -d);
      MulDistributes(n, d, -d);
    }
  }

  lemma MulDistributes(n: int, a: int, b: int)
    ensures n * (a + b) == n * a + n * b
  {
  }

  lemma MulAtLeast(n: int, d: int)
    requires n > 0 && d >= 1
    ensures n * d >= n
  {
    MulDistributes(n, 1, d - 1);
    assert n * (d - 1) >= 0;
  }

  lemma SmallMod(x: int, n: int)
    requires 0 <= x < n
    ensures x % n == x
  {
    ModUnique(x, n, 0, x);
  }

  lemma ProductsNonNegative(a: nat, b: nat)
    ensures a * b >= 0 && a * a * a >= 0
  {
  }

  /** Reducing the summands first does not change the sum's remainder. */
  lemma ModAdd(a: int, b: int, n: int)
    requires n > 0
    ensures ((a % n) + (b % n)) % n == (a + b) % n
  {
    var s := a % n + b % n;
    assert a == n * (a / n) + a % n && b == n * (b / n) + b % n;
    assert s == n * (s / n) + s % n;
    assert a + b == n * (a / n + b / n + s / n) + s % n;
    ModUnique(a + b, n, a / n + b / n + s / n, s % n);
  }

  /** The probe position in closed form for all inputs: the exact value
      `h1 + i*h2 + i^3`, reduced modulo 2^64 and then modulo `m`. */
  lemma BloomHashClosedForm(h1: U64, h2: U64, i: U64, m: nat)
    requires m > 0
    ensures BloomHash(h1, h2, i, m) == ((h1 + i * h2 + i * i * i) % U64_MODULUS) % m
  {
    var M := U64_MODULUS;
    var p, c := i * h2, i * i * i;
    assert WrappingMul(i, h2) == p % M;
    assert WrappingCube(i) == c % M;
    assert h1 % M == h1;
    ModAdd(h1, p, M);
    var s := WrappingAdd(h1, WrappingMul(i, h2));
    assert s == (h1 + p) % M;
    assert s % M == s;
    ModAdd(h1 + p, c, M);
    assert WrappingAdd(s, WrappingCube(i)) == (h1 + p + c) % M;
  }

  /** When the 64-bit sums do not wrap, position `i` is
      `(h1 + i * h2 + i^3) mod m`. */
  lemma BloomHashFormula(h1: U64, h2: U64, i: U64, m: nat)
    requires m > 0
    requires h1 + i * h2 + i * i * i < U64_MODULUS
    ensures BloomHash(h1, h2, i, m) == (h1 + i * h2 + i * i * i) % m
  {
    BloomHashClosedForm(h1, h2, i, m);
    ProductsNonNegative(i, h2);
    SmallMod(h1 + i * h2 + i * i * i, U64_MODULUS);
  }

  /** No false negatives: right after `insert(x)`, `contains(x)` is true. */
  lemma NoFalseNegatives<K>(f: Filter, sip: KeyedHash<K>, x: K)
    requires WellFormed(f) && CanProbe(f)
    ensures Insert(f, sip, x).Ok?
    ensures Contains(Insert(f, sip, x).value, sip, x) == Ok(true)
  {
    var g := Insert(f, sip, x).value;
    ComparableProbes(f, g, sip, x);
  }

  /** Insertion only sets bits: every item a filter contained it still
      contains, and `bits()`/`hashes()` do not change. */
  lemma InsertMonotone<K>(f: Filter, sip: KeyedHash<K>, x: K, y: K)
    requires WellFormed(f) && Contains(f, sip, y) == Ok(true)
    ensures Insert(f, sip, x).Ok?
    ensures Contains(Insert(f, sip, x).value, sip, y) == Ok(true)
    ensures NumBits(Insert(f, sip, x).value) == NumBits(f)
    ensures NumHashes(Insert(f, sip, x).value) == NumHashes(f)
  {
    var g := Insert(f, sip, x).value;
    ComparableProbes(f, g, sip, y);
  }

  /** Inserting an item a second time changes nothing. */
  lemma InsertIdempotent<K>(f: Filter, sip: KeyedHash<K>, x: K)
    requires WellFormed(f) && CanProbe(f)
    ensures Insert(f, sip, x).Ok?
    ensures Insert(Insert(f, sip, x).value, sip, x) == Insert(f, sip, x)
  {
    var g := Insert(f, sip, x).value;
    var g' := Insert(g, sip, x).value;
    ComparableProbes(f, g, sip, x);
    assert BV.Model(g'.bits) == BV.Model(g.bits);
    BVP.Extensionality(g.bits, g'.bits);
  }

  /** The order of two insertions does not matter. */
  lemma InsertCommutes<K>(f: Filter, sip: KeyedHash<K>, x: K, y: K)
    requires WellFormed(f) && CanProbe(f)
    ensures Insert(f, sip, x).Ok? && Insert(f, sip, y).Ok?
    ensures Insert(Insert(f, sip, x).value, sip, y) == Insert(Insert(f, sip, y).value, sip, x)
  {
    var fx, fy := Insert(f, sip, x).value, Insert(f, sip, y).value;
    var a, b := Insert(fx, sip, y).value, Insert(fy, sip, x).value;
    ComparableProbes(f, fx, sip, y);
    ComparableProbes(f, fy, sip, x);
    assert BV.Model(a.bits) == BV.Model(b.bits);
    BVP.Extensionality(a.bits, b.bits);
  }

  /** Loading more items keeps every item already contained. */
  lemma {:induction false} InsertAllMonotone<K>(f: Filter, sip: KeyedHash<K>, xs: seq<K>, y: K)
    requires WellFormed(f) && Contains(f, sip, y) == Ok(true)
    ensures InsertAll(f, sip, xs).Ok?
    ensures Contains(InsertAll(f, sip, xs).value, sip, y) == Ok(true)
    decreases |xs|
  {
    if |xs| > 0 {
      InsertMonotone(f, sip, xs[0], y);
      InsertAllMonotone(Insert(f, sip, xs[0]).value, sip, xs[1..], y);
    }
  }

  /** No false negatives for a whole load: every item of `xs` is contained. */
  lemma {:induction false} InsertAllContainsAll<K>(f: Filter, sip: KeyedHash<K>, xs: seq<K>)
    requires WellFormed(f) && CanProbe(f)
    ensures InsertAll(f, sip, xs).Ok?
    ensures forall x | x in xs :: Contains(InsertAll(f, sip, xs).value, sip, x) == Ok(true)
    decreases |xs|
  {
    if |xs| > 0 {
      var g := Insert(f, sip, xs[0]).value;
      NoFalseNegatives(f, sip, xs[0]);
      InsertAllMonotone(g, sip, xs[1..], xs[0]);
      InsertAllContainsAll(g, sip, xs[1..]);
      assert forall x | x in xs :: x == xs[0] || x in xs[1..];
    }
  }

  /** A union contains every item either side contains. */
  lemma UnionKeepsMembers<K>(f: Filter, g: Filter, sip: KeyedHash<K>, x: K)
    requires WellFormed(f) && WellFormed(g) && IsComparable(f, g)
    ensures Union(f, g).Ok?
    ensures Contains(f, sip, x) == Ok(true) || Contains(g, sip, x) == Ok(true) ==>
              Contains(Union(f, g).value, sip, x) == Ok(true)
  {
    var u := Union(f, g).value;
    if CanProbe(f) {
      ComparableProbes(f, u, sip, x);
      ComparableProbes(f, g, sip, x);
    }
  }

  /** Two loaded filters: their union contains every item loaded into either
      (the union test of `src/bloom.rs`). */
  lemma UnionOfLoadedFilters<K>(a0: Filter, b0: Filter, sip: KeyedHash<K>, xs: seq<K>, ys: seq<K>)
    requires WellFormed(a0) && WellFormed(b0) && IsComparable(a0, b0) && CanProbe(a0)
    ensures InsertAll(a0, sip, xs).Ok? && InsertAll(b0, sip, ys).Ok?
    ensures Union(InsertAll(a0, sip, xs).value, InsertAll(b0, sip, ys).value).Ok?
    ensures forall x | x in xs + ys ::
      Contains(Union(InsertAll(a0, sip, xs).value, InsertAll(b0, sip, ys).value).value, sip, x) == Ok(true)
  {
    InsertAllContainsAll(a0, sip, xs);
    InsertAllContainsAll(b0, sip, ys);
    var a, b := InsertAll(a0, sip, xs).value, InsertAll(b0, sip, ys).value;
    forall x | x in xs + ys
      ensures Contains(Union(a, b).value, sip, x) == Ok(true)
    {
      UnionKeepsMembers(a, b, sip, x);
    }
  }

  /** An intersection contains an item exactly when both sides contain it;
      in particular every bit set in it is set in both inputs. */
  lemma IntersectionMembers<K>(f: Filter, g: Filter, sip: KeyedHash<K>, x: K)
    requires WellFormed(f) && WellFormed(g) && IsComparable(f, g)
    ensures Intersection(f, g).Ok?
    ensures Contains(Intersection(f, g).value, sip, x) == Ok(true) <==>
              Contains(f, sip, x) == Ok(true) && Contains(g, sip, x) == Ok(true)
  {
    var n := Intersection(f, g).value;
    if CanProbe(f) {
      ComparableProbes(f, n, sip, x);
      ComparableProbes(f, g, sip, x);
    }
  }

  /** `is_comparable` is an equivalence relation. */
  lemma ComparableIsEquivalence(f: Filter, g: Filter, h: Filter)
    ensures IsComparable(f, f)
    ensures IsComparable(f, g) ==> IsComparable(g, f)
    ensures IsComparable(f, g) && IsComparable(g, h) ==> IsComparable(f, h)
  {
  }

  /** A cleared filter is the freshly built filter of the same configuration. */
  lemma ClearIsFresh(f: Filter)
    requires WellFormed(f) && f.seeds == HASHER_SEEDS
    ensures Clear(f) == Create(NumBits(f), NumHashes(f))
  {
  }

  /** A cleared filter with at least one hash contains nothing. */
  lemma ClearForgets<K>(f: Filter, sip: KeyedHash<K>, x: K)
    requires WellFormed(f) && NumHashes(f) > 0 && NumBits(f) > 0
    ensures Contains(Clear(f), sip, x) == Ok(false)
  {
    var c := Clear(f);
    var ps := Probes(c, sip, x);
    assert ps[0] in ps && !Model(c)[ps[0]];
  }

  /** `impl Eq`: filter equality is an equivalence relation, and it ignores
      the keys. */
  lemma EqualIsEquivalence(f: Filter, g: Filter, h: Filter)
    requires WellFormed(f) && WellFormed(g) && WellFormed(h)
    ensures Equal(f, f)
    ensures Equal(f, g) ==> Equal(g, f)
    ensures Equal(f, g) && Equal(g, h) ==> Equal(f, h)
    ensures Equal(f, f.(seeds := g.seeds))
  {
  }

  /** `hashes()` is the number of positions `insert` sets and `contains`
      checks for every item. */
  lemma HashesCountProbes<K>(f: Filter, sip: KeyedHash<K>, x: K)
    requires CanProbe(f)
    ensures |Probes(f, sip, x)| == NumHashes(f)
  {
  }

  /** With no hash at all, every item is reported present and inserting
      changes nothing. */
  lemma ZeroHashesContainAll<K>(f: Filter, sip: KeyedHash<K>, x: K)
    requires WellFormed(f) && NumHashes(f) == 0
    ensures Contains(f, sip, x) == Ok(true)
    ensures Insert(f, sip, x) == Ok(f)
  {
    var g := Insert(f, sip, x).value;
    assert BV.Model(g.bits) == BV.Model(f.bits);
    BVP.Extensionality(f.bits, g.bits);
  }

  /** `sip_hashes` hashes with copies of the filter's hashers: the digests of
      an item depend on the two keys alone, not on the bits or the hash count,
      and hashing leaves the filter as it was. */
  lemma DigestsDependOnKeys<K>(f: Filter, g: Filter, sip: KeyedHash<K>, x: K)
    requires f.seeds == g.seeds
    ensures SipHashes(f, sip, x) == SipHashes(g, sip, x)
    ensures SipHashes(f, sip, x) == (sip(f.seeds.first, x), sip(f.seeds.second, x))
  {
  }

  /** Bytes -> filter -> bytes is the identity, and the filter has
      `8 * |bytes|` bits. */
  lemma BytesRoundTrip(bytes: seq<bv8>, hashesFor: nat -> nat)
    requires |bytes| > 0
    ensures FromBytes(bytes, hashesFor).Ok?
    ensures AsBytes(FromBytes(bytes, hashesFor).value) == bytes
    ensures NumBits(FromBytes(bytes, hashesFor).value) == 8 * |bytes|
  {
  }

  /** Filter -> bytes -> filter gives the same filter back exactly when the
      bit length is a non-zero whole number of bytes and the hash count is
      the one derived for that length; the keys are always the fixed ones. */
  lemma FilterRoundTrip(f: Filter, hashesFor: nat -> nat)
    requires WellFormed(f) && f.seeds == HASHER_SEEDS
    ensures FromBytes(AsBytes(f), hashesFor) == Ok(f) <==>
              NumBits(f) > 0 && NumBits(f) % 8 == 0 && NumHashes(f) == hashesFor(NumBits(f))
  {
    if NumBits(f) > 0 && NumBits(f) % 8 == 0 && NumHashes(f) == hashesFor(NumBits(f)) {
      assert BV.FromBytes(f.bits.bytes) == f.bits;
    }
  }

  /** The raw test of `src/bloom.rs`: a filter built by size and loaded with
      items comes back from the byte round trip as the same filter, so with
      the same bits, `bits()` and `hashes()`. */
  lemma LoadedFilterRoundTrip<K>(nbytes: nat, hashesFor: nat -> nat, sip: KeyedHash<K>, xs: seq<K>)
    requires nbytes > 0
    ensures WithSize(nbytes, hashesFor).Ok?
    ensures InsertAll(WithSize(nbytes, hashesFor).value, sip, xs).Ok?
    ensures
      var a := InsertAll(WithSize(nbytes, hashesFor).value, sip, xs).value;
      NumBits(a) == 8 * nbytes && FromBytes(AsBytes(a), hashesFor) == Ok(a)
  {
    var f := WithSize(nbytes, hashesFor).value;
    assert WellFormed(f) && NumBits(f) == 8 * nbytes && CanProbe(f);
    var a := InsertAll(f, sip, xs).value;
    assert WellFormed(a) && IsComparable(a, f);
    assert a.seeds == HASHER_SEEDS && NumBits(a) == 8 * nbytes;
    assert NumHashes(a) == hashesFor(NumBits(a));
    FilterRoundTrip(a, hashesFor);
  }
}
