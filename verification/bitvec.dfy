/** The packed bit vector of `src/bitvec.rs`.

    A `BitVec` is a byte buffer plus a logical bit length `nbits`. Bit `i`
    lives in byte `i / 8` under the mask `0x01 << (i % 8)`, least significant
    bit first. The abstraction `Model` reads the buffer back as a sequence of
    `nbits` booleans; every contract below is stated against it. */
module BitVector {
  import opened Results

  datatype BitVec = BitVec(bytes: seq<bv8>, nbits: nat)

  /* ---------------------------------------------------------------------
     Bits of a byte and of a buffer
     --------------------------------------------------------------------- */

  /** The mask of bit `j` inside a byte, `0x01 << j`, tabulated
      (`MaskIsShift` proves the two agree). */
  function Weight(j: nat): bv8
    requires j < 8
  {
    if j == 0 then 0x01 else if j == 1 then 0x02 else if j == 2 then 0x04
    else if j == 3 then 0x08 else if j == 4 then 0x10 else if j == 5 then 0x20
    else if j == 6 then 0x40 else 0x80
  }

  /** Bit `j` of a byte. */
  predicate ByteBit(b: bv8, j: nat)
    requires j < 8
  {
    b & Weight(j) != 0
  }

  /** The eight bits of a byte, least significant first. */
  function ByteBits(b: bv8): (r: seq<bool>)
    ensures |r| == 8
  {
    seq(8, j requires 0 <= j < 8 => ByteBit(b, j))
  }

  /** All bits of a buffer, byte after byte; the reference reading of a buffer. */
  function Bits(bs: seq<bv8>): (r: seq<bool>)
    ensures |r| == 8 * |bs|
  {
    if |bs| == 0 then [] else ByteBits(bs[0]) + Bits(bs[1..])
  }

  /** The bit test the library performs on the packed buffer. */
  predicate BitOf(bs: seq<bv8>, i: nat)
    requires i < 8 * |bs|
  {
    bs[i / 8] & Weight(i % 8) == Weight(i % 8)
  }

  /** The number of `1` bits of a byte (`u8::count_ones`), from bit `j` up. */
  function PopCount(b: bv8, j: nat := 0): nat
    requires j <= 8
    decreases 8 - j
  {
    if j == 8 then 0 else (if ByteBit(b, j) then 1 else 0) + PopCount(b, j + 1)
  }

  /** The sum of the byte pop-counts of a buffer. */
  function SumPop(bs: seq<bv8>): nat
  {
    if |bs| == 0 then 0 else PopCount(bs[0]) + SumPop(bs[1..])
  }

  /** A buffer of `n` zero bytes (`vec![0; n]`). */
  function Zeros(n: nat): (r: seq<bv8>)
    ensures |r| == n
  {
    seq(n, _ => 0)
  }

  /** The byte-wise `OR` of two buffers, as `zip` + `map` builds it: the
      shorter buffer decides the length. */
  function ZipOr(xs: seq<bv8>, ys: seq<bv8>): (r: seq<bv8>)
    ensures |r| == if |xs| <= |ys| then |xs| else |ys|
  {
    var n := if |xs| <= |ys| then |xs| else |ys|;
    seq(n, k requires 0 <= k < n => xs[k] | ys[k])
  }

  /** The byte-wise `AND` of two buffers, truncated like `ZipOr`. */
  function ZipAnd(xs: seq<bv8>, ys: seq<bv8>): (r: seq<bv8>)
    ensures |r| == if |xs| <= |ys| then |xs| else |ys|
  {
    var n := if |xs| <= |ys| then |xs| else |ys|;
    seq(n, k requires 0 <= k < n => xs[k] & ys[k])
  }

  /** The buffer with bit `i` switched on (`bytes[i / 8] |= 0x01 << (i % 8)`). */
  function WithBit(bs: seq<bv8>, i: nat): (r: seq<bv8>)
    requires i < 8 * |bs|
    ensures |r| == |bs|
  {
    bs[i / 8 := bs[i / 8] | Weight(i % 8)]
  }

  /* ---------------------------------------------------------------------
     Counting booleans
     --------------------------------------------------------------------- */

  /** How many entries of `s` equal `b`. */
  function Count(s: seq<bool>, b: bool): nat
  {
    if |s| == 0 then 0 else (if s[0] == b then 1 else 0) + Count(s[1..], b)
  }

  /* ---------------------------------------------------------------------
     The representation invariant and the abstraction
     --------------------------------------------------------------------- */

  /** The byte length `new` allocates for `capacity` bits: `capacity / 8`
      rounded up. */
  function ByteLength(capacity: nat): (r: nat)
    ensures capacity <= 8 * r < capacity + 8
  {
    if capacity % 8 == 0 then capacity / 8 else 1 + capacity / 8
  }

  /** What every constructor establishes and every operation keeps: the buffer
      holds exactly `ceil(nbits / 8)` bytes and the padding bits of the tail
      byte, at or beyond `nbits`, are 0. */
  ghost predicate Valid(v: BitVec)
  {
    && |v.bytes| == ByteLength(v.nbits)
    && forall i | v.nbits <= i < 8 * |v.bytes| :: !Bits(v.bytes)[i]
  }

  /** The `nbits` addressable bits of a vector. */
  function Model(v: BitVec): (r: seq<bool>)
    requires v.nbits <= 8 * |v.bytes|
    ensures |r| == v.nbits
  {
    Bits(v.bytes)[..v.nbits]
  }

  /* ---------------------------------------------------------------------
     Operations of `BitVec`
     --------------------------------------------------------------------- */

  /** `BitVec::new`: `capacity` addressable bits, all 0, in `ceil(capacity / 8)`
      bytes. */
  function New(capacity: nat): (r: BitVec)
    ensures Valid(r) && r.nbits == capacity
    ensures 8 * |r.bytes| >= capacity && 8 * (|r.bytes| - 1) < capacity
    ensures forall i | 0 <= i < capacity :: !Model(r)[i]
  {
    BitsOfZeros(ByteLength(capacity));
    BitVec(Zeros(ByteLength(capacity)), capacity)
  }

  /** `BitVec::len`: the logical bit count, not the byte count. */
  function Len(v: BitVec): (r: nat)
    requires Valid(v)
    ensures r == |Model(v)|
  {
    v.nbits
  }

  /** `BitVec::is_empty`. */
  predicate IsEmpty(v: BitVec)
    requires Valid(v)
    ensures IsEmpty(v) <==> Model(v) == []
  {
    v.nbits == 0
  }

  /** `BitVec::clear`: every bit becomes 0, the length stays. */
  function Clear(v: BitVec): (r: BitVec)
    requires Valid(v)
    ensures Valid(r) && r.nbits == v.nbits && |r.bytes| == |v.bytes|
    ensures forall i | 0 <= i < r.nbits :: !Model(r)[i]
  {
    BitsOfZeros(|v.bytes|);
    BitVec(Zeros(|v.bytes|), v.nbits)
  }

  /** `BitVec::set`: aborts exactly when `i` is out of range, otherwise turns
      bit `i` on and leaves every other bit, padding included, as it was. */
  function Set(v: BitVec, i: nat): (r: Result<BitVec>)
    requires Valid(v)
    ensures r.Err? <==> i >= v.nbits
    ensures r.Err? ==> r.error == IndexOutOfBounds(v.nbits, i)
    ensures r.Ok? ==> Valid(r.value) && r.value.nbits == v.nbits
    ensures r.Ok? ==> Model(r.value) == Model(v)[i := true]
  {
    if i >= v.nbits then
      Err(IndexOutOfBounds(v.nbits, i))
    else
      SetKeepsValid(v, i);
      Ok(BitVec(WithBit(v.bytes, i), v.nbits))
  }

  /** `BitVec::is_set`: aborts exactly when `i` is out of range, otherwise
      reads bit `i`. */
  function IsSet(v: BitVec, i: nat): (r: Result<bool>)
    requires Valid(v)
    ensures r.Err? <==> i >= v.nbits
    ensures r.Err? ==> r.error == IndexOutOfBounds(v.nbits, i)
    ensures r.Ok? ==> r.value == Model(v)[i]
  {
    if i >= v.nbits then
      Err(IndexOutOfBounds(v.nbits, i))
    else
      BitOfIsBit(v.bytes, i);
      Ok(BitOf(v.bytes, i))
  }

  /** `BitVec::count_ones`: the byte pop-counts summed, which is the number
      of set bits because the padding is 0. */
  function CountOnes(v: BitVec): (r: nat)
    requires Valid(v)
    ensures r == Count(Model(v), true)
    ensures r <= v.nbits
  {
    CountOnesIsModelCount(v);
    CountSplit(Model(v));
    SumPop(v.bytes)
  }

  /** `BitVec::count_zeros`: `len() - count_ones()`, which never underflows. */
  function CountZeros(v: BitVec): (r: nat)
    requires Valid(v)
    ensures r == Count(Model(v), false)
  {
    CountSplit(Model(v));
    v.nbits - CountOnes(v)
  }

  /** `BitVec::union`: aborts on different lengths, otherwise the bitwise `OR`. */
  function Union(a: BitVec, b: BitVec): (r: Result<BitVec>)
    requires Valid(a) && Valid(b)
    ensures r.Err? <==> a.nbits != b.nbits
    ensures r.Err? ==> r.error == LengthMismatch(a.nbits, b.nbits)
    ensures r.Ok? ==> Valid(r.value) && r.value.nbits == a.nbits
    ensures r.Ok? ==> forall i | 0 <= i < a.nbits :: Model(r.value)[i] == (Model(a)[i] || Model(b)[i])
  {
    if a.nbits != b.nbits then
      Err(LengthMismatch(a.nbits, b.nbits))
    else
      UnionBits(a, b);
      Ok(BitVec(ZipOr(a.bytes, b.bytes), a.nbits))
  }

  /** `BitVec::intersection`: aborts on different lengths, otherwise the
      bitwise `AND`. */
  function Intersection(a: BitVec, b: BitVec): (r: Result<BitVec>)
    requires Valid(a) && Valid(b)
    ensures r.Err? <==> a.nbits != b.nbits
    ensures r.Err? ==> r.error == LengthMismatch(a.nbits, b.nbits)
    ensures r.Ok? ==> Valid(r.value) && r.value.nbits == a.nbits
    ensures r.Ok? ==> forall i | 0 <= i < a.nbits :: Model(r.value)[i] == (Model(a)[i] && Model(b)[i])
  {
    if a.nbits != b.nbits then
      Err(LengthMismatch(a.nbits, b.nbits))
    else
      IntersectionBits(a, b);
      Ok(BitVec(ZipAnd(a.bytes, b.bytes), a.nbits))
  }

  /** `BitVec::as_bytes`, and `From<BitVec> for Vec<u8>`: the raw buffer,
      padding included. */
  function AsBytes(v: BitVec): (r: seq<bv8>)
    requires Valid(v)
    ensures |r| == ByteLength(v.nbits)
    ensures 8 * |r| >= v.nbits && Bits(r)[..v.nbits] == Model(v)
    ensures forall i | v.nbits <= i < 8 * |r| :: !Bits(r)[i]
  {
    v.bytes
  }

  /** `From<Vec<u8>> for BitVec`: every bit of the buffer is addressable. */
  function FromBytes(bs: seq<bv8>): (r: BitVec)
    ensures Valid(r) && r.nbits == 8 * |bs|
    ensures Model(r) == Bits(bs)
  {
    BitVec(bs, 8 * |bs|)
  }

  /* ---------------------------------------------------------------------
     Lemmas about bytes and buffers
     --------------------------------------------------------------------- */

  /** The tabulated mask is the library's shifted one. */
  lemma MaskIsShift(j: nat)
    requires j < 8
    ensures Weight(j) == (1 as bv8) << j
  {
    if j == 0 {} else if j == 1 {} else if j == 2 {} else if j == 3 {}
    else if j == 4 {} else if j == 5 {} else if j == 6 {} else {}
  }

  /** The library's mask test reads the same bit as `ByteBits`. */
  lemma MaskTest(b: bv8, j: nat)
    requires j < 8
    ensures ByteBits(b)[j] == (b & Weight(j) == Weight(j))
  {
    assert ByteBits(b)[j] == ByteBit(b, j);
    OneHot(j);
  }

  /** Each weight has exactly one bit set. */
  lemma OneHot(j: nat)
    requires j < 8
    ensures var w := Weight(j);
      w == 1 || w == 2 || w == 4 || w == 8 || w == 16 || w == 32 || w == 64 || w == 128
  {
  }

  /** Distinct bits have disjoint weights. */
  lemma WeightsDisjoint(p: nat, q: nat)
    requires p < 8 && q < 8
    ensures (Weight(p) & Weight(q) != 0) == (p == q)
  {
  }

  /** `OR` distributes over a mask test. */
  lemma OrUnderMask(x: bv8, y: bv8, m: bv8)
    ensures ((x | y) & m != 0) == ((x & m != 0) || (y & m != 0))
  {
  }

  /** Switching bit `p` on changes bit `p` only. */
  lemma ByteBitsOr(b: bv8, p: nat, q: nat)
    requires p < 8 && q < 8
    ensures ByteBits(b | Weight(p))[q] == (ByteBits(b)[q] || p == q)
  {
    assert ByteBits(b | Weight(p))[q] == ByteBit(b | Weight(p), q);
    assert ByteBits(b)[q] == ByteBit(b, q);
    OrUnderMask(b, Weight(p), Weight(q));
    WeightsDisjoint(p, q);
  }

  /** Bitwise `OR` acts bit by bit. */
  lemma ByteBitsOrAt(x: bv8, y: bv8, j: nat)
    requires j < 8
    ensures ByteBits(x | y)[j] == (ByteBits(x)[j] || ByteBits(y)[j])
  {
    assert ByteBits(x | y)[j] == ByteBit(x | y, j);
    assert ByteBits(x)[j] == ByteBit(x, j) && ByteBits(y)[j] == ByteBit(y, j);
    OrUnderMask(x, y, Weight(j));
  }

  /** Bitwise `AND` acts bit by bit. */
  lemma ByteBitsAndAt(x: bv8, y: bv8, j: nat)
    requires j < 8
    ensures ByteBits(x & y)[j] == (ByteBits(x)[j] && ByteBits(y)[j])
  {
    ByteBitAnd(x, y, j);
    assert ByteBits(x & y)[j] == ByteBit(x & y, j);
    assert ByteBits(x)[j] == ByteBit(x, j) && ByteBits(y)[j] == ByteBit(y, j);
  }

  lemma ByteBitAnd(x: bv8, y: bv8, j: nat)
    requires j < 8
    ensures ByteBit(x & y, j) == (ByteBit(x, j) && ByteBit(y, j))
  {
    OneHot(j);
    AndUnderOneHot(x, y, Weight(j));
  }

  lemma AndUnderOneHot(x: bv8, y: bv8, w: bv8)
    requires w == 1 || w == 2 || w == 4 || w == 8 || w == 16 || w == 32 || w == 64 || w == 128
    ensures ((x & y) & w != 0) == ((x & w != 0) && (y & w != 0))
  {
  }

  /** Two bytes with the same eight bits are the same byte. */
  lemma ByteBitsInjective(x: bv8, y: bv8)
    requires ByteBits(x) == ByteBits(y)
    ensures x == y
  {
    forall j | 0 <= j < 8
      ensures ByteBit(x, j) == ByteBit(y, j)
    {
      assert ByteBits(x)[j] == ByteBit(x, j) && ByteBits(y)[j] == ByteBit(y, j);
    }
    assert ByteBit(x, 0) == ByteBit(y, 0) && ByteBit(x, 1) == ByteBit(y, 1);
    assert ByteBit(x, 2) == ByteBit(y, 2) && ByteBit(x, 3) == ByteBit(y, 3);
    assert ByteBit(x, 4) == ByteBit(y, 4) && ByteBit(x, 5) == ByteBit(y, 5);
    assert ByteBit(x, 6) == ByteBit(y, 6) && ByteBit(x, 7) == ByteBit(y, 7);
    SameMasksSameByte(x, y);
  }

  lemma SameMasksSameByte(x: bv8, y: bv8)
    requires (x & 0x01 != 0) == (y & 0x01 != 0) && (x & 0x02 != 0) == (y & 0x02 != 0)
    requires (x & 0x04 != 0) == (y & 0x04 != 0) && (x & 0x08 != 0) == (y & 0x08 != 0)
    requires (x & 0x10 != 0) == (y & 0x10 != 0) && (x & 0x20 != 0) == (y & 0x20 != 0)
    requires (x & 0x40 != 0) == (y & 0x40 != 0) && (x & 0x80 != 0) == (y & 0x80 != 0)
    ensures x == y
  {
  }

  /** Bit `i` of a buffer is bit `i % 8` of byte `i / 8`. */
  lemma {:induction false} BitsIndex(bs: seq<bv8>, i: nat)
    requires i < 8 * |bs|
    ensures Bits(bs)[i] == ByteBits(bs[i / 8])[i % 8]
    decreases |bs|
  {
    assert Bits(bs) == ByteBits(bs[0]) + Bits(bs[1..]);
    if i >= 8 {
      BitsIndex(bs[1..], i - 8);
      DivModEight(i);
    }
  }

  /** Bit `j` of byte `k` sits at index `8 * k + j` of `Bits`. */
  lemma BitsAt(bs: seq<bv8>, k: nat, j: nat)
    requires k < |bs| && j < 8
    ensures 8 * k + j < 8 * |bs|
    ensures Bits(bs)[8 * k + j] == ByteBits(bs[k])[j]
  {
    var i := 8 * k + j;
    ByteOffset(k, j);
    assert i / 8 == k && i % 8 == j;
    BitsIndex(bs, i);
    assert bs[i / 8] == bs[k];
  }

  lemma ByteOffset(k: nat, j: nat)
    requires j < 8
    ensures (8 * k + j) / 8 == k && (8 * k + j) % 8 == j
  {
  }

  lemma DivModEight(i: nat)
    requires i >= 8
    ensures (i - 8) / 8 == i / 8 - 1 && (i - 8) % 8 == i % 8
  {
  }

  /** The library's bit test reads bit `i` of `Bits`. */
  lemma BitOfIsBit(bs: seq<bv8>, i: nat)
    requires i < 8 * |bs|
    ensures Bits(bs)[i] == BitOf(bs, i)
  {
    BitsIndex(bs, i);
    MaskTest(bs[i / 8], i % 8);
  }

  /** A buffer is determined by its bits. */
  lemma BitsInjective(xs: seq<bv8>, ys: seq<bv8>)
    requires |xs| == |ys| && Bits(xs) == Bits(ys)
    ensures xs == ys
  {
    forall k | 0 <= k < |xs|
      ensures xs[k] == ys[k]
    {
      forall j | 0 <= j < 8
        ensures ByteBits(xs[k])[j] == ByteBits(ys[k])[j]
      {
        BitsAt(xs, k, j);
        BitsAt(ys, k, j);
      }
      ByteBitsInjective(xs[k], ys[k]);
    }
  }

  /** A zero buffer has no bit set. */
  lemma BitsOfZeros(n: nat)
    ensures forall i | 0 <= i < 8 * n :: !Bits(Zeros(n))[i]
  {
    forall i | 0 <= i < 8 * n
      ensures !Bits(Zeros(n))[i]
    {
      BitsIndex(Zeros(n), i);
    }
  }

  /** Two bit indices are equal exactly when byte and bit offset agree. */
  lemma SameIndex(i: nat, j: nat)
    ensures i == j <==> (i / 8 == j / 8 && i % 8 == j % 8)
  {
    assert i == 8 * (i / 8) + i % 8 && j == 8 * (j / 8) + j % 8;
  }

  /** `WithBit` rewrites byte `i / 8` only. */
  lemma WithBitByte(bs: seq<bv8>, i: nat, k: nat)
    requires i < 8 * |bs| && k < |bs|
    ensures |WithBit(bs, i)| == |bs|
    ensures WithBit(bs, i)[k] == if k == i / 8 then bs[k] | Weight(i % 8) else bs[k]
  {
  }

  lemma WithBitAt(bs: seq<bv8>, i: nat, j: nat)
    requires i < 8 * |bs| && j < 8 * |bs|
    ensures Bits(WithBit(bs, i))[j] == (Bits(bs)[j] || i == j)
  {
    SameIndex(i, j);
    if j / 8 == i / 8 {
      WithBitSameByte(bs, i, j);
    } else {
      WithBitOtherByte(bs, i, j);
    }
  }

  /** Inside byte `i / 8`, switching bit `i` on changes bit `i % 8` only. */
  lemma WithBitSameByte(bs: seq<bv8>, i: nat, j: nat)
    requires i < 8 * |bs| && j < 8 * |bs| && j / 8 == i / 8
    ensures Bits(WithBit(bs, i))[j] == (Bits(bs)[j] || i % 8 == j % 8)
  {
    Split(bs, i);
    Split(bs, j);
    var w, k := WithBit(bs, i), j / 8;
    WithBitByte(bs, i, k);
    assert w[k] == bs[k] | Weight(i % 8);
    BitsIndex(w, j);
    BitsIndex(bs, j);
    ByteBitsOr(bs[k], i % 8, j % 8);
  }

  /** The other bytes are left as they were. */
  lemma WithBitOtherByte(bs: seq<bv8>, i: nat, j: nat)
    requires i < 8 * |bs| && j < 8 * |bs| && j / 8 != i / 8
    ensures Bits(WithBit(bs, i))[j] == Bits(bs)[j]
  {
    Split(bs, j);
    var w, k := WithBit(bs, i), j / 8;
    WithBitByte(bs, i, k);
    assert w[k] == bs[k];
    BitsIndex(w, j);
    BitsIndex(bs, j);
  }

  /** Setting one bit of a buffer changes that bit of `Bits` and no other. */
  lemma BitsWithBit(bs: seq<bv8>, i: nat)
    requires i < 8 * |bs|
    ensures |WithBit(bs, i)| == |bs|
    ensures forall j | 0 <= j < 8 * |bs| :: Bits(WithBit(bs, i))[j] == (Bits(bs)[j] || i == j)
  {
    forall j | 0 <= j < 8 * |bs|
      ensures Bits(WithBit(bs, i))[j] == (Bits(bs)[j] || i == j)
    {
      WithBitAt(bs, i, j);
    }
  }

  /** `set` keeps the padding 0 and turns on exactly bit `i`. */
  lemma SetKeepsValid(v: BitVec, i: nat)
    requires Valid(v) && i < v.nbits
    ensures Valid(BitVec(WithBit(v.bytes, i), v.nbits))
    ensures Model(BitVec(WithBit(v.bytes, i), v.nbits)) == Model(v)[i := true]
  {
    BitsWithBit(v.bytes, i);
    var w := BitVec(WithBit(v.bytes, i), v.nbits);
    var m, m' := Model(v)[i := true], Model(w);
    assert |m| == |m'| == v.nbits;
    forall j | 0 <= j < v.nbits
      ensures m'[j] == m[j]
    {
      assert m'[j] == Bits(w.bytes)[j];
    }
  }

  /** Byte `i / 8` exists and bit `i % 8` is in range. */
  lemma Split(bs: seq<bv8>, i: nat)
    requires i < 8 * |bs|
    ensures i / 8 < |bs| && i % 8 < 8
  {
  }

  lemma ZipOrAt(xs: seq<bv8>, ys: seq<bv8>, i: nat)
    requires |xs| == |ys| && i < 8 * |xs|
    ensures Bits(ZipOr(xs, ys))[i] == (Bits(xs)[i] || Bits(ys)[i])
  {
    Split(xs, i);
    var z, k, j := ZipOr(xs, ys), i / 8, i % 8;
    BitsIndex(z, i);
    BitsIndex(xs, i);
    BitsIndex(ys, i);
    ZipOrByte(xs, ys, k, j);
  }

  lemma ZipOrByte(xs: seq<bv8>, ys: seq<bv8>, k: nat, j: nat)
    requires |xs| == |ys| && k < |xs| && j < 8
    ensures ByteBits(ZipOr(xs, ys)[k])[j] == (ByteBits(xs[k])[j] || ByteBits(ys[k])[j])
  {
    var x, y := xs[k], ys[k];
    assert ZipOr(xs, ys)[k] == x | y;
    ByteBitsOrAt(x, y, j);
  }

  lemma ZipAndAt(xs: seq<bv8>, ys: seq<bv8>, i: nat)
    requires |xs| == |ys| && i < 8 * |xs|
    ensures Bits(ZipAnd(xs, ys))[i] == (Bits(xs)[i] && Bits(ys)[i])
  {
    Split(xs, i);
    var z, k, j := ZipAnd(xs, ys), i / 8, i % 8;
    BitsIndex(z, i);
    BitsIndex(xs, i);
    BitsIndex(ys, i);
    ZipAndByte(xs, ys, k, j);
  }

  lemma ZipAndByte(xs: seq<bv8>, ys: seq<bv8>, k: nat, j: nat)
    requires |xs| == |ys| && k < |xs| && j < 8
    ensures ByteBits(ZipAnd(xs, ys)[k])[j] == (ByteBits(xs[k])[j] && ByteBits(ys[k])[j])
  {
    var x, y := xs[k], ys[k];
    assert ZipAnd(xs, ys)[k] == x & y;
    ByteBitsAndAt(x, y, j);
  }

  lemma UnionBits(a: BitVec, b: BitVec)
    requires Valid(a) && Valid(b) && a.nbits == b.nbits
    ensures Valid(BitVec(ZipOr(a.bytes, b.bytes), a.nbits))
    ensures forall i | 0 <= i < a.nbits ::
      Model(BitVec(ZipOr(a.bytes, b.bytes), a.nbits))[i] == (Model(a)[i] || Model(b)[i])
  {
    forall i | 0 <= i < 8 * |a.bytes|
      ensures Bits(ZipOr(a.bytes, b.bytes))[i] == (Bits(a.bytes)[i] || Bits(b.bytes)[i])
    {
      ZipOrAt(a.bytes, b.bytes, i);
    }
  }

  lemma IntersectionBits(a: BitVec, b: BitVec)
    requires Valid(a) && Valid(b) && a.nbits == b.nbits
    ensures Valid(BitVec(ZipAnd(a.bytes, b.bytes), a.nbits))
    ensures forall i | 0 <= i < a.nbits ::
      Model(BitVec(ZipAnd(a.bytes, b.bytes), a.nbits))[i] == (Model(a)[i] && Model(b)[i])
  {
    forall i | 0 <= i < 8 * |a.bytes|
      ensures Bits(ZipAnd(a.bytes, b.bytes))[i] == (Bits(a.bytes)[i] && Bits(b.bytes)[i])
    {
      ZipAndAt(a.bytes, b.bytes, i);
    }
  }

  /* ---------------------------------------------------------------------
     Lemmas about counting
     --------------------------------------------------------------------- */

  lemma {:induction false} CountAppend(s: seq<bool>, t: seq<bool>, b: bool)
    ensures Count(s + t, b) == Count(s, b) + Count(t, b)
    decreases |s|
  {
    if |s| > 0 {
      CountAppend(s[1..], t, b);
      assert (s + t)[1..] == s[1..] + t;
    } else {
      assert s + t == t;
    }
  }

  /** Every entry is either `true` or `false`. */
  lemma {:induction false} CountSplit(s: seq<bool>)
    ensures Count(s, true) + Count(s, false) == |s|
    decreases |s|
  {
    if |s| > 0 {
      CountSplit(s[1..]);
    }
  }

  /** A sequence without the value `b` counts no `b`. */
  lemma {:induction false} CountNone(s: seq<bool>, b: bool)
    requires forall i | 0 <= i < |s| :: s[i] != b
    ensures Count(s, b) == 0
    decreases |s|
  {
    if |s| > 0 {
      CountNone(s[1..], b);
    }
  }

  /** Switching one entry on adds one `true` exactly when it was off. */
  lemma {:induction false} CountUpdate(s: seq<bool>, i: nat)
    requires i < |s|
    ensures Count(s[i := true], true) == Count(s, true) + (if s[i] then 0 else 1)
    decreases |s|
  {
    if i == 0 {
      assert s[i := true][1..] == s[1..];
    } else {
      CountUpdate(s[1..], i - 1);
      assert s[i := true][1..] == s[1..][i - 1 := true];
    }
  }

  /** Pointwise implication between equally long sequences bounds the counts. */
  lemma {:induction false} CountMonotone(s: seq<bool>, t: seq<bool>)
    requires |s| == |t|
    requires forall i | 0 <= i < |s| :: s[i] ==> t[i]
    ensures Count(s, true) <= Count(t, true)
    decreases |s|
  {
    if |s| > 0 {
      CountMonotone(s[1..], t[1..]);
    }
  }

  /** The pop-count of a byte counts its set bits. */
  lemma {:induction false} PopCountBits(b: bv8, j: nat := 0)
    requires j <= 8
    ensures PopCount(b, j) == Count(ByteBits(b)[j..], true)
    decreases 8 - j
  {
    if j < 8 {
      PopCountBits(b, j + 1);
      assert ByteBits(b)[j..][1..] == ByteBits(b)[j + 1..];
    }
  }

  lemma {:induction false} SumPopBits(bs: seq<bv8>)
    ensures SumPop(bs) == Count(Bits(bs), true)
    decreases |bs|
  {
    if |bs| > 0 {
      SumPopBits(bs[1..]);
      PopCountBits(bs[0]);
      assert ByteBits(bs[0])[0..] == ByteBits(bs[0]);
      CountAppend(ByteBits(bs[0]), Bits(bs[1..]), true);
    }
  }

  /** `count_ones` counts the addressable bits because the padding is 0. */
  lemma CountOnesIsModelCount(v: BitVec)
    requires Valid(v)
    ensures SumPop(v.bytes) == Count(Model(v), true)
  {
    var all := Bits(v.bytes);
    SumPopBits(v.bytes);
    assert all == all[..v.nbits] + all[v.nbits..];
    CountAppend(all[..v.nbits], all[v.nbits..], true);
    CountNone(all[v.nbits..], true);
  }
}
