/** Properties of the packed bit vector that relate several calls: equality,
    idempotence, counting, and the raw-byte round trip. */
module BitVectorProps {
  import opened Results
  import opened BitVector

  /** Derived `PartialEq` compares buffer and length; because the padding is 0
      that is exactly equality of length and addressable bits. */
  lemma Extensionality(a: BitVec, b: BitVec)
    requires Valid(a) && Valid(b)
    ensures a == b <==> (a.nbits == b.nbits && Model(a) == Model(b))
  {
    if a.nbits == b.nbits && Model(a) == Model(b) {
      assert |a.bytes| == |b.bytes|;
      forall i | 0 <= i < 8 * |a.bytes|
        ensures Bits(a.bytes)[i] == Bits(b.bytes)[i]
      {
        if i < a.nbits {
          assert Model(a)[i] == Model(b)[i];
        }
      }
      BitsInjective(a.bytes, b.bytes);
    }
  }

  /** Setting a bit that is already set gives back the same vector. */
  lemma SetIdempotent(v: BitVec, i: nat)
    requires Valid(v) && i < v.nbits
    ensures Set(v, i).Ok? && Set(Set(v, i).value, i) == Set(v, i)
  {
    var w := Set(v, i).value;
    var w' := Set(w, i).value;
    assert Model(w') == Model(w);
    Extensionality(w, w');
  }

  /** After `set(i)`, `is_set(i)` is true and every other in-range bit reads
      as before. */
  lemma SetThenIsSet(v: BitVec, i: nat, j: nat)
    requires Valid(v) && i < v.nbits && j < v.nbits
    ensures Set(v, i).Ok?
    ensures IsSet(Set(v, i).value, j) == Ok(if j == i then true else IsSet(v, j).value)
  {
  }

  /** The order in which two bits are set does not matter. */
  lemma SetCommutes(v: BitVec, i: nat, j: nat)
    requires Valid(v) && i < v.nbits && j < v.nbits
    ensures Set(Set(v, i).value, j) == Set(Set(v, j).value, i)
  {
    var a := Set(Set(v, i).value, j).value;
    var b := Set(Set(v, j).value, i).value;
    assert Model(a) == Model(b);
    Extensionality(a, b);
  }

  /** Setting a bit that was 0 raises `count_ones` by exactly one, and
      `count_zeros` stays `len() - count_ones()`. */
  lemma SetCountOnes(v: BitVec, i: nat)
    requires Valid(v) && i < v.nbits
    ensures Set(v, i).Ok?
    ensures CountOnes(Set(v, i).value) == CountOnes(v) + (if Model(v)[i] then 0 else 1)
    ensures CountZeros(Set(v, i).value) == Len(v) - CountOnes(Set(v, i).value)
  {
    CountUpdate(Model(v), i);
    CountSplit(Model(Set(v, i).value));
  }

  /** `count_zeros` and `count_ones` add up to the length. */
  lemma CountsAddUp(v: BitVec)
    requires Valid(v)
    ensures CountOnes(v) + CountZeros(v) == Len(v)
    ensures CountOnes(v) <= Len(v)
  {
    CountSplit(Model(v));
  }

  /** A union has at least as many set bits as either side. */
  lemma UnionCountOnes(a: BitVec, b: BitVec)
    requires Valid(a) && Valid(b) && a.nbits == b.nbits
    ensures Union(a, b).Ok?
    ensures CountOnes(Union(a, b).value) >= CountOnes(a)
    ensures CountOnes(Union(a, b).value) >= CountOnes(b)
  {
    var u := Union(a, b).value;
    CountMonotone(Model(a), Model(u));
    CountMonotone(Model(b), Model(u));
  }

  /** An intersection has at most as many set bits as either side. */
  lemma IntersectionCountOnes(a: BitVec, b: BitVec)
    requires Valid(a) && Valid(b) && a.nbits == b.nbits
    ensures Intersection(a, b).Ok?
    ensures CountOnes(Intersection(a, b).value) <= CountOnes(a)
    ensures CountOnes(Intersection(a, b).value) <= CountOnes(b)
  {
    var n := Intersection(a, b).value;
    CountMonotone(Model(n), Model(a));
    CountMonotone(Model(n), Model(b));
  }

  /** A cleared vector counts no `1` bits and `len()` zeros. */
  lemma ClearCounts(v: BitVec)
    requires Valid(v)
    ensures CountOnes(Clear(v)) == 0 && CountZeros(Clear(v)) == Len(v)
  {
    CountNone(Model(Clear(v)), true);
    CountSplit(Model(Clear(v)));
  }

  /** Clearing gives the vector `new` would have built for the same length. */
  lemma ClearIsNew(v: BitVec)
    requires Valid(v)
    ensures Clear(v) == New(v.nbits)
  {
  }

  /** Bytes -> `BitVec` -> bytes is the identity. */
  lemma BytesRoundTrip(bs: seq<bv8>)
    ensures AsBytes(FromBytes(bs)) == bs
    ensures Len(FromBytes(bs)) == 8 * |bs|
  {
  }

  /** `BitVec` -> bytes -> `BitVec` gives the vector back exactly when its
      length is a whole number of bytes; otherwise the padding becomes
      addressable. */
  lemma VectorRoundTrip(v: BitVec)
    requires Valid(v)
    ensures FromBytes(AsBytes(v)) == v <==> v.nbits % 8 == 0
    ensures Model(FromBytes(AsBytes(v)))[..v.nbits] == Model(v)
  {
  }

  /* ---------------------------------------------------------------------
     The unit tests of `src/bitvec.rs`, as statements about the model
     --------------------------------------------------------------------- */

  /** `bitvec_with_length`: 1 and 8 bits take one byte, 9 bits take two. */
  lemma NewLengths()
    ensures |New(1).bytes| == 1 && Len(New(1)) == 1
    ensures |New(8).bytes| == 1 && Len(New(8)) == 8
    ensures |New(9).bytes| == 2 && Len(New(9)) == 9
  {
  }

  /** `must_set_with_correct_index` and `must_get_with_correct_index`: the
      index equal to the length is out of bounds, the one below it is not. */
  lemma BoundsAtLength(c: nat)
    requires c > 0
    ensures Set(New(c), c) == Err(IndexOutOfBounds(c, c))
    ensures IsSet(New(c), c) == Err(IndexOutOfBounds(c, c))
    ensures Set(New(c), c - 1).Ok? && IsSet(New(c), c - 1) == Ok(false)
  {
  }

  /** `bitvec_union_test`: {0, 3} and {2, 3, 5} in six bits have the union
      {0, 2, 3, 5}. */
  lemma UnionExample()
    ensures
      var a := Set(Set(New(6), 0).value, 3).value;
      var b := Set(Set(Set(New(6), 2).value, 3).value, 5).value;
      && CountOnes(a) == 2 && CountOnes(b) == 3
      && Union(a, b).Ok? && CountOnes(Union(a, b).value) == 4
  {
    var a := Set(Set(New(6), 0).value, 3).value;
    var b := Set(Set(Set(New(6), 2).value, 3).value, 5).value;
    assert Model(a) == [true, false, false, true, false, false];
    assert Model(b) == [false, false, true, true, false, true];
    var u := Union(a, b).value;
    assert Model(u) == [true, false, true, true, false, true];
  }

  /** `bitvec_intersect_test`: the same two vectors intersect in {3}. */
  lemma IntersectionExample()
    ensures
      var a := Set(Set(New(6), 0).value, 3).value;
      var b := Set(Set(Set(New(6), 2).value, 3).value, 5).value;
      && Intersection(a, b).Ok? && CountOnes(Intersection(a, b).value) == 1
      && IsSet(Intersection(a, b).value, 3) == Ok(true)
      && IsSet(Intersection(a, b).value, 0) == Ok(false)
  {
    var a := Set(Set(New(6), 0).value, 3).value;
    var b := Set(Set(Set(New(6), 2).value, 3).value, 5).value;
    assert Model(a) == [true, false, false, true, false, false];
    assert Model(b) == [false, false, true, true, false, true];
    var n := Intersection(a, b).value;
    assert Model(n) == [false, false, false, true, false, false];
  }
}
