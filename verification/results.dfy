/** The aborts of the bit vector and the Bloom filter, surfaced as values.

    Every `panic!`/`assert!` in the library is a caller-programming error; the
    model returns it as an `Err` so that contracts can say exactly when it
    happens. */
module Results {

  /** Which abort the call would have raised. */
  datatype Fault =
    | IndexOutOfBounds(len: nat, index: nat)   // BitVec::set / BitVec::is_set
    | LengthMismatch(left: nat, right: nat)    // BitVec::union / BitVec::intersection
    | IncompatibleFilters                      // BloomFilter::union / intersection
    | RemainderByZero                          // `r % self.bits()` with zero bits
    | DivisionByZero                           // `nbits / capacity` with zero capacity

  datatype Result<+T> = Ok(value: T) | Err(error: Fault)
}
