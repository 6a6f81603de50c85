/** Address vectors, the row-group keys cut from them, and the order in
    which a std::map keyed by such vectors visits its entries. */
module AddressVectors {

  /** One index per level of the DRAM hierarchy (channel, rank, bank, ...,
      row, column). */
  type AddrVec = seq<int>

  /** The row-group key of an address: the levels above the row level, that
      is, the bank or sub-array that holds at most one open row. */
  function RowGroup(addr: AddrVec, rowLevel: nat): (g: AddrVec)
    requires rowLevel < |addr|
    ensures |g| == rowLevel && g <= addr
  {
    addr[..rowLevel]
  }

  /** The row index of an address. */
  function RowOf(addr: AddrVec, rowLevel: nat): int
    requires rowLevel < |addr|
  {
    addr[rowLevel]
  }

  /** `std::equal(a.begin(), a.begin() + width, key.begin())`: the key agrees
      with the address on its first `width` levels. */
  predicate SameLevels(key: AddrVec, addr: AddrVec, width: nat) {
    width <= |key| && width <= |addr| && key[..width] == addr[..width]
  }

  /** `operator<` of std::vector<int>: lexicographic comparison, where a
      proper prefix comes before the longer vector. */
  predicate LexLess(a: AddrVec, b: AddrVec) {
    if |b| == 0 then false
    else if |a| == 0 then true
    else a[0] < b[0] || (a[0] == b[0] && LexLess(a[1..], b[1..]))
  }

  lemma {:induction false} LexLessIrreflexive(a: AddrVec)
    ensures !LexLess(a, a)
  {
    if |a| > 0 {
      LexLessIrreflexive(a[1..]);
    }
  }

  lemma {:induction false} LexLessTransitive(a: AddrVec, b: AddrVec, c: AddrVec)
    requires LexLess(a, b) && LexLess(b, c)
    ensures LexLess(a, c)
  {
    if |a| > 0 && a[0] == b[0] && b[0] == c[0] {
      LexLessTransitive(a[1..], b[1..], c[1..]);
    }
  }

  /** Two distinct vectors are always ordered one way or the other, so the
      least element of a finite set of keys is unique. */
  lemma {:induction false} LexLessTotal(a: AddrVec, b: AddrVec)
    requires a != b
    ensures LexLess(a, b) || LexLess(b, a)
  {
    if |a| > 0 && |b| > 0 && a[0] == b[0] {
      assert a == [a[0]] + a[1..] && b == [b[0]] + b[1..];
      LexLessTotal(a[1..], b[1..]);
    }
  }
}
