// The two explicit work splits of main.cpp. `runVar1` gives worker `rank`
// of `pSize` the rows [size*rank/pSize, size*(rank+1)/pSize); `runVar2`
// cuts the rows into eight hard-coded bands. All operands are non-negative,
// so C++'s truncating division agrees with Dafny's.
module Partition {
  import opened Arith

  /** The `N` macro: the number of sections `runVar2` hard-codes. */
  const SECTIONS: nat := 8

  /** First row of worker `rank`'s block: `size * rank / pSize`, multiplied first. */
  function RowStart(size: nat, rank: nat, pSize: nat): nat
    requires 1 <= pSize
  {
    size * rank / pSize
  }

  /** Block boundaries never decrease with the rank. */
  lemma RowStartMonotone(size: nat, r1: nat, r2: nat, pSize: nat)
    requires 1 <= pSize && r1 <= r2
    ensures RowStart(size, r1, pSize) <= RowStart(size, r2, pSize)
  {
    MulLeq(r1, r2, size);
    DivMonotone(size * r1, size * r2, pSize);
  }

  /** The first block starts at row 0 and the last one ends at row `size`. */
  lemma RowStartEnds(size: nat, pSize: nat)
    requires 1 <= pSize
    ensures RowStart(size, 0, pSize) == 0
    ensures RowStart(size, pSize, pSize) == size
  {
    DivModOf(size, 0, pSize);
  }

  /** Every block lies within [0, size) and starts no later than it ends. */
  lemma RowBlockWithin(size: nat, rank: nat, pSize: nat)
    requires 1 <= pSize && rank < pSize
    ensures RowStart(size, rank, pSize) <= RowStart(size, rank + 1, pSize) <= size
  {
    RowStartMonotone(size, rank, rank + 1, pSize);
    RowStartMonotone(size, rank + 1, pSize, pSize);
    RowStartEnds(size, pSize);
  }

  /**
   * A block holds floor(size / pSize) rows, or one more when pSize does not
   * divide size.
   */
  lemma RowBlockLength(size: nat, rank: nat, pSize: nat)
    requires 1 <= pSize && rank < pSize
    ensures var len := RowStart(size, rank + 1, pSize) - RowStart(size, rank, pSize);
            len == size / pSize || (len == size / pSize + 1 && size % pSize != 0)
  {
    var a := size * rank;
    var qa, ra := a / pSize, a % pSize;
    var qs, rs := size / pSize, size % pSize;
    assert size * (rank + 1) == (qa + qs) * pSize + (ra + rs);
    if ra + rs < pSize {
      DivModOf(qa + qs, ra + rs, pSize);
    } else {
      assert size * (rank + 1) == (qa + qs + 1) * pSize + (ra + rs - pSize);
      DivModOf(qa + qs + 1, ra + rs - pSize, pSize);
    }
  }

  /** Any two blocks differ in length by at most one row. */
  lemma RowBlocksBalanced(size: nat, r1: nat, r2: nat, pSize: nat)
    requires 1 <= pSize && r1 < pSize && r2 < pSize
    ensures var len1 := RowStart(size, r1 + 1, pSize) - RowStart(size, r1, pSize);
            var len2 := RowStart(size, r2 + 1, pSize) - RowStart(size, r2, pSize);
            -1 <= len1 - len2 <= 1
  {
    RowBlockLength(size, r1, pSize);
    RowBlockLength(size, r2, pSize);
  }

  /** Every row of [0, size) falls in some worker's block. */
  lemma RowBlocksCover(size: nat, pSize: nat, i: nat)
    requires 1 <= pSize && i < size
    ensures exists r :: 0 <= r < pSize && RowStart(size, r, pSize) <= i < RowStart(size, r + 1, pSize)
  {
    RowStartEnds(size, pSize);
    CoverFrom(size, pSize, i, 0);
  }

  lemma {:induction false} CoverFrom(size: nat, pSize: nat, i: nat, r: nat)
    requires 1 <= pSize && r < pSize && i < size && RowStart(size, r, pSize) <= i
    ensures exists q :: r <= q < pSize && RowStart(size, q, pSize) <= i < RowStart(size, q + 1, pSize)
    decreases pSize - r
  {
    if i >= RowStart(size, r + 1, pSize) {
      RowStartEnds(size, pSize);
      CoverFrom(size, pSize, i, r + 1);
    }
  }

  /** No row falls in two different blocks. */
  lemma RowBlocksDisjoint(size: nat, pSize: nat, r1: nat, r2: nat, i: nat)
    requires 1 <= pSize && r1 < pSize && r2 < pSize
    requires RowStart(size, r1, pSize) <= i < RowStart(size, r1 + 1, pSize)
    requires RowStart(size, r2, pSize) <= i < RowStart(size, r2 + 1, pSize)
    ensures r1 == r2
  {
    if r1 < r2 {
      RowStartMonotone(size, r1 + 1, r2, pSize);
    } else if r2 < r1 {
      RowStartMonotone(size, r2 + 1, r1, pSize);
    }
  }

  /**
   * First row of section `k` of `runVar2`, as each section's loop writes it:
   * 0, then size / N, then k * size / N.
   */
  function BandLo(k: nat, size: nat): nat
    requires k < SECTIONS
  {
    if k == 0 then 0 else if k == 1 then size / SECTIONS else k * size / SECTIONS
  }

  /** End (exclusive) of section `k`: size / N for the first, (k + 1) * size / N after. */
  function BandHi(k: nat, size: nat): nat
    requires k < SECTIONS
  {
    if k == 0 then size / SECTIONS else (k + 1) * size / SECTIONS
  }

  /** Section k's band is exactly worker k's block when eight workers split the rows. */
  lemma BandIsRowBlock(k: nat, size: nat)
    requires k < SECTIONS
    ensures BandLo(k, size) == RowStart(size, k, SECTIONS)
    ensures BandHi(k, size) == RowStart(size, k + 1, SECTIONS)
  {
  }

  /** The bands start at row 0, follow on without a gap, and the last ends at size. */
  lemma BandsContiguous(size: nat)
    ensures BandLo(0, size) == 0
    ensures forall k | 0 <= k < SECTIONS - 1 :: BandHi(k, size) == BandLo(k + 1, size)
    ensures BandHi(SECTIONS - 1, size) == size
  {
  }

  /** Every row of [0, size) falls in some band, whether or not 8 divides size. */
  lemma BandsCover(size: nat, i: nat)
    requires i < size
    ensures exists k :: 0 <= k < SECTIONS && BandLo(k, size) <= i < BandHi(k, size)
  {
    RowBlocksCover(size, SECTIONS, i);
    var r :| 0 <= r < SECTIONS && RowStart(size, r, SECTIONS) <= i < RowStart(size, r + 1, SECTIONS);
    BandIsRowBlock(r, size);
  }

  /** No row falls in two different bands. */
  lemma BandsDisjoint(size: nat, k1: nat, k2: nat, i: nat)
    requires k1 < SECTIONS && k2 < SECTIONS
    requires BandLo(k1, size) <= i < BandHi(k1, size)
    requires BandLo(k2, size) <= i < BandHi(k2, size)
    ensures k1 == k2
  {
    BandIsRowBlock(k1, size);
    BandIsRowBlock(k2, size);
    RowBlocksDisjoint(size, SECTIONS, k1, k2, i);
  }

  /** Each band holds size / 8 rows, or one more when 8 does not divide size. */
  lemma BandLength(k: nat, size: nat)
    requires k < SECTIONS
    ensures BandLo(k, size) <= BandHi(k, size) <= size
    ensures var len := BandHi(k, size) - BandLo(k, size);
            len == size / SECTIONS || (len == size / SECTIONS + 1 && size % SECTIONS != 0)
  {
    BandIsRowBlock(k, size);
    RowBlockWithin(size, k, SECTIONS);
    RowBlockLength(size, k, SECTIONS);
  }
}
