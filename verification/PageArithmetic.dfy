/** Page arithmetic for any positive page size. */
module PageArithmetic {

  predicate Aligned(x: int, page: int)
    requires page > 0
  {
    x % page == 0
  }

  function RoundDown(x: int, page: int): int
    requires page > 0
  {
    x - x % page
  }

  function RoundUp(x: int, page: int): int
    requires page > 0
  {
    RoundDown(x + page - 1, page)
  }

  lemma AtLeastOnePage(d: int, page: int)
    requires page > 0 && d >= 1
    ensures d * page >= page
  {
    if d > 1 { AtLeastOnePage(d - 1, page); }
    assert d * page == (d - 1) * page + page;
  }

  lemma DivModUnique(x: int, page: int, q: int, r: int)
    requires page > 0 && x == q * page + r && 0 <= r < page
    ensures x / page == q && x % page == r
  {
    var d := q - x / page;
    assert d * page == q * page - x / page * page;
    if d >= 1 {
      AtLeastOnePage(d, page);
    } else if d <= -1 {
      AtLeastOnePage(-d, page);
    }
  }

  lemma RoundDownAligned(x: int, page: int)
    requires page > 0
    ensures Aligned(RoundDown(x, page), page) && RoundDown(x, page) <= x < RoundDown(x, page) + page
  {
    DivModUnique(RoundDown(x, page), page, x / page, 0);
  }

  lemma RoundDownNonNegative(x: nat, page: int)
    requires page > 0
    ensures RoundDown(x, page) >= 0
  {
    if x < page {
      DivModUnique(x, page, 0, x);
    } else {
      RoundDownAligned(x, page);
    }
  }

  lemma RoundUpAligned(x: int, page: int)
    requires page > 0
    ensures Aligned(RoundUp(x, page), page) && x <= RoundUp(x, page) < x + page
  {
    RoundDownAligned(x + page - 1, page);
  }

  /** Rounding is characterised by alignment and distance: no other multiple is as near on that side. */
  lemma RoundingExactly(x: int, m: int, page: int)
    requires page > 0
    ensures m == RoundDown(x, page) <==> Aligned(m, page) && m <= x < m + page
    ensures m == RoundUp(x, page) <==> Aligned(m, page) && x <= m < x + page
  {
    RoundDownAligned(x, page);
    RoundUpAligned(x, page);
    if Aligned(m, page) && m <= x < m + page {
      DivModUnique(x, page, m / page, x - m);
    }
    if Aligned(m, page) && x <= m < x + page {
      DivModUnique(x + page - 1, page, m / page, x + page - 1 - m);
    }
  }

  /** Adding an aligned amount keeps the position within the page, and only that does. */
  lemma SamePosition(x: int, offset: int, page: int)
    requires page > 0
    ensures (offset + x) % page == x % page <==> Aligned(offset, page)
  {
    if Aligned(offset, page) {
      assert (offset + x) == (offset / page + x / page) * page + x % page;
      DivModUnique(offset + x, page, offset / page + x / page, x % page);
    }
    if (offset + x) % page == x % page {
      assert offset == ((offset + x) / page - x / page) * page;
      DivModUnique(offset, page, (offset + x) / page - x / page, 0);
    }
  }

  lemma AlignedSum(a: int, b: int, page: int)
    requires page > 0 && Aligned(a, page)
    ensures Aligned(a + b, page) <==> Aligned(b, page)
  {
    SamePosition(b, a, page);
  }

  /** An aligned bound above `x` is also above `x` rounded up. */
  lemma RoundUpLeast(x: int, bound: int, page: int)
    requires page > 0 && Aligned(bound, page) && x <= bound
    ensures RoundUp(x, page) <= bound
  {
    RoundUpAligned(x, page);
    var d := bound - RoundUp(x, page);
    AlignedSum(RoundUp(x, page), d, page);
    if d < 0 {
      DivModUnique(d, page, -1, d + page);
    }
  }

  /** The page of an address in a run of whole pages starts in the run, before its last byte. */
  lemma PageStart(start: int, length: nat, a: int, page: int)
    requires page > 0 && Aligned(start, page) && start <= a < start + RoundUp(length, page)
    ensures start <= RoundDown(a, page) < start + length
  {
    RoundDownAligned(a, page);
    var d := RoundDown(a, page) - start;
    AlignedSum(start, d, page);
    if d < 0 {
      DivModUnique(d, page, -1, d + page);
    }
    if d >= length {
      RoundUpLeast(length, d, page);
    }
  }
}
