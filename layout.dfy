/** Load-time layout of the single user program: page rounding of the image
    length, the fixed virtual base it is mapped at, and its fixed entry point. */
module Layout {
  import opened Machine

  /** Virtual address at which the statically-linked image is mapped. */
  const MAP_ADDR: nat := 0x1_2000_0000

  /** Virtual address of the first instruction of the statically-linked image. */
  const ENTRY_POINT: nat := 0x1_2000_0078

  /** `len.align_up(PAGE_SIZE)`: the least multiple of the page size that is
      not below `len`. */
  function AlignUp(len: nat): (r: nat)
    ensures r % PAGE_SIZE == 0
    ensures len <= r < len + PAGE_SIZE
  {
    (len + PAGE_SIZE - 1) / PAGE_SIZE * PAGE_SIZE
  }

  /** No page multiple between `len` and `AlignUp(len)` is skipped: every
      page multiple that covers `len` is at least `AlignUp(len)`. */
  lemma AlignUpIsLeast(len: nat, m: nat)
    requires m % PAGE_SIZE == 0 && len <= m
    ensures AlignUp(len) <= m
  {
    var q, p := AlignUp(len) / PAGE_SIZE, m / PAGE_SIZE;
    assert AlignUp(len) == q * PAGE_SIZE && m == p * PAGE_SIZE;
    assert q <= p;
  }

  /** Aligning an already aligned length changes nothing. */
  lemma AlignUpIdempotent(len: nat)
    ensures AlignUp(AlignUp(len)) == AlignUp(len)
  {
    AlignUpIsLeast(AlignUp(len), AlignUp(len));
  }

  /** `nbytes / PAGE_SIZE`: the number of frames requested from the allocator,
      which is the ceiling of `len / PAGE_SIZE`. */
  function PageCount(len: nat): (n: nat)
    ensures n * PAGE_SIZE == AlignUp(len)
    ensures len <= n * PAGE_SIZE
    ensures n == 0 || (n - 1) * PAGE_SIZE < len
    ensures n == 0 <==> len == 0
  {
    AlignUp(len) / PAGE_SIZE
  }
}
