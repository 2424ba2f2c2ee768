/**
 * The source computes sizes in `size_t`, 64 bits wide on LP64, and two of its
 * computations wrap around for requests near SIZE_MAX. The rest of the model
 * uses unbounded arithmetic, which is what the code evidently intends; this
 * module states the as-written 64-bit computations, exhibits the inputs on
 * which they differ, and gives overflow-free 64-bit versions that agree with
 * the unbounded ones.
 */
module SizeWrap {
  import opened Wrappers
  import opened Blocks
  import opened Allocation

  const SIZE_MODULUS: nat := 0x1_0000_0000_0000_0000
  const SIZE_MAX: nat := SIZE_MODULUS - 1

  /** `align_size` as written: `(size + 7) & ~7` evaluated modulo 2^64. */
  function AlignSizeAsWritten(size: nat): (r: nat)
    requires size <= SIZE_MAX
    ensures r % 8 == 0 && r <= SIZE_MAX
    ensures size <= SIZE_MAX - 7 ==> r == AlignSize(size)
  {
    var s := (size + 7) % SIZE_MODULUS;
    s - s % 8
  }

  /**
   * The seven largest requests wrap to an aligned size of 0, smaller than the
   * request; on an empty heap `request_space(0)` then hands out a block with
   * no payload bytes instead of NULL.
   */
  lemma AlignSizeWrapsToZero(size: nat)
    requires SIZE_MAX - 7 < size <= SIZE_MAX
    ensures AlignSizeAsWritten(size) == 0 < size
    ensures RequestSpaceAsWritten(0, AlignSizeAsWritten(size)) == (Some(Block(0, 0, false)), H)
  {
  }

  /**
   * `request_space` as written: `total_size = H + size` and the test
   * `heap_offset + total_size > HEAP_SIZE`, both modulo 2^64. Returns the
   * block it would hand out and the new `heap_offset`.
   */
  function RequestSpaceAsWritten(heapOffset: nat, n: nat): (r: (Option<Block>, nat))
    requires heapOffset <= HEAP_SIZE && n <= SIZE_MAX
    ensures heapOffset + H + n <= SIZE_MAX ==>
      (r.0.None? <==> heapOffset + H + n > HEAP_SIZE)
  {
    var totalSize := (H + n) % SIZE_MODULUS;
    var newOffset := (heapOffset + totalSize) % SIZE_MODULUS;
    if newOffset > HEAP_SIZE then (None, heapOffset)
    else (Some(Block(heapOffset, n, false)), newOffset)
  }

  /**
   * The request `SIZE_MODULUS - H` is already aligned, and `H + size` wraps
   * to 0: on an empty heap the bound test passes, a block claiming almost
   * 2^64 payload bytes is handed out at offset 0, and `heap_offset` does not
   * move, so the next request is handed the same bytes.
   */
  lemma RequestSpaceWrapAccepts()
    ensures AlignSizeAsWritten(SIZE_MODULUS - H) == SIZE_MODULUS - H
    ensures RequestSpaceAsWritten(0, SIZE_MODULUS - H) == (Some(Block(0, SIZE_MODULUS - H, false)), 0)
    ensures End(Block(0, SIZE_MODULUS - H, false)) > HEAP_SIZE
    ensures RequestSpaceAsWritten(0, 8) == (Some(Block(0, 8, false)), H + 8)
  {
  }

  /** `align_size` with the overflow rejected: None exactly when `size + 7` would wrap. */
  function AlignSizeChecked(size: nat): (r: Option<nat>)
    requires size <= SIZE_MAX
    ensures r.None? <==> size > SIZE_MAX - 7
    ensures r.Some? ==> r.value == AlignSize(size) && r.value <= SIZE_MAX
  {
    if size > SIZE_MAX - 7 then None else Some(AlignSizeAsWritten(size))
  }

  /**
   * The bound test of `request_space` rearranged so that no 64-bit
   * intermediate wraps: it accepts exactly when the block fits the arena.
   */
  predicate RequestFitsChecked(heapOffset: nat, n: nat)
    requires heapOffset <= HEAP_SIZE && n <= SIZE_MAX
  {
    H <= HEAP_SIZE - heapOffset && n <= HEAP_SIZE - heapOffset - H
  }

  lemma RequestFitsCheckedExact(heapOffset: nat, n: nat)
    requires heapOffset <= HEAP_SIZE && n <= SIZE_MAX
    ensures RequestFitsChecked(heapOffset, n) <==> heapOffset + H + n <= HEAP_SIZE
  {
  }

  /**
   * With the overflow-free arithmetic of the model, a request larger than
   * any block the arena can hold fails on a well-formed heap, whatever its
   * size: the two wrap-around inputs above are refused.
   */
  lemma AllocateOversizeFails(h: Heap, size: nat)
    requires WellFormed(h)
    requires size > HEAP_SIZE - H
    ensures Allocate(h, size).payload.None?
    ensures Allocate(h, size).heap.blocks == h.blocks && Allocate(h, size).heap.heapOffset == h.heapOffset
  {
    var n := AlignSize(size);
    match FirstFit(h.blocks, n)
    case Some(i) =>
      TiledInside(h.blocks, h.heapOffset, i);
      assert false;
    case None =>
  }
}
