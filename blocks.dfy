/**
 * The block list of the arena allocator, as a value.
 *
 * A block header `{size, is_free, next}` lives inside the arena buffer; here a
 * block is the triple (byte offset of its header, payload size, free flag) and
 * the `next` links are the order of a sequence: `bs[i + 1]` is `bs[i].next`,
 * the last block's `next` is NULL and `bs[0]` is `heap_start`.
 */
module Blocks {
  import opened Wrappers

  /** Capacity of the static arena: 10 MiB. */
  const HEAP_SIZE: nat := 1024 * 1024 * 10
  /** Smallest payload a split may leave behind in the free remainder. */
  const MIN_BLOCK_SIZE: nat := 32
  /** `sizeof(block_t)` on LP64: 8-byte size, 4-byte int plus 4 bytes of padding, 8-byte pointer. */
  const H: nat := 24

  datatype Block = Block(off: nat, size: nat, isFree: bool)

  /** First byte after the block's payload, that is, where the next header starts. */
  function End(b: Block): nat {
    b.off + H + b.size
  }

  /** Byte offset of the payload, the pointer `my_malloc` hands out. */
  function Payload(b: Block): nat {
    b.off + H
  }

  /**
   * `align_size`: round up to a multiple of 8 with `(size + 7) & ~7`.
   * Sizes are unbounded here; the 64-bit wrap-around of the source is
   * modelled separately in module SizeWrap.
   */
  function AlignSize(size: nat): (r: nat)
    ensures r % 8 == 0
    ensures size <= r < size + 8
  {
    (size + 7) - (size + 7) % 8
  }

  /** No multiple of 8 at least `size` is smaller than `AlignSize(size)`. */
  lemma AlignSizeIsLeast(size: nat, m: nat)
    requires m % 8 == 0 && size <= m
    ensures AlignSize(size) <= m
  {
  }

  lemma AlignSizeIdempotent(size: nat)
    ensures AlignSize(AlignSize(size)) == AlignSize(size)
  {
  }

  /** The test `current->is_free && current->size >= size` of `find_free_block`. */
  predicate Fits(b: Block, n: nat) {
    b.isFree && b.size >= n
  }

  /**
   * First-fit from position `k` on: the index of the first block at or after
   * `k` that is free and large enough, or None.
   */
  function FirstFitFrom(bs: seq<Block>, n: nat, k: nat): (r: Option<nat>)
    requires k <= |bs|
    ensures r.Some? ==> k <= r.value < |bs| && Fits(bs[r.value], n)
    ensures r.Some? ==> forall j | k <= j < r.value :: !Fits(bs[j], n)
    ensures r.None? ==> forall j | k <= j < |bs| :: !Fits(bs[j], n)
    decreases |bs| - k
  {
    if k == |bs| then None
    else if Fits(bs[k], n) then Some(k)
    else FirstFitFrom(bs, n, k + 1)
  }

  /** `find_free_block(n)` from `heap_start`. */
  function FirstFit(bs: seq<Block>, n: nat): Option<nat> {
    FirstFitFrom(bs, n, 0)
  }

  /** First fit is the only index that is a fit with no fit before it. */
  lemma FirstFitUnique(bs: seq<Block>, n: nat, i: nat)
    requires i < |bs| && Fits(bs[i], n)
    requires forall j | 0 <= j < i :: !Fits(bs[j], n)
    ensures FirstFit(bs, n) == Some(i)
  {
  }

  /** Sum of `size + H` over the list: what `get_total_heap_size` adds up. */
  function TotalSize(bs: seq<Block>): nat {
    if bs == [] then 0 else TotalSize(bs[..|bs| - 1]) + bs[|bs| - 1].size + H
  }

  /** Number of blocks whose `is_free` is clear: what `get_allocated_blocks` counts. */
  function AllocatedCount(bs: seq<Block>): nat {
    if bs == [] then 0
    else AllocatedCount(bs[..|bs| - 1]) + (if bs[|bs| - 1].isFree then 0 else 1)
  }

  /** Sum of the payload sizes of allocated blocks (`allocated_size` in `print_heap_info`). */
  function AllocatedBytes(bs: seq<Block>): nat {
    if bs == [] then 0
    else AllocatedBytes(bs[..|bs| - 1]) + (if bs[|bs| - 1].isFree then 0 else bs[|bs| - 1].size)
  }

  lemma {:induction false} AllocatedCountAppend(a: seq<Block>, b: seq<Block>)
    ensures AllocatedCount(a + b) == AllocatedCount(a) + AllocatedCount(b)
    decreases |b|
  {
    if b == [] {
      assert a + b == a;
    } else {
      assert (a + b)[..|a + b| - 1] == a + b[..|b| - 1];
      AllocatedCountAppend(a, b[..|b| - 1]);
    }
  }

  /** Every block costs at least its header, so the list sum bounds the block count. */
  lemma {:induction false} TotalSizeCoversHeaders(bs: seq<Block>)
    ensures TotalSize(bs) >= |bs| * H
  {
    if bs != [] {
      TotalSizeCoversHeaders(bs[..|bs| - 1]);
    }
  }

  /** Allocated payload bytes plus one header per block never exceed the list sum. */
  lemma {:induction false} AllocatedBytesBound(bs: seq<Block>)
    ensures AllocatedBytes(bs) + |bs| * H <= TotalSize(bs)
  {
    if bs != [] {
      AllocatedBytesBound(bs[..|bs| - 1]);
    }
  }

  /**
   * The tiling invariant: in list order the blocks cover `[0, end)` with
   * neither gap nor overlap: the first header is at offset 0, each block
   * starts where its predecessor's payload ends, and the last one ends at `end`.
   */
  predicate Tiled(bs: seq<Block>, end: nat) {
    if bs == [] then end == 0
    else
      bs[0].off == 0 && End(bs[|bs| - 1]) == end &&
      forall i | 0 < i < |bs| :: bs[i].off == End(bs[i - 1])
  }

  /** Every payload size is a multiple of 8. */
  predicate SizesAligned(bs: seq<Block>) {
    forall i | 0 <= i < |bs| :: bs[i].size % 8 == 0
  }

  /** The committed region measured by the list is exactly the tiled extent. */
  lemma {:induction false} TiledTotalSize(bs: seq<Block>, end: nat)
    requires Tiled(bs, end)
    ensures TotalSize(bs) == end
    decreases |bs|
  {
    if bs != [] {
      var init := bs[..|bs| - 1];
      var last := bs[|bs| - 1];
      assert Tiled(init, last.off) by {
        if init != [] {
          assert End(init[|init| - 1]) == last.off;
          forall i | 0 < i < |init| ensures init[i].off == End(init[i - 1]) {
            assert init[i] == bs[i] && init[i - 1] == bs[i - 1];
          }
        }
      }
      TiledTotalSize(init, last.off);
    }
  }

  /** Blocks further down the list lie strictly higher in the arena. */
  lemma {:induction false} TiledOrdered(bs: seq<Block>, end: nat, i: nat, j: nat)
    requires Tiled(bs, end)
    requires i < j < |bs|
    ensures End(bs[i]) <= bs[j].off
    decreases j - i
  {
    if j > i + 1 {
      TiledOrdered(bs, end, i, j - 1);
    }
  }

  /** Every block ends inside the tiled extent. */
  lemma TiledInside(bs: seq<Block>, end: nat, i: nat)
    requires Tiled(bs, end)
    requires i < |bs|
    ensures End(bs[i]) <= end
  {
    if i < |bs| - 1 {
      TiledOrdered(bs, end, i, |bs| - 1);
    }
  }

  /** With H a multiple of 8 and aligned sizes, every header sits on an 8-byte boundary. */
  lemma {:induction false} TiledOffsetsAligned(bs: seq<Block>, end: nat, i: nat)
    requires Tiled(bs, end) && SizesAligned(bs)
    requires i < |bs|
    ensures bs[i].off % 8 == 0
  {
    if i > 0 {
      TiledOffsetsAligned(bs, end, i - 1);
    }
  }
}
