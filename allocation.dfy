/**
 * One call of `my_malloc` as a transition on the allocator's state, and what
 * it preserves. The class in module Malloc is proved to perform exactly this
 * transition.
 */
module Allocation {
  import opened Wrappers
  import opened Blocks

  /**
   * The allocator's globals: the block list from `heap_start`, the bump
   * offset `heap_offset` and the `heap_initialized` flag.
   */
  datatype Heap = Heap(blocks: seq<Block>, heapOffset: nat, initialized: bool)

  /** The new state after a call, and the payload offset it returned (None for NULL). */
  datatype Outcome = Outcome(heap: Heap, payload: Option<nat>)

  /** The state before the first call. */
  const EmptyHeap := Heap([], 0, false)

  /**
   * The allocator's invariant: the list tiles `[0, heap_offset)`, the bump
   * offset stays inside the arena, and every payload size is aligned.
   */
  predicate WellFormed(h: Heap) {
    Tiled(h.blocks, h.heapOffset) && h.heapOffset <= HEAP_SIZE && SizesAligned(h.blocks)
  }

  predicate NoFreeBlocks(bs: seq<Block>) {
    forall k | 0 <= k < |bs| :: !bs[k].isFree
  }

  /**
   * `split_block(block, n)` on the block at list position `i`: when the
   * slack is at least a header plus MIN_BLOCK_SIZE, shrink the block to `n`
   * and link a free remainder right after it; otherwise leave the list alone.
   */
  function SplitAt(bs: seq<Block>, i: nat, n: nat): seq<Block>
    requires i < |bs|
  {
    var b := bs[i];
    if b.size < n + H + MIN_BLOCK_SIZE then bs
    else bs[..i] + [b.(size := n), Block(b.off + H + n, b.size - n - H, true)] + bs[i + 1..]
  }

  /** A split preserves the sum of `size + H` over the list. */
  lemma {:induction false} SplitTotalSize(bs: seq<Block>, i: nat, n: nat)
    requires i < |bs|
    ensures TotalSize(SplitAt(bs, i, n)) == TotalSize(bs)
    decreases |bs|
  {
    var b := bs[i];
    if b.size >= n + H + MIN_BLOCK_SIZE {
      var r := SplitAt(bs, i, n);
      var init := bs[..|bs| - 1];
      if i == |bs| - 1 {
        assert r[..|r| - 1][..|r| - 2] == init;
      } else {
        assert r[..|r| - 1] == SplitAt(init, i, n);
        SplitTotalSize(init, i, n);
      }
    }
  }

  /** A split adds only a free block, so the number of allocated blocks stays. */
  lemma {:induction false} SplitAllocatedCount(bs: seq<Block>, i: nat, n: nat)
    requires i < |bs|
    ensures AllocatedCount(SplitAt(bs, i, n)) == AllocatedCount(bs)
    decreases |bs|
  {
    var b := bs[i];
    if b.size >= n + H + MIN_BLOCK_SIZE {
      var r := SplitAt(bs, i, n);
      var init := bs[..|bs| - 1];
      if i == |bs| - 1 {
        assert r[..|r| - 1][..|r| - 2] == init;
      } else {
        assert r[..|r| - 1] == SplitAt(init, i, n);
        SplitAllocatedCount(init, i, n);
      }
    }
  }

  /** A split keeps the tiling: the remainder starts where the shrunk block now ends. */
  lemma SplitTiled(bs: seq<Block>, end: nat, i: nat, n: nat)
    requires Tiled(bs, end) && i < |bs|
    ensures Tiled(SplitAt(bs, i, n), end)
  {
    var b := bs[i];
    if b.size >= n + H + MIN_BLOCK_SIZE {
      var a := b.(size := n);
      var c := Block(b.off + H + n, b.size - n - H, true);
      var r := SplitAt(bs, i, n);
      assert |r| == |bs| + 1;
      assert forall k | 0 <= k < i :: r[k] == bs[k];
      assert r[i] == a && r[i + 1] == c;
      assert forall k | i + 1 < k < |r| :: r[k] == bs[k - 1];
      assert End(c) == End(b);
      forall k | 0 < k < |r| ensures r[k].off == End(r[k - 1]) {
        if k == i + 2 {
          assert r[k] == bs[i + 1];
        } else if k > i + 2 {
          assert r[k] == bs[k - 1] && r[k - 1] == bs[k - 2];
        }
      }
    }
  }

  lemma SplitAligned(bs: seq<Block>, i: nat, n: nat)
    requires SizesAligned(bs) && i < |bs| && n % 8 == 0
    ensures SizesAligned(SplitAt(bs, i, n))
  {
    var b := bs[i];
    if b.size >= n + H + MIN_BLOCK_SIZE {
      var r := SplitAt(bs, i, n);
      forall k | 0 <= k < |r| ensures r[k].size % 8 == 0 {
        if k > i + 1 {
          assert r[k] == bs[k - 1];
        } else if k < i {
          assert r[k] == bs[k];
        }
      }
    }
  }

  /** What a split does at the claimed position: the block stays put and gets exactly `n` when split. */
  lemma SplitKeepsClaimed(bs: seq<Block>, i: nat, n: nat)
    requires i < |bs|
    ensures i < |SplitAt(bs, i, n)|
    ensures SplitAt(bs, i, n)[i].off == bs[i].off && SplitAt(bs, i, n)[i].isFree == bs[i].isFree
    ensures SplitAt(bs, i, n)[i].size == if bs[i].size < n + H + MIN_BLOCK_SIZE then bs[i].size else n
  {
  }

  /** Marking the block at `i` allocated keeps offsets and sizes, so the tiling survives. */
  lemma ClaimTiled(bs: seq<Block>, end: nat, i: nat)
    requires Tiled(bs, end) && SizesAligned(bs) && i < |bs|
    ensures Tiled(bs[i := bs[i].(isFree := false)], end)
    ensures SizesAligned(bs[i := bs[i].(isFree := false)])
  {
    var c := bs[i := bs[i].(isFree := false)];
    assert forall k | 0 <= k < |c| :: c[k].off == bs[k].off && c[k].size == bs[k].size;
  }

  /** Marking a free block allocated adds one to the allocated count. */
  lemma {:induction false} ClaimCount(bs: seq<Block>, i: nat)
    requires i < |bs| && bs[i].isFree
    ensures AllocatedCount(bs[i := bs[i].(isFree := false)]) == AllocatedCount(bs) + 1
    decreases |bs|
  {
    var c := bs[i := bs[i].(isFree := false)];
    var init := bs[..|bs| - 1];
    if i == |bs| - 1 {
      assert c[..|c| - 1] == init;
    } else {
      assert c[..|c| - 1] == init[i := init[i].(isFree := false)];
      ClaimCount(init, i);
    }
  }

  /**
   * `my_malloc(size)`: reject 0 before touching anything; otherwise set the
   * initialized flag, align, and either claim the first fit (splitting it)
   * or carve `H + n` fresh bytes at `heap_offset` and link them at the tail.
   * The branch on an empty list in the source is the first-fit miss here,
   * since first fit on an empty list finds nothing.
   */
  function Allocate(h: Heap, size: nat): (o: Outcome)
    ensures size == 0 ==> o == Outcome(h, None)
    ensures size > 0 ==> o.heap.initialized
    ensures o.payload.None? ==> o.heap.blocks == h.blocks && o.heap.heapOffset == h.heapOffset
    ensures o.heap.heapOffset >= h.heapOffset
  {
    if size == 0 then Outcome(h, None)
    else
      var n := AlignSize(size);
      match FirstFit(h.blocks, n)
      case Some(i) =>
        var claimed := h.blocks[i := h.blocks[i].(isFree := false)];
        Outcome(Heap(SplitAt(claimed, i, n), h.heapOffset, true), Some(Payload(h.blocks[i])))
      case None =>
        if h.heapOffset + H + n > HEAP_SIZE then Outcome(h.(initialized := true), None)
        else
          var b := Block(h.heapOffset, n, false);
          Outcome(Heap(h.blocks + [b], h.heapOffset + H + n, true), Some(Payload(b)))
  }

  /** Every call keeps the tiling, the arena bound and the alignment of sizes. */
  lemma AllocatePreservesWellFormed(h: Heap, size: nat)
    requires WellFormed(h)
    ensures WellFormed(Allocate(h, size).heap)
  {
    if size > 0 {
      var n := AlignSize(size);
      var bs := h.blocks;
      match FirstFit(bs, n)
      case Some(i) =>
        ClaimTiled(bs, h.heapOffset, i);
        var claimed := bs[i := bs[i].(isFree := false)];
        SplitTiled(claimed, h.heapOffset, i, n);
        SplitAligned(claimed, i, n);
      case None =>
        if h.heapOffset + H + n <= HEAP_SIZE {
          var r := bs + [Block(h.heapOffset, n, false)];
          assert forall k | 0 <= k < |bs| :: r[k] == bs[k];
          assert Tiled(r, h.heapOffset + H + n);
        }
    }
  }

  /** A successful call raises the allocated-block count by exactly one; a failed one leaves it. */
  lemma AllocateCount(h: Heap, size: nat)
    ensures var o := Allocate(h, size);
      AllocatedCount(o.heap.blocks) == AllocatedCount(h.blocks) + (if o.payload.Some? then 1 else 0)
  {
    if size > 0 {
      var n := AlignSize(size);
      var bs := h.blocks;
      match FirstFit(bs, n)
      case Some(i) =>
        ClaimCount(bs, i);
        SplitAllocatedCount(bs[i := bs[i].(isFree := false)], i, n);
      case None =>
        if h.heapOffset + H + n <= HEAP_SIZE {
          var b := Block(h.heapOffset, n, false);
          AllocatedCountAppend(bs, [b]);
          assert [b][..0] == [];
        }
    }
  }

  /**
   * The returned pointer is a header plus H into an allocated block that
   * lies in the arena; the block holds at least the aligned request, and
   * more only when the slack was too small to split off.
   */
  lemma AllocateGrant(h: Heap, size: nat)
    requires WellFormed(h)
    requires Allocate(h, size).payload.Some?
    ensures var o := Allocate(h, size); var nb := o.heap.blocks; var n := AlignSize(size);
      exists k | 0 <= k < |nb| ::
        Payload(nb[k]) == o.payload.value && !nb[k].isFree && End(nb[k]) <= HEAP_SIZE &&
        n <= nb[k].size && (nb[k].size > n ==> nb[k].size < n + H + MIN_BLOCK_SIZE)
  {
    var o := Allocate(h, size);
    var nb := o.heap.blocks;
    var n := AlignSize(size);
    AllocatePreservesWellFormed(h, size);
    var bs := h.blocks;
    match FirstFit(bs, n)
    case Some(i) =>
      var claimed := bs[i := bs[i].(isFree := false)];
      SplitKeepsClaimed(claimed, i, n);
      TiledInside(nb, o.heap.heapOffset, i);
      assert Payload(nb[i]) == o.payload.value;
    case None =>
      var k := |nb| - 1;
      assert nb[k] == Block(h.heapOffset, n, false);
  }

  /** The three facts callers rely on, all from the tiling invariant. */
  lemma WellFormedConsequences(h: Heap)
    requires WellFormed(h)
    ensures TotalSize(h.blocks) == h.heapOffset
    ensures |h.blocks| * H <= HEAP_SIZE
    ensures forall i, j | 0 <= i < j < |h.blocks| :: End(h.blocks[i]) <= h.blocks[j].off
    ensures forall i | 0 <= i < |h.blocks| :: End(h.blocks[i]) <= HEAP_SIZE && h.blocks[i].off % 8 == 0
  {
    TiledTotalSize(h.blocks, h.heapOffset);
    TotalSizeCoversHeaders(h.blocks);
    forall i, j | 0 <= i < j < |h.blocks| ensures End(h.blocks[i]) <= h.blocks[j].off {
      TiledOrdered(h.blocks, h.heapOffset, i, j);
    }
    forall i | 0 <= i < |h.blocks| ensures End(h.blocks[i]) <= HEAP_SIZE && h.blocks[i].off % 8 == 0 {
      TiledInside(h.blocks, h.heapOffset, i);
      TiledOffsetsAligned(h.blocks, h.heapOffset, i);
    }
  }

  /**
   * A failed call leaves the list and the offset alone, so any later request
   * whose block would fit in the untouched remainder still succeeds.
   */
  lemma RetrySmaller(h: Heap, big: nat, small: nat)
    requires Allocate(h, big).payload.None?
    requires 0 < small && h.heapOffset + H + AlignSize(small) <= HEAP_SIZE
    ensures Allocate(Allocate(h, big).heap, small).payload.Some?
  {
  }

  /** With no free block, first fit finds nothing, whatever the size. */
  lemma NoFreeBlocksMiss(bs: seq<Block>, n: nat)
    requires NoFreeBlocks(bs)
    ensures FirstFit(bs, n).None?
  {
  }

  /** If no block is free, the call can only append an allocated block. */
  lemma NoFreeBlocksPreserved(h: Heap, size: nat)
    requires NoFreeBlocks(h.blocks)
    ensures NoFreeBlocks(Allocate(h, size).heap.blocks)
  {
    var nb := Allocate(h, size).heap.blocks;
    forall k | 0 <= k < |nb| ensures !nb[k].isFree {
      if k < |h.blocks| {
        assert nb[k] == h.blocks[k];
      }
    }
  }

  /**
   * With no free block and room in the arena, a call appends an allocated
   * block of the aligned size at `heap_offset` and returns its payload.
   */
  lemma AppendWhenNoneFree(h: Heap, size: nat)
    requires NoFreeBlocks(h.blocks) && size > 0 && h.heapOffset + H + AlignSize(size) <= HEAP_SIZE
    ensures var o := Allocate(h, size);
      o.heap == Heap(h.blocks + [Block(h.heapOffset, AlignSize(size), false)], h.heapOffset + H + AlignSize(size), true) &&
      o.payload == Some(h.heapOffset + H) && NoFreeBlocks(o.heap.blocks)
  {
    NoFreeBlocksMiss(h.blocks, AlignSize(size));
    NoFreeBlocksPreserved(h, size);
  }

  /** With no free block, every block counts as allocated. */
  lemma {:induction false} NoFreeBlocksCount(bs: seq<Block>)
    requires NoFreeBlocks(bs)
    ensures AllocatedCount(bs) == |bs|
    decreases |bs|
  {
    if bs != [] {
      NoFreeBlocksCount(bs[..|bs| - 1]);
    }
  }

  /** A sequence of `my_malloc` calls: the final state and how many of them succeeded. */
  function Replay(h: Heap, sizes: seq<nat>): (Heap, nat)
    decreases |sizes|
  {
    if sizes == [] then (h, 0)
    else
      var o := Allocate(h, sizes[0]);
      var r := Replay(o.heap, sizes[1..]);
      (r.0, r.1 + if o.payload.Some? then 1 else 0)
  }

  /**
   * Along any sequence of calls the invariant holds, the offset only grows,
   * and the allocated count grows by the number of successful calls.
   */
  lemma {:induction false} ReplayInvariants(h: Heap, sizes: seq<nat>)
    requires WellFormed(h)
    ensures var r := Replay(h, sizes);
      WellFormed(r.0) && r.0.heapOffset >= h.heapOffset &&
      AllocatedCount(r.0.blocks) == AllocatedCount(h.blocks) + r.1 &&
      TotalSize(r.0.blocks) == r.0.heapOffset
    decreases |sizes|
  {
    if sizes == [] {
      TiledTotalSize(h.blocks, h.heapOffset);
    } else {
      AllocatePreservesWellFormed(h, sizes[0]);
      AllocateCount(h, sizes[0]);
      ReplayInvariants(Allocate(h, sizes[0]).heap, sizes[1..]);
    }
  }

  /**
   * From an empty heap, `my_malloc` alone never produces a free block, so
   * every later first-fit search misses and `k` successes leave exactly
   * `k` allocated blocks.
   */
  lemma {:induction false} ReplayFromEmpty(sizes: seq<nat>)
    ensures var r := Replay(EmptyHeap, sizes);
      NoFreeBlocks(r.0.blocks) && AllocatedCount(r.0.blocks) == r.1 &&
      forall n: nat :: FirstFit(r.0.blocks, n).None?
  {
    ReplayInvariants(EmptyHeap, sizes);
    ReplayNoFree(EmptyHeap, sizes);
    var r := Replay(EmptyHeap, sizes);
    forall n: nat ensures FirstFit(r.0.blocks, n).None? {
      NoFreeBlocksMiss(r.0.blocks, n);
    }
  }

  lemma {:induction false} ReplayNoFree(h: Heap, sizes: seq<nat>)
    requires NoFreeBlocks(h.blocks)
    ensures NoFreeBlocks(Replay(h, sizes).0.blocks)
    decreases |sizes|
  {
    if sizes != [] {
      NoFreeBlocksPreserved(h, sizes[0]);
      ReplayNoFree(Allocate(h, sizes[0]).heap, sizes[1..]);
    }
  }

  /**
   * An allocated block survives any later call unchanged: nothing frees it,
   * a split only rewrites the claimed free block, and an append only adds.
   */
  lemma AllocatedPersist(h: Heap, size: nat, j: nat)
    requires j < |h.blocks| && !h.blocks[j].isFree
    ensures h.blocks[j] in Allocate(h, size).heap.blocks
  {
    var bs := h.blocks;
    var r := Allocate(h, size).heap.blocks;
    if size > 0 {
      var n := AlignSize(size);
      match FirstFit(bs, n)
      case Some(i) =>
        var claimed := bs[i := bs[i].(isFree := false)];
        assert claimed[j] == bs[j];
        if j < i || claimed[i].size < n + H + MIN_BLOCK_SIZE {
          assert r[j] == bs[j];
        } else {
          assert r[j + 1] == bs[j];
        }
      case None =>
        if h.heapOffset + H + n <= HEAP_SIZE {
          assert r[j] == bs[j];
        }
    }
  }

  /** `p` is the payload offset of a block of `bs` that is currently allocated. */
  predicate HeldBy(bs: seq<Block>, p: nat) {
    exists k | 0 <= k < |bs| :: !bs[k].isFree && Payload(bs[k]) == p
  }

  lemma HeldPersists(h: Heap, size: nat, p: nat)
    requires HeldBy(h.blocks, p)
    ensures HeldBy(Allocate(h, size).heap.blocks, p)
  {
    var k :| 0 <= k < |h.blocks| && !h.blocks[k].isFree && Payload(h.blocks[k]) == p;
    AllocatedPersist(h, size, k);
    var nb := Allocate(h, size).heap.blocks;
    var k' :| 0 <= k' < |nb| && nb[k'] == h.blocks[k];
  }

  /**
   * A call never returns the payload of a block that is already allocated:
   * first fit hands out a free block, and a fresh block starts at
   * `heap_offset`, past every block of the list.
   */
  lemma GrantIsFresh(h: Heap, size: nat)
    requires WellFormed(h) && Allocate(h, size).payload.Some?
    ensures !HeldBy(h.blocks, Allocate(h, size).payload.value)
  {
    var bs := h.blocks;
    var p := Allocate(h, size).payload.value;
    var n := AlignSize(size);
    forall k | 0 <= k < |bs| && !bs[k].isFree ensures Payload(bs[k]) != p {
      match FirstFit(bs, n)
      case Some(i) =>
        if k < i {
          TiledOrdered(bs, h.heapOffset, k, i);
        } else if i < k {
          TiledOrdered(bs, h.heapOffset, i, k);
        }
      case None =>
        TiledInside(bs, h.heapOffset, k);
    }
  }

  /** The payload offsets returned by the successful calls of a sequence, in call order. */
  function ReplayPayloads(h: Heap, sizes: seq<nat>): (ps: seq<nat>)
    ensures |ps| == Replay(h, sizes).1
    decreases |sizes|
  {
    if sizes == [] then []
    else
      var o := Allocate(h, sizes[0]);
      (if o.payload.Some? then [o.payload.value] else []) + ReplayPayloads(o.heap, sizes[1..])
  }

  predicate Distinct(ps: seq<nat>) {
    forall s, t | 0 <= s < t < |ps| :: ps[s] != ps[t]
  }

  /**
   * Payloads already handed out (`prior`) that are still held stay held
   * through any further calls, and no later call hands one of them out again.
   */
  lemma {:induction false} ReplayPayloadsHeld(h: Heap, sizes: seq<nat>, prior: seq<nat>)
    requires WellFormed(h) && Distinct(prior)
    requires forall q | q in prior :: HeldBy(h.blocks, q)
    ensures var ps := prior + ReplayPayloads(h, sizes);
      Distinct(ps) && forall q | q in ps :: HeldBy(Replay(h, sizes).0.blocks, q)
    decreases |sizes|
  {
    if sizes == [] {
      assert prior + [] == prior;
    } else {
      var o := Allocate(h, sizes[0]);
      AllocatePreservesWellFormed(h, sizes[0]);
      forall q | q in prior ensures HeldBy(o.heap.blocks, q) {
        HeldPersists(h, sizes[0], q);
      }
      var next := prior + (if o.payload.Some? then [o.payload.value] else []);
      if o.payload.Some? {
        AllocateGrant(h, sizes[0]);
        GrantIsFresh(h, sizes[0]);
        assert o.payload.value !in prior;
      }
      ReplayPayloadsHeld(o.heap, sizes[1..], next);
      assert prior + ReplayPayloads(h, sizes) == next + ReplayPayloads(o.heap, sizes[1..]);
    }
  }

  /**
   * `p` and `q` are the payloads of two allocated blocks of `bs` that lie in
   * the arena and whose byte ranges do not overlap.
   */
  predicate SeparateAllocated(bs: seq<Block>, p: nat, q: nat) {
    exists k1, k2 | 0 <= k1 < |bs| && 0 <= k2 < |bs| ::
      Payload(bs[k1]) == p && Payload(bs[k2]) == q &&
      !bs[k1].isFree && !bs[k2].isFree && End(bs[k1]) <= HEAP_SIZE && End(bs[k2]) <= HEAP_SIZE &&
      (End(bs[k1]) <= bs[k2].off || End(bs[k2]) <= bs[k1].off)
  }

  /** In a well-formed state, two different held payloads belong to separate blocks. */
  lemma HeldSeparate(h: Heap, p: nat, q: nat)
    requires WellFormed(h) && HeldBy(h.blocks, p) && HeldBy(h.blocks, q) && p != q
    ensures SeparateAllocated(h.blocks, p, q)
  {
    var bs := h.blocks;
    var k1 :| 0 <= k1 < |bs| && !bs[k1].isFree && Payload(bs[k1]) == p;
    var k2 :| 0 <= k2 < |bs| && !bs[k2].isFree && Payload(bs[k2]) == q;
    TiledInside(bs, h.heapOffset, k1);
    TiledInside(bs, h.heapOffset, k2);
    if k1 < k2 {
      TiledOrdered(bs, h.heapOffset, k1, k2);
    } else {
      TiledOrdered(bs, h.heapOffset, k2, k1);
    }
  }

  /**
   * Along any sequence of calls from a well-formed state, no payload is
   * handed out twice, and in the final state any two returned payloads
   * belong to two allocated blocks whose byte ranges do not overlap.
   */
  lemma ReplayPayloadsDisjoint(h: Heap, sizes: seq<nat>)
    requires WellFormed(h)
    ensures var ps := ReplayPayloads(h, sizes);
      Distinct(ps) &&
      forall s, t | 0 <= s < t < |ps| :: SeparateAllocated(Replay(h, sizes).0.blocks, ps[s], ps[t])
  {
    var ps := ReplayPayloads(h, sizes);
    var fh := Replay(h, sizes).0;
    ReplayPayloadsHeld(h, sizes, []);
    assert [] + ps == ps;
    ReplayInvariants(h, sizes);
    forall s, t | 0 <= s < t < |ps| ensures SeparateAllocated(fh.blocks, ps[s], ps[t]) {
      HeldSeparate(fh, ps[s], ps[t]);
    }
  }
}
