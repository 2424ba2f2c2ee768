/**
 * The allocator's global state and its operations, written as the C code
 * runs them: fields updated in place and list walks as loops. Each method is
 * proved to compute the value, or to make the state change, that modules
 * Blocks and Allocation define.
 */
module Malloc {
  import opened Wrappers
  import opened Blocks
  import opened Allocation

  /** The integer counters `print_heap_info` prints (its floating-point utilization is left out). */
  datatype HeapStats = HeapStats(
    blockCount: nat,
    allocatedCount: nat,
    totalSize: nat,
    allocatedSize: nat,
    headerOverhead: nat,
    bufferUsed: nat)

  class Allocator {
    /** The list from `heap_start`, in `next` order. */
    var blocks: seq<Block>
    /** `heap_offset`: bytes of the arena handed out so far. */
    var heapOffset: nat
    /** `heap_initialized`. */
    var initialized: bool

    function State(): Heap
      reads this
    {
      Heap(blocks, heapOffset, initialized)
    }

    ghost predicate Valid()
      reads this
    {
      WellFormed(State())
    }

    /** The state of the globals before the first call. */
    constructor ()
      ensures State() == EmptyHeap && Valid()
    {
      blocks := [];
      heapOffset := 0;
      initialized := false;
    }

    /** `find_free_block`: walk from `heap_start`, return the first free block of at least `n` bytes. */
    method FindFreeBlock(n: nat) returns (r: Option<nat>)
      ensures r == FirstFit(blocks, n)
      ensures r.Some? ==> r.value < |blocks| && blocks[r.value].isFree && blocks[r.value].size >= n
      ensures r.Some? ==> forall j | 0 <= j < r.value :: !Fits(blocks[j], n)
      ensures r.None? ==> forall j | 0 <= j < |blocks| :: !Fits(blocks[j], n)
    {
      var current := 0;
      while current < |blocks|
        invariant current <= |blocks|
        invariant FirstFitFrom(blocks, n, current) == FirstFit(blocks, n)
      {
        if blocks[current].isFree && blocks[current].size >= n {
          return Some(current);
        }
        current := current + 1;
      }
      return None;
    }

    /**
     * `split_block` on the block at list position `i`: with enough slack, write
     * a free header right after the first `n` payload bytes, link it after
     * the block, and shrink the block to `n`.
     */
    method SplitBlock(i: nat, n: nat)
      requires i < |blocks|
      modifies this`blocks
      ensures blocks == SplitAt(old(blocks), i, n)
    {
      var block := blocks[i];
      if block.size < n + H + MIN_BLOCK_SIZE {
        return;
      }
      var newBlock := Block(block.off + H + n, block.size - n - H, true);
      blocks := blocks[..i + 1] + [newBlock] + blocks[i + 1..];
      blocks := blocks[i := block.(size := n)];
    }

    /**
     * `request_space`: carve `H + n` bytes at `heap_offset` for a new
     * allocated block with no successor, or fail without a change.
     */
    method RequestSpace(n: nat) returns (b: Option<Block>)
      modifies this`heapOffset
      ensures old(heapOffset) + H + n > HEAP_SIZE ==> b == None && heapOffset == old(heapOffset)
      ensures old(heapOffset) + H + n <= HEAP_SIZE ==>
        b == Some(Block(old(heapOffset), n, false)) && heapOffset == old(heapOffset) + H + n
    {
      var totalSize := H + n;
      if heapOffset + totalSize > HEAP_SIZE {
        return None;
      }
      var block := Block(heapOffset, n, false);
      heapOffset := heapOffset + totalSize;
      return Some(block);
    }

    /** The tail walk of `my_malloc`: find the block whose `next` is NULL and link `b` there. */
    method LinkAtTail(b: Block)
      requires blocks != []
      modifies this`blocks
      ensures blocks == old(blocks) + [b]
    {
      var current := 0;
      while current + 1 < |blocks|
        invariant current < |blocks|
      {
        current := current + 1;
      }
      // Here `current == |blocks| - 1`: the last block, the one whose `next` is NULL.
      blocks := blocks[..current + 1] + [b] + blocks[current + 1..];
    }

    /**
     * `my_malloc`: performs exactly the transition `Allocate`, and keeps the
     * invariant. The result is the payload offset, header plus H.
     */
    method Malloc(size: nat) returns (p: Option<nat>)
      requires Valid()
      modifies this
      ensures State() == Allocate(old(State()), size).heap
      ensures p == Allocate(old(State()), size).payload
      ensures Valid()
    {
      if size == 0 {
        return None;
      }
      ghost var h0 := State();
      ghost var o := Allocate(h0, size);
      AllocatePreservesWellFormed(h0, size);
      if !initialized {
        initialized := true;
      }
      var n := AlignSize(size);
      if blocks == [] {
        assert FirstFit(h0.blocks, n) == None;
        var block := RequestSpace(n);
        if block.None? {
          return None;
        }
        blocks := [block.value];
        p := Some(Payload(block.value));
        assert State() == o.heap;
      } else {
        var found := FindFreeBlock(n);
        if found.Some? {
          var i := found.value;
          ghost var claimed := h0.blocks[i := h0.blocks[i].(isFree := false)];
          assert o == Outcome(Heap(SplitAt(claimed, i, n), h0.heapOffset, true), Some(Payload(h0.blocks[i])));
          blocks := blocks[i := blocks[i].(isFree := false)];
          SplitBlock(i, n);
          SplitKeepsClaimed(claimed, i, n);
          p := Some(Payload(blocks[i]));
        } else {
          var block := RequestSpace(n);
          if block.None? {
            return None;
          }
          LinkAtTail(block.value);
          p := Some(Payload(block.value));
          assert State() == o.heap;
        }
      }
    }

    /** `get_allocated_blocks`: count the blocks whose `is_free` is clear. */
    method AllocatedBlocks() returns (count: nat)
      ensures count == AllocatedCount(blocks)
      ensures count <= |blocks|
    {
      count := 0;
      var current := 0;
      while current < |blocks|
        invariant current <= |blocks|
        invariant count == AllocatedCount(blocks[..current]) && count <= current
      {
        assert blocks[..current + 1][..current] == blocks[..current];
        if !blocks[current].isFree {
          count := count + 1;
        }
        current := current + 1;
      }
      assert blocks[..current] == blocks;
    }

    /** `get_total_heap_size`: the sum of `size + H`, which under the invariant is `heap_offset`. */
    method TotalHeapSize() returns (total: nat)
      ensures total == TotalSize(blocks)
      ensures Valid() ==> total == heapOffset
    {
      total := 0;
      var current := 0;
      while current < |blocks|
        invariant current <= |blocks|
        invariant total == TotalSize(blocks[..current])
      {
        assert blocks[..current + 1][..current] == blocks[..current];
        total := total + blocks[current].size + H;
        current := current + 1;
      }
      assert blocks[..current] == blocks;
      if Valid() {
        TiledTotalSize(blocks, heapOffset);
      }
    }

    /**
     * The counters of `print_heap_info`; None when the list is empty
     * ("Heap is empty"). They agree with the two queries above.
     */
    method HeapInfo() returns (info: Option<HeapStats>)
      ensures info.None? <==> blocks == []
      ensures info.Some? ==> info.value == HeapStats(
        |blocks|, AllocatedCount(blocks), TotalSize(blocks), AllocatedBytes(blocks), |blocks| * H, heapOffset)
      ensures info.Some? && Valid() ==>
        info.value.totalSize == heapOffset &&
        info.value.allocatedSize + info.value.headerOverhead <= info.value.totalSize
    {
      if blocks == [] {
        return None;
      }
      var blockCount := 0;
      var allocatedCount := 0;
      var totalSize := 0;
      var allocatedSize := 0;
      while blockCount < |blocks|
        invariant blockCount <= |blocks|
        invariant allocatedCount == AllocatedCount(blocks[..blockCount])
        invariant totalSize == TotalSize(blocks[..blockCount])
        invariant allocatedSize == AllocatedBytes(blocks[..blockCount])
      {
        assert blocks[..blockCount + 1][..blockCount] == blocks[..blockCount];
        var current := blocks[blockCount];
        totalSize := totalSize + current.size + H;
        if !current.isFree {
          allocatedCount := allocatedCount + 1;
          allocatedSize := allocatedSize + current.size;
        }
        blockCount := blockCount + 1;
      }
      assert blocks[..blockCount] == blocks;
      info := Some(HeapStats(blockCount, allocatedCount, totalSize, allocatedSize, blockCount * H, heapOffset));
      if Valid() {
        TiledTotalSize(blocks, heapOffset);
        AllocatedBytesBound(blocks);
      }
    }
  }

  /** The three calls of the first demo test, one transition at a time. */
  lemma BasicAllocationSteps()
    ensures Allocate(EmptyHeap, 100)
         == Outcome(Heap([Block(0, 104, false)], 104 + H, true), Some(H))
    ensures Allocate(Heap([Block(0, 104, false)], 104 + H, true), 200)
         == Outcome(Heap([Block(0, 104, false), Block(104 + H, 200, false)], 304 + 2 * H, true),
                    Some(104 + 2 * H))
    ensures Allocate(Heap([Block(0, 104, false), Block(104 + H, 200, false)], 304 + 2 * H, true), 50)
         == Outcome(Heap([Block(0, 104, false), Block(104 + H, 200, false), Block(304 + 2 * H, 56, false)],
                         360 + 3 * H, true),
                    Some(304 + 3 * H))
  {
    assert AlignSize(100) == 104 && AlignSize(200) == 200 && AlignSize(50) == 56;
    assert FirstFit([Block(0, 104, false)], 200) == None;
    assert FirstFitFrom([Block(0, 104, false), Block(104 + H, 200, false)], 56, 1) == None;
  }

  /**
   * The first test of the demo driver: 100, 200 and 50 bytes from a fresh
   * heap give three adjacent allocated blocks of 104, 200 and 56 bytes.
   */
  method BasicAllocation() returns (p1: Option<nat>, p2: Option<nat>, p3: Option<nat>,
                                    count: nat, total: nat, layout: seq<Block>)
    ensures p1 == Some(H) && p2 == Some(104 + 2 * H) && p3 == Some(304 + 3 * H)
    ensures layout == [Block(0, 104, false), Block(104 + H, 200, false), Block(304 + 2 * H, 56, false)]
    ensures count == 3 && total == 360 + 3 * H
  {
    BasicAllocationSteps();
    var a := new Allocator();
    p1 := a.Malloc(100);
    p2 := a.Malloc(200);
    p3 := a.Malloc(50);
    ghost var bs := a.blocks;
    assert bs[..2][..1] == bs[..1] && bs[..1][..0] == [];
    assert AllocatedCount(bs[..2]) == 2;
    count := a.AllocatedBlocks();
    total := a.TotalHeapSize();
    layout := a.blocks;
  }

  /**
   * What the demo driver's requests leave behind, test after test: no block
   * is free, `heap_offset` is `off` and the list holds `len` blocks.
   */
  ghost predicate AppendedOnly(a: Allocator, off: nat, len: nat)
    reads a
  {
    a.Valid() && NoFreeBlocks(a.blocks) && a.initialized && a.heapOffset == off && |a.blocks| == len
  }

  /** One request of the driver while no block is free: it is appended at `heap_offset`. */
  method AppendRequest(a: Allocator, size: nat) returns (p: Option<nat>)
    requires a.Valid() && NoFreeBlocks(a.blocks)
    requires size > 0 && a.heapOffset + H + AlignSize(size) <= HEAP_SIZE
    modifies a
    ensures p == Some(old(a.heapOffset) + H)
    ensures AppendedOnly(a, old(a.heapOffset) + H + AlignSize(size), old(|a.blocks|) + 1)
  {
    AppendWhenNoneFree(a.State(), size);
    p := a.Malloc(size);
  }

  /** Tests 1 to 3 of the driver: 100, 200, 50, then 50 and 20, then `sizeof(test_data_t)`, 48 on LP64. */
  method SmallTests(a: Allocator)
    requires a.State() == EmptyHeap
    modifies a
    ensures AppendedOnly(a, 632, 6)
  {
    var p;
    p := AppendRequest(a, 100);
    p := AppendRequest(a, 200);
    p := AppendRequest(a, 50);
    p := AppendRequest(a, 50);
    p := AppendRequest(a, 20);
    p := AppendRequest(a, 48);
  }

  /** Test 4: one MiB, which still fits the arena. */
  method LargeTest(a: Allocator) returns (large: Option<nat>)
    requires AppendedOnly(a, 632, 6)
    modifies a
    ensures large == Some(632 + H)
    ensures AppendedOnly(a, 1049232, 7)
  {
    large := AppendRequest(a, 1024 * 1024);
  }

  /** Test 5: ten requests of 32 bytes, 56 bytes of arena each with the header. */
  method MultipleSmallTest(a: Allocator)
    requires AppendedOnly(a, 1049232, 7)
    modifies a
    ensures AppendedOnly(a, 1049792, 17)
  {
    for i := 0 to 10
      invariant AppendedOnly(a, 1049232 + 56 * i, 7 + i)
    {
      var p := AppendRequest(a, 32);
    }
  }

  /**
   * Test 6 on the state the driver has reached: 0 bytes gives NULL and
   * changes nothing; 1 byte gets an 8-byte block appended at `heap_offset`.
   */
  method EdgeCaseTest(a: Allocator) returns (zero: Option<nat>, tiny: Option<nat>, beforeZero: Heap, afterZero: Heap)
    requires AppendedOnly(a, 1049792, 17)
    modifies a
    ensures zero == None && afterZero == beforeZero && beforeZero.heapOffset == 1049792
    ensures tiny == Some(1049792 + H)
    ensures AppendedOnly(a, 1049792 + H + 8, 18)
  {
    beforeZero := a.State();
    zero := a.Malloc(0);
    afterZero := a.State();
    tiny := AppendRequest(a, 1);
  }

  /**
   * The driver's `main`: the six tests on one allocator, then the final
   * statistics. The 1 MiB request and the 1-byte request both succeed, and
   * 18 allocated blocks cover `1049824` bytes.
   */
  method TestSuite() returns (large: Option<nat>, zero: Option<nat>, tiny: Option<nat>, count: nat, total: nat)
    ensures large == Some(632 + H)
    ensures zero == None && tiny == Some(1049792 + H)
    ensures count == 18 && total == 1049792 + H + 8
  {
    var a := new Allocator();
    SmallTests(a);
    large := LargeTest(a);
    MultipleSmallTest(a);
    var beforeZero, afterZero;
    zero, tiny, beforeZero, afterZero := EdgeCaseTest(a);
    NoFreeBlocksCount(a.blocks);
    count := a.AllocatedBlocks();
    total := a.TotalHeapSize();
  }
}
