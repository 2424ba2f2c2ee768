# First-fit arena allocator, modelled in Dafny

This project models `my_malloc`, a first-fit allocator over one static 10 MiB
arena. `malloc.c` and `my_malloc.c` are identical, line for line, so the model
covers both. The table below cites `malloc.c`; the same lines hold in
`my_malloc.c`.

The allocator's globals are the arena, the bump offset `heap_offset`, the
`heap_initialized` flag, and a singly linked list of block headers
`{size, is_free, next}` threaded through the arena from `heap_start`. The model
keeps the same state:

- A block is `Block(off, size, isFree)`. `off` is the byte offset of its header
  in the arena, and the payload pointer that `my_malloc` returns is `off + H`.
- The list is a `seq<Block>` in `next` order. `bs[0]` is `heap_start`, and the
  last block's `next` is NULL.
- Inside the methods, a block pointer is the block's position in that sequence.
- The constants are `HEAP_SIZE = 10485760` and `MIN_BLOCK_SIZE = 32`.
- `H = sizeof(block_t) = 24`, the LP64 layout: an 8-byte `size_t`, a 4-byte
  `int` plus 4 bytes of padding, and an 8-byte pointer.

The model has three layers:

- **`Blocks`** (`blocks.dfy`) holds the pure definitions. These are alignment,
  the first-fit search, the sums that the two queries compute, and the tiling
  invariant. The tiling invariant says that, in list order, the blocks cover
  `[0, heap_offset)` with no gaps and no overlaps.
- **`Allocation`** (`allocation.dfy`) holds one call of `my_malloc` as a
  function `Allocate` from state to state. Around it are the lemmas about it:
  - it preserves the invariant;
  - a success adds exactly one allocated block;
  - what the returned block looks like;
  - a failure changes nothing, so a smaller retry can still succeed;
  - from an empty heap, no block is ever free.
  - an allocated block survives every later call unchanged, so the payloads
    returned along any sequence of calls never overlap.
- **`Malloc`** (`malloc.dfy`) holds the class `Allocator`. Its fields are the
  globals, and its methods follow the C functions:
  - the list walks are `while` loops;
  - `split_block` and `request_space` update fields in place;
  - `Malloc` is proved to perform exactly the transition `Allocate`;
  - the query methods are proved to return the sums that `Blocks` defines.

The module `SizeWrap` (`size_wrap.dfy`) holds the 64-bit `size_t` arithmetic
of the source, which is covered under Findings.

## Model

| member | source | states |
|---|---|---|
| `Blocks.AlignSize` | malloc.c:22-25 | the result is a multiple of 8, is at least the request, and is less than the request plus 8 |
| `Blocks.AlignSizeIsLeast` | malloc.c:22-25 | no multiple of 8 that is at least the request is smaller than the aligned size, so it is the least such multiple |
| `Blocks.AlignSizeIdempotent` | malloc.c:22-25 | aligning an aligned size changes nothing |
| `Blocks.FirstFitFrom` | malloc.c:27-40 | the result is the first index at or after `k` whose block is free and at least `n` bytes, and no earlier index fits; None means that no block from `k` on fits |
| `Blocks.FirstFitUnique` | malloc.c:27-40 | a fitting index with no fitting index before it is exactly the first-fit result |
| `Malloc.Allocator.FindFreeBlock` | malloc.c:27-40 | the walk from `heap_start` returns the first free block of at least `n` bytes in list order, or None when there is none; it changes nothing |
| `Malloc.Allocator.SplitBlock` | malloc.c:42-57 | the new list is `SplitAt` of the old one: unchanged when `size < n + H + MIN_BLOCK_SIZE`; otherwise the block shrinks to `n` and a free block of `size - n - H` bytes at `off + H + n` is linked right after it |
| `Allocation.SplitTiled` | malloc.c:50-56 | a split keeps the blocks tiling the same extent, because the remainder starts where the shrunk block now ends and ends where the old block ended |
| `Allocation.SplitTotalSize` | malloc.c:50-56 | a split preserves the sum of `size + H` over the list |
| `Allocation.SplitAllocatedCount` | malloc.c:50-56 | a split adds only a free block, so the number of allocated blocks is unchanged |
| `Allocation.SplitAligned` | malloc.c:50-56 | when the split size is a multiple of 8, every payload size stays a multiple of 8 |
| `Allocation.SplitKeepsClaimed` | malloc.c:44-56 | the split block keeps its position, offset and flag; its size becomes exactly `n` when the slack is at least `H + MIN_BLOCK_SIZE`, and otherwise stays as it was |
| `Allocation.ClaimTiled` | malloc.c:120 | marking a block allocated keeps the tiling and the alignment of sizes |
| `Allocation.ClaimCount` | malloc.c:120 | marking a free block allocated raises the allocated count by exactly one |
| `Malloc.Allocator.RequestSpace` | malloc.c:64-81 | when `heap_offset + H + n > HEAP_SIZE`, it returns None and leaves `heap_offset` unchanged; otherwise it returns an allocated block of `n` bytes at the old `heap_offset`, and `heap_offset` grows by exactly `H + n` |
| `Malloc.Allocator.LinkAtTail` | malloc.c:132-137 | the walk to the block whose `next` is NULL, followed by the link, appends the new block at the end of the list |
| `Malloc.Allocator.constructor` | malloc.c:17-62 | the state before the first call is an empty list, offset 0 and not initialized, and it satisfies the invariant |
| `Allocation.Allocate` | malloc.c:84-142 | `my_malloc(0)` returns NULL and changes nothing, including the flag; any other size sets the flag; a NULL result leaves the list and `heap_offset` unchanged; `heap_offset` never decreases |
| `Malloc.Allocator.Malloc` | malloc.c:84-142 | the method makes exactly the transition `Allocate` and returns its payload, and it preserves the tiling invariant |
| `Allocation.AllocatePreservesWellFormed` | malloc.c:98-138 | every call keeps the invariant: the blocks tile `[0, heap_offset)` in list order, `heap_offset <= HEAP_SIZE`, and every size is a multiple of 8 |
| `Allocation.AllocateCount` | malloc.c:115-130 | a successful call raises the allocated-block count by exactly one, and a failed call leaves it unchanged |
| `Allocation.AllocateGrant` | malloc.c:115-141 | the returned pointer is `off + H` of an allocated block that lies inside the arena; the block holds at least the aligned request, and holds more only when its slack was below `H + MIN_BLOCK_SIZE` |
| `Allocation.WellFormedConsequences` | malloc.c:73-78 | under the invariant, the list sum equals `heap_offset`, each block ends before the next one in the list begins (so payloads are disjoint and list order is address order), every block ends inside the arena on an 8-byte-aligned header, and `block_count * H <= HEAP_SIZE` |
| `Allocation.RetrySmaller` | malloc.c:126-130 | after a failed call, any nonzero request whose aligned block still fits above `heap_offset` succeeds |
| `Allocation.NoFreeBlocksMiss` | malloc.c:27-40 | with no free block in the list, first fit finds nothing for any size |
| `Allocation.NoFreeBlocksPreserved` | malloc.c:115-138 | when no block is free, a call can only append an allocated block, so no block becomes free |
| `Allocation.ReplayInvariants` | malloc.c:84-142 | along any sequence of calls, the invariant holds, `heap_offset` never decreases, the list sum equals `heap_offset`, and the allocated count grows by the number of successful calls |
| `Allocation.ReplayNoFree` | malloc.c:76-78 | a sequence of calls that starts with no free block never produces one |
| `Allocation.ReplayFromEmpty` | malloc.c:84-142 | from an empty heap and with `my_malloc` alone, no block is ever free, every first-fit search misses, and `k` successful calls leave exactly `k` allocated blocks |
| `Allocation.AppendWhenNoneFree` | malloc.c:123-138 | with no free block and room in the arena, a call appends an allocated block of the aligned size at `heap_offset`, returns `heap_offset + H`, and still leaves no free block |
| `Allocation.NoFreeBlocksCount` | malloc.c:190-205 | when no block is free, the allocated count is the block count |
| `Allocation.AllocatedPersist` | malloc.c:115-138 | a block that is allocated before a call is still in the list afterwards with the same offset, size and flag: a split rewrites only the free block it claims, and an append only adds |
| `Allocation.HeldPersists` | malloc.c:115-138 | a payload that belongs to an allocated block still does after any call |
| `Allocation.GrantIsFresh` | malloc.c:115-141 | a call never returns the payload of a block that is already allocated |
| `Allocation.ReplayPayloads` | malloc.c:84-142 | the payloads returned along a sequence of calls, in call order; there is one per successful call |
| `Allocation.ReplayPayloadsHeld` | malloc.c:84-142 | payloads handed out earlier remain payloads of allocated blocks through any further calls, and no later call returns one of them again |
| `Allocation.HeldSeparate` | malloc.c:64-81 | in a well-formed state, two different payloads of allocated blocks belong to two blocks inside the arena whose byte ranges do not overlap |
| `Allocation.ReplayPayloadsDisjoint` | malloc.c:84-142 | along any sequence of calls from a well-formed state, no payload is returned twice, and in the final state any two returned payloads lie in two allocated blocks inside the arena whose byte ranges do not overlap |
| `Blocks.TiledTotalSize` | malloc.c:208-220 | when the blocks tile `[0, end)`, the sum of `size + H` is `end` |
| `Blocks.TiledOrdered` | malloc.c:132-137 | in a tiled list, each block ends at or before the header of every later block |
| `Blocks.TiledInside` | malloc.c:73-78 | in a tiled list, every block ends inside the tiled extent |
| `Blocks.TiledOffsetsAligned` | malloc.c:50-76 | with `H` and every size a multiple of 8, every header offset is a multiple of 8 |
| `Blocks.TotalSizeCoversHeaders` | malloc.c:184 | the list sum is at least `block_count * H` |
| `Blocks.AllocatedBytesBound` | malloc.c:168-184 | allocated payload bytes plus the header overhead never exceed the list sum |
| `Blocks.AllocatedCountAppend` | malloc.c:190-205 | the allocated count of two concatenated lists is the sum of their counts |
| `Malloc.Allocator.AllocatedBlocks` | malloc.c:190-205 | the walk returns the number of blocks whose `is_free` is clear, which is at most the block count; it changes nothing |
| `Malloc.Allocator.TotalHeapSize` | malloc.c:208-220 | the walk returns the sum of `size + H` over the list, which under the invariant is `heap_offset`; it changes nothing |
| `Malloc.Allocator.HeapInfo` | malloc.c:144-188 | an empty list gives no counters; otherwise `total_size` and `allocated_count` equal what the two queries return, header overhead is `block_count * H`, and under the invariant `total_size == heap_offset` and allocated bytes plus overhead fit within it |
| `Malloc.BasicAllocation` | main.c:12-26 | calls for 100, 200 and 50 bytes on a fresh heap give blocks of 104, 200 and 56 bytes at offsets 0, `104 + H` and `304 + 2H`; the pointers are these offsets plus `H`; the allocated count is 3 and the total heap size is `360 + 3H` |
| `Malloc.SmallTests` | main.c:12-81 | tests 1 to 3 on a fresh allocator (100, 200, 50, then 50 and 20, then a 48-byte `test_data_t`) leave six allocated blocks, no free block, and `heap_offset == 632` |
| `Malloc.LargeTest` | main.c:83-107 | after tests 1 to 3, the 1 MiB request succeeds with payload `632 + H`, and `heap_offset` becomes `1049232` |
| `Malloc.MultipleSmallTest` | main.c:109-131 | the ten 32-byte requests all succeed, each costing 56 bytes, and leave 17 blocks and `heap_offset == 1049792` |
| `Malloc.EdgeCaseTest` | main.c:133-150 | on the state the first five tests leave, `my_malloc(0)` returns NULL and changes nothing, and `my_malloc(1)` gets an 8-byte block at offset `1049792`, appended as the 18th block |
| `Malloc.TestSuite` | main.c:160-179 | the six tests in `main`'s order on one allocator, then the final statistics: 18 allocated blocks and a total heap size of `1049792 + H + 8` |
| `SizeWrap.AlignSizeAsWritten` | malloc.c:22-25 | `(size + 7) & ~7` in 64 bits agrees with the unbounded alignment for every size up to `SIZE_MAX - 7` |
| `SizeWrap.AlignSizeWrapsToZero` | malloc.c:22-25 | for the seven largest sizes the 64-bit alignment is 0, and `request_space(0)` then hands out an empty block on an empty heap |
| `SizeWrap.RequestSpaceAsWritten` | malloc.c:64-81 | the 64-bit bound test fails exactly when the block does not fit, provided `heap_offset + H + n` does not wrap |
| `SizeWrap.RequestSpaceWrapAccepts` | malloc.c:66-68 | for `n = 2^64 - H`, the 64-bit test accepts a block that runs past the arena, and `heap_offset` stays at 0 |
| `SizeWrap.AlignSizeChecked` | malloc.c:22-25 | alignment that rejects the wrapping sizes returns None exactly for sizes above `SIZE_MAX - 7`, and otherwise returns the unbounded aligned size |
| `SizeWrap.RequestFitsCheckedExact` | malloc.c:66-68 | the rearranged bound test, whose 64-bit intermediates cannot wrap, accepts exactly when `heap_offset + H + n <= HEAP_SIZE` |
| `SizeWrap.AllocateOversizeFails` | malloc.c:64-81 | with overflow-free arithmetic, any request above `HEAP_SIZE - H` fails on a well-formed heap and changes neither the list nor `heap_offset` |

## Left out

- The `printf` calls in `my_malloc` and `print_heap_info` are output only and are not modelled. `HeapInfo` returns the integer counters that `print_heap_info` prints.
- The utilization percentage in `print_heap_info` (malloc.c:185-186) is floating point and is not modelled. The model keeps `heap_offset`, from which it is computed.
- The arena's bytes and raw pointer casts are not modelled: blocks are represented by their offsets. The allocator never reads or writes payload bytes, so the main.c checks that write a byte to a payload and read it back are also out of scope.
- `sizeof(block_t)` is the constant `H = 24`, the LP64 layout. The struct layout of other platforms is not modelled.
- The counters `int count`, `int block_count` and `int allocated_count` are unbounded naturals in the model. `WellFormedConsequences` bounds the block count by `HEAP_SIZE / H`, which is far below `INT_MAX`.
- Request sizes are unbounded naturals in `Blocks`, `Allocation` and `Malloc`. The 64-bit wrap-around of `align_size` and of the bound test in `request_space` is modelled separately in `SizeWrap`; see Findings.
- Concurrency is not modelled. The globals are unsynchronized, and the allocator is single-threaded by design.
- The driver in main.c is modelled by its sequence of requests and its final queries. Its `printf` output and its writes to payload bytes are not modelled.

## Findings

| source | as written | input that shows it | evidently intended | confidence | as-written member | corrected member |
|---|---|---|---|---|---|---|
| malloc.c:24 | `(size + 7) & ~7` wraps in `size_t`, so the aligned size becomes 0 | `my_malloc(SIZE_MAX)` (any of the seven largest sizes) on an empty heap: the request is aligned to 0, and `request_space(0)` returns a block with no payload instead of NULL | a request that cannot be aligned fails | not executed; high | `SizeWrap.AlignSizeWrapsToZero` | `SizeWrap.AlignSizeChecked` |
| malloc.c:66-68 | `heap_offset + (H + size)` wraps in `size_t` before it is compared with `HEAP_SIZE` | `my_malloc(2^64 - 24)` on an empty heap: `H + size` wraps to 0, the test passes, a block of `2^64 - 24` bytes is handed out at offset 0, and `heap_offset` stays 0, so the next request is placed at offset 0 again, on top of that header; in the C code, linking it at the tail then makes that block its own `next`, so every later walk of the list never ends (pointer identity is not modelled, so only the placement is shown) | a block that does not fit the arena is refused | not executed; high | `SizeWrap.RequestSpaceWrapAccepts` | `SizeWrap.RequestFitsCheckedExact` |

The rest of the model uses unbounded arithmetic. `RequestFitsCheckedExact` and
`AlignSizeChecked` show that this arithmetic coincides with the overflow-free
64-bit versions. On top of it, `AllocateOversizeFails` shows that the model refuses
both inputs above.
