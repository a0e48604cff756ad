# Operating-Systems: allocators and shell helpers, modelled in Dafny

This project models three pieces of a teaching repository.

- **The buddy allocator** (`VM/malloc_3.cpp`) is the main piece. The heap starts as 32 free blocks of 128 KB, aligned to 4 MB. Each free block is kept in the address-ascending list of its order: order k holds blocks of 2^(k+7) bytes, header included. A request is served from the first non-empty list at or above its order. The block is split down, and every upper half goes on a list. `sfree` merges a freed block with its XOR buddy while that buddy is free and of equal size. `srealloc` tries the same merges to grow a block in place. Requests above 128 KB go to `mmap`.
- **The first-fit allocator** (`VM/malloc_2.cpp`) keeps one list of headers in `sbrk` order. It reuses the first free block that is large enough, and otherwise grows the break.
- **The smash shell helpers** (`smash/Commands.cpp`):
  - trimming and word splitting;
  - the background sign `&`;
  - the wildcard test and the built-in name test;
  - the classification done by `SmallShell::CreateCommand`;
  - the alias table and the `alias` and `unalias` commands;
  - job-id bookkeeping in `JobsList`.

## How the model is built

- **Buddy heap state** is a `BuddyHeap.Heap`. It holds:
  - a map from header address to `Header(size, isFree)`;
  - one sorted address list per order;
  - the two counters the source keeps (`total_blocks`, `total_allocated_bytes`);
  - the `initialized` flag.
- **Stale headers stay in the map.** A header that a merge left behind is still there, because `srealloc`'s fallback reads one.
- **Pointers** are `Option<nat>`; `None` stands for NULL.
- **OS answers are inputs**, bundled in `BuddyHeap.Os`: what `sbrk(0)` gives, whether extending the break succeeds, and what `mmap` answers. The first-fit allocator takes the break `sbrk` returns, or `None`.
- **Memory contents are not modelled.** Copies and zeroing are reported as effect records: `Effects.Move` for `memmove` and `Effects.Region` for `memset`, `mmap` and `munmap`.
- `ceil(log2(n)) - 7` is `BuddyArith.OrderFor`, the least order whose block holds `n` bytes. `pow(10, 8)` is `Sizes.SIZE_LIMIT`.
- `size_t` products are taken modulo 2^64 (`Sizes.SizeProduct`).
- Where a size multiplies or divides a variable in a hot definition, it is written as a literal (4096 in `BuddyArith.PageRound`, 4194304 in `BuddyArith.ArenaStart` and the arena's alignment, 96 and 131040 in the free-byte bounds). This keeps the arithmetic linear for the verifier. `BuddyArith.PageRoundIsAlignUp` and `BuddyArith.ArenaStartIsAlignUp` tie the literals to the named constants.
- The header is 32 bytes: a `size_t`, a padded `bool` and two pointers, on an LP64 target.
- **Shell strings** are `seq<char>`.
- **The alias regex** `^alias [a-zA-Z0-9_]+='[^']*'$` becomes the predicate `ShellAlias.IsAliasDefinition`.
- **Finished jobs** are given as the set of pids that `waitpid(WNOHANG)` would report.

Where the code and its surrounding description differ, the model follows the code:
- `smalloc` initialises the heap before it checks the size. A rejected first request therefore still builds the arena (`BuddyAlloc.SmallocBadSize`).
- The header of an `mmap` block records `size + 32`, not `size`. `srealloc` keeps such a block only when `size + 32` equals that header size (`BuddyHeap.Srealloc`).
- `sfree` in the first-fit allocator only sets the free flag. No block is ever removed or coalesced.

## Model

| member | source | states |
|---|---|---|
| BuddyArith.BlockSizeFacts | VM/malloc_3.cpp:8-11 | order 0 is 128 bytes, order MAX_ORDER is the 128 KB top block, and 32 top blocks fill the 4 MB alignment |
| BuddyArith.BlockSizeMonotone | VM/malloc_3.cpp:8-11 | block sizes grow with the order, at least doubling per step |
| BuddyArith.BlockSizeDividesAlignment | VM/malloc_3.cpp:91 | every block size divides both the 4 MB arena alignment and the top block size |
| BuddyArith.XorSingleBit | VM/malloc_3.cpp:336 | `a ^ 2^k` adds 2^k when that bit of a is clear and subtracts it when set |
| BuddyArith.BuddyPair | VM/malloc_3.cpp:336 | for an aligned block, the XOR buddy is a different aligned block whose own buddy is the first; the lower one of the pair is aligned to twice the size |
| BuddyArith.SplitHalves | VM/malloc_3.cpp:139-145 | splitting a 2^(k+1)-aligned block puts its XOR buddy at half size exactly at its upper half |
| BuddyArith.MergedAligned | VM/malloc_3.cpp:346-349 | the lower address of a merged pair is aligned to the merged size and covers both halves |
| BuddyArith.AlignUp | VM/malloc_3.cpp:91 | `(x + al - 1) & ~(al - 1)` is a multiple of al in [x, x + al) |
| BuddyArith.AlignUpIsLeast | VM/malloc_3.cpp:91 | AlignUp gives the least multiple of al at or above x |
| BuddyArith.PageRound | VM/malloc_3.cpp:285 | the mmap length is a page multiple in [n, n + 4096) |
| BuddyArith.PageRoundIsAlignUp | VM/malloc_3.cpp:285 | the page rounding is AlignUp to 4096 |
| BuddyArith.ArenaStart | VM/malloc_3.cpp:91 | the arena start is a multiple of 4 MB in [brk, brk + 4 MB) |
| BuddyArith.ArenaStartIsAlignUp | VM/malloc_3.cpp:91 | the arena start is AlignUp of the break to the 4 MB alignment |
| BuddyArith.OrderFor | VM/malloc_3.cpp:278-282 | the order is the least one whose block holds n bytes, and at most MAX_ORDER |
| BuddyArith.OrderForBlockSize | VM/malloc_3.cpp:330-334 | a block of exactly BlockSize(k) bytes gets order k back |
| SortedList.Insert | VM/malloc_3.cpp:152-193 | insertBlock adds exactly the address, one entry longer, and keeps an ascending list ascending |
| SortedList.Remove | VM/malloc_3.cpp:195-209 | removeBlock drops exactly the address when present, changes nothing when absent, and keeps the list ascending |
| SortedList.AscendingUnique | VM/malloc_3.cpp:152-193 | two ascending lists with the same elements are equal, so insertBlock's list is the sorted union |
| SortedList.InsertIsSortedUnion | VM/malloc_3.cpp:152-193 | insertBlock yields the unique ascending list holding the old entries and the new address |
| SortedList.RemoveInsert | VM/malloc_3.cpp:152-209 | removing an address just inserted gives the list back |
| SortedList.InsertRemove | VM/malloc_3.cpp:152-209 | re-inserting an address just removed from an ascending list gives the list back |
| SortedList.RemoveHead | VM/malloc_3.cpp:127-130 | removeBlock on the head of a list pops that head |
| BuddyHeap.FreshWf | VM/malloc_3.cpp:14-27 | the empty, uninitialised heap satisfies the list invariant |
| BuddyHeap.ArenaList | VM/malloc_3.cpp:97-112 | the top list holds 32 addresses 128 KB apart, from the arena start |
| BuddyHeap.Arena | VM/malloc_3.cpp:97-119 | the arena state satisfies the list invariant |
| BuddyHeap.Initialize | VM/malloc_3.cpp:83-121 | on success: 32 free top blocks at the least 4 MB boundary at or above the break, other lists empty, 32 blocks and 32 * (128K - 32) bytes counted; a failed sbrk leaves the heap unchanged |
| BuddyHeap.FirstNonEmpty | VM/malloc_3.cpp:125-129 | finds the lowest order at or above i with a non-empty list, or proves all of them empty |
| BuddyHeap.SplitOnce | VM/malloc_3.cpp:131-145 | one split adds a block and moves one header's worth of bytes out of the payload count |
| BuddyHeap.SplitDown | VM/malloc_3.cpp:131-145 | splitting from order i to the target adds i - order blocks and subtracts that many headers from the payload count |
| BuddyHeap.AllocateBlock | VM/malloc_3.cpp:123-150 | NULL exactly when every list at or above the order is empty, and then nothing changes; otherwise it returns the head of the first non-empty list plus the header, with counters moved by the number of splits and the byte balance kept |
| BuddyHeap.Unlink | VM/malloc_3.cpp:195-209 | removeBlock changes no header and no counter |
| BuddyHeap.MarkUsed | VM/malloc_3.cpp:146-148 | marking a block in use keeps its size, the lists and the counters |
| BuddyHeap.EnsureInitialized | VM/malloc_3.cpp:267-273 | lazy initialisation leaves a well-formed heap and is a no-op once initialised |
| BuddyHeap.Smalloc | VM/malloc_3.cpp:265-299 | a returned pointer implies an initialised heap and a valid size; an mmap answer only for blocks above 128 KB; the byte balance grows only by an mmap block |
| BuddyHeap.Scalloc | VM/malloc_3.cpp:301-309 | the region is zeroed exactly when smalloc succeeds, over the size_t product of the arguments |
| BuddyHeap.MergeOnce | VM/malloc_3.cpp:337-351 | one merge removes a block, adds one header's bytes to the payload count, and writes no new header address |
| BuddyHeap.MergeUp | VM/malloc_3.cpp:336-351 | the merge loop stops only where no merge is possible, between the start order and MAX_ORDER, with counters moved once per merge |
| BuddyHeap.FreeMapped | VM/malloc_3.cpp:318-326 | freeing an mmap block forgets its header, keeps the lists, takes one block and its payload off the counters, and unmaps its page-rounded length |
| BuddyHeap.FreeBuddy | VM/malloc_3.cpp:327-353 | freeing a buddy block keeps the header addresses and the byte balance |
| BuddyHeap.Sfree | VM/malloc_3.cpp:311-354 | NULL and an already free buddy block change nothing; only an mmap block is unmapped; the byte balance drops exactly by an unmapped block |
| BuddyHeap.InUseUnlisted | VM/malloc_3.cpp:146-148 | a block in use is in no free list |
| BuddyHeap.HeaderWriteUnlisted | VM/malloc_3.cpp:329 | rewriting the header of an unlisted address keeps the lists well formed |
| BuddyHeap.MergeOnceWf | VM/malloc_3.cpp:337-351 | one merge keeps the lists well formed, takes both halves off the lists, and doubles both headers |
| BuddyHeap.GrowInPlace | VM/malloc_3.cpp:390-411 | the growth loop keeps the header addresses and the byte balance, and reports success only when the block now holds the request |
| BuddyHeap.GrowInPlaceWf | VM/malloc_3.cpp:390-411 | the growth loop keeps the lists well formed and ends on an unlisted block at least as large as where it started |
| BuddyHeap.MoveOut | VM/malloc_3.cpp:412-419 | a successful move copies from the old pointer to the new one; a failed smalloc moves and unmaps nothing |
| BuddyRealloc.MoveOutSpec | VM/malloc_3.cpp:412-419 | the new pointer and mapping are smalloc's; when smalloc fails the heap is only initialised; otherwise the heap and the unmapped region are those of sfree(oldp) on the heap smalloc left, and an old mmap header still there is unmapped over its page-rounded size |
| BuddyRealloc.MoveOutBalance | VM/malloc_3.cpp:412-419 | on an initialised heap with fresh mappings, the byte balance gains size + 32 for a new mapping and loses the old header size when sfree unmaps, which only an mmap block is |
| BuddyHeap.ReallocMapped | VM/malloc_3.cpp:367-381 | an mmap block whose header size is size + 32 is returned unchanged |
| BuddyRealloc.ReallocMappedSpec | VM/malloc_3.cpp:373-380 | resizing an mmap block returns smalloc's pointer and mapping; a failed smalloc leaves the heap only initialised, with nothing moved or unmapped; on success, when smalloc left the old header alone, the old mapping is unmapped from its header over its page-rounded size |
| BuddyRealloc.ReallocMappedUnmaps | VM/malloc_3.cpp:373-380 | on an initialised heap with fresh mappings and no free block covering the old header, a successful resize always unmaps the whole old mapping |
| BuddyRealloc.ReallocMappedBalance | VM/malloc_3.cpp:367-381 | the byte balance gains a new mapping's size + 32 and loses the old header size when the old block is unmapped |
| BuddyRealloc.SreallocMappedMove | VM/malloc_3.cpp:373-380 | srealloc of an mmap block to another valid size returns smalloc's pointer and mapping, and on success copies header size - 32 bytes from the old pointer to the new one |
| BuddyRealloc.SmallocKeepsLarge | VM/malloc_3.cpp:265-299 | with fresh mappings, smalloc rewrites no existing header above 128 KB |
| BuddyRealloc.SmallocKeepsOutside | VM/malloc_3.cpp:278-298 | on an initialised heap with fresh mappings, smalloc keeps every header that no free block covers |
| BuddyHeap.ReallocGrow | VM/malloc_3.cpp:382-420 | when the growth loop reaches the request, the grown block is returned with no copy |
| BuddyHeap.GrowFallback | VM/malloc_3.cpp:412-419 | the fallback's copy, when it succeeds, starts at the old pointer |
| BuddyRealloc.GrowForFacts | VM/malloc_3.cpp:382-411 | the growth loop keeps the header addresses, the initialised flag and the byte balance, and never shrinks the block |
| BuddyRealloc.GrowInPlaceKeepsLarge | VM/malloc_3.cpp:390-411 | the growth loop rewrites no header above 128 KB |
| BuddyRealloc.GrowFallbackBalance | VM/malloc_3.cpp:412-419 | the fallback unmaps nothing, and the byte balance gains only a new mapping's size + 32 |
| BuddyRealloc.ReallocGrowBalance | VM/malloc_3.cpp:382-420 | the growth path unmaps nothing, and the byte balance gains only a new mapping's size + 32 |
| BuddyHeap.Srealloc | VM/malloc_3.cpp:356-425 | a bad size gives NULL and no change; an mmap block of the same size and a buddy block already large enough are returned as they are |
| BuddyRealloc.SreallocBalance | VM/malloc_3.cpp:356-425 | on an initialised heap with fresh mappings, srealloc moves the byte balance only by a new mapping's size + 32 and by the header size of an unmapped mmap block |
| BuddySplit.SplitOnceSpec | VM/malloc_3.cpp:131-145 | one split writes a free header for the upper half at half size, halves the block and lists the upper half at order i - 1 |
| BuddySplit.SplitDownBlock | VM/malloc_3.cpp:131-145 | after the split loop the block has the size of the target order |
| BuddySplit.SplitDownListAt | VM/malloc_3.cpp:131-145 | the split loop adds exactly the upper half at each order it passes and leaves other lists alone |
| BuddySplit.SplitDownUpperAt | VM/malloc_3.cpp:131-145 | each upper half listed by the split loop carries a free header of its order |
| BuddySplit.SplitDownFrame | VM/malloc_3.cpp:131-145 | the split loop changes no header outside the block it splits |
| BuddySplit.HeadRemoved | VM/malloc_3.cpp:127-130 | the head of a list is its least entry and unlinking it leaves the tail |
| BuddySplit.AllocateBlockShape | VM/malloc_3.cpp:123-150 | the returned block is in use, exactly of the requested order, and aligned to it |
| BuddySplit.AllocateBlockSplitLists | VM/malloc_3.cpp:131-145 | each order the split passes now lists only the block's XOR buddy, which is its upper half, free and of that order |
| BuddySplit.AllocateBlockOtherLists | VM/malloc_3.cpp:123-150 | the source list loses its head and lists outside the split range do not change |
| BuddySplit.AllocateBlockFrame | VM/malloc_3.cpp:123-150 | no header outside the taken block changes |
| BuddySplit.AllocateBlockUnlisted | VM/malloc_3.cpp:123-150 | the returned block is in no free list |
| BuddySplit.AllocateBlockWf | VM/malloc_3.cpp:123-150 | allocateBlock keeps the lists well formed and pairwise disjoint |
| BuddyMerge.MergeStep | VM/malloc_3.cpp:337-351 | one merge continues from the lower address of the pair, which carries a free header of the next order, is aligned to it and covers the block |
| BuddyMerge.MergeUpSpec | VM/malloc_3.cpp:336-351 | the merge loop ends on an unlisted free block of its final order, aligned, covering the freed block, with the lists well formed |
| BuddyMerge.SfreeBuddySpec | VM/malloc_3.cpp:327-353 | after sfree the merged block is listed at its order, free, aligned and covering the freed block; every other listed block was listed before; counters move by the number of merges |
| BuddyStats.ListBytesUniform | VM/malloc_3.cpp:228-241 | a list of order-k blocks holds its length times (BlockSize(k) - 32) payload bytes |
| BuddyStats.FreeBytesByOrder | VM/malloc_3.cpp:228-241 | on well-formed lists, _num_free_bytes equals the per-order count times the payload per block |
| BuddyStats.InitializeStats | VM/malloc_3.cpp:213-261 | after initialisation all five statistics report the 32 free top blocks, and none is in use |
| BuddyStats.FreeBlocksDelta | VM/malloc_3.cpp:213-226 | the free-block walk moves by one per split level, less the block taken |
| BuddyStats.AllocateBlockCounts | VM/malloc_3.cpp:123-150 | allocateBlock adds i - order free blocks, less the one taken, and exactly one block in use |
| BuddyStats.MappedAllocCounts | VM/malloc_3.cpp:283-297 | an mmap allocation adds one block in use and its payload bytes, and no free block |
| BuddyStats.MappedFreeCounts | VM/malloc_3.cpp:318-326 | freeing an mmap block removes one block in use and its payload bytes |
| BuddyStats.NumFreeBlocksZero | VM/malloc_3.cpp:213-226 | _num_free_blocks is 0 exactly when every free list is empty |
| BuddyStats.NumFreeBytesBounds | VM/malloc_3.cpp:228-241 | on well-formed lists, _num_free_bytes lies between 96 and 131040 bytes per free block, so it is 0 exactly when no block is free |
| BuddyStats.CounterStats | VM/malloc_3.cpp:243-261 | by definition: the statistics are plain reads of the counters. _size_meta_data is 32, _num_meta_data_bytes is 32 per counted block, and allocated plus metadata bytes is the byte balance |
| BuddyStats.SmallocFootprint | VM/malloc_3.cpp:243-256 | on an initialised heap, smalloc moves allocated plus metadata bytes only by an mmap block's size + 32 |
| BuddyStats.SfreeFootprint | VM/malloc_3.cpp:243-256 | sfree moves allocated plus metadata bytes only by an unmapped block's header size |
| BuddyAlloc.InitializeLeastStart | VM/malloc_3.cpp:90-98 | the arena starts at the least 4 MB boundary at or above the break |
| BuddyAlloc.SmallocBadSize | VM/malloc_3.cpp:265-277 | size 0 or above 10^8 gives NULL, but only after the lazy initialisation has run |
| BuddyAlloc.SmallocMapped | VM/malloc_3.cpp:283-297 | above 128 KB: NULL when mmap fails; otherwise the payload after a header recording size + 32, in use, a page-rounded mapping, lists unchanged, one more block and size more bytes |
| BuddyAlloc.SmallocBuddy | VM/malloc_3.cpp:278-298 | at or below 128 KB: the least fitting order; NULL exactly when no list at or above it has a block; otherwise an unlisted block in use, of that order, aligned to it |
| BuddyAlloc.SmallocWf | VM/malloc_3.cpp:265-299 | smalloc keeps the free lists well formed and disjoint when mmap hands out fresh memory |
| BuddyAlloc.MappedRoundTrip | VM/malloc_3.cpp:283-326 | smalloc of a large block, then sfree of its pointer, gives the heap back and unmaps exactly the region mapped |
| BuddyAlloc.SreallocNull | VM/malloc_3.cpp:362-366 | srealloc of NULL is smalloc |
| BuddyAlloc.GrowForWf | VM/malloc_3.cpp:382-411 | srealloc's growth loop keeps the lists well formed and ends on an unlisted block |
| BuddyAlloc.SreallocGrown | VM/malloc_3.cpp:382-411 | when growth in place suffices, srealloc returns the grown block, unlisted, large enough, with no copy and no mapping |
| BuddyFindings.ExampleFacts | VM/malloc_3.cpp:8-11 | the example heap is well formed and its block at S+128 is in use |
| BuddyFindings.ExampleGrowStep | VM/malloc_3.cpp:390-406 | on the example, the first merge absorbs S+128 into its lower buddy S, whose header now says in use |
| BuddyFindings.LowerBuddyNoMove | VM/malloc_3.cpp:400-410 | srealloc on the example returns the lower buddy's payload without any copy |
| BuddyFindings.ExampleGrowFails | VM/malloc_3.cpp:390-411 | growing S+128 to 300 bytes merges once and stops: S is in use at 256 bytes and S+128 keeps a stale free header |
| BuddyFindings.FallbackAlloc | VM/malloc_3.cpp:412-416 | the fallback's smalloc on that heap takes the free 512-byte block at S+512 and leaves S unlisted |
| BuddyFindings.GrowFallbackLeaks | VM/malloc_3.cpp:412-419 | as written, the fallback copies 256 - 32 bytes from a 128-byte block and leaves S in use and unlisted: sfree(oldp) reads the stale free header and frees nothing |
| BuddyFindings.ReallocGrowFixed | VM/malloc_3.cpp:382-420 | corrected growth: whenever the pointer changes, the old payload, exactly its original length, is copied to the new one |
| BuddyFindings.SreallocFixed | VM/malloc_3.cpp:356-425 | corrected srealloc: a bad size changes nothing, and every pointer change comes with a copy of the original payload, cut to the new size |
| BuddyFindings.SmallocFailureKeepsHeap | VM/malloc_3.cpp:265-299 | on an initialised heap a failed smalloc changes nothing |
| BuddyFindings.SreallocFixedFailureKeepsHeap | VM/malloc_3.cpp:412-416 | a failed corrected srealloc leaves the heap as it was, merges included |
| BuddyFindings.FreeBesideFree | VM/malloc_3.cpp:327-353 | freeing S+128 beside its free lower buddy merges them into a listed free block |
| BuddyFindings.FixedFallbackFrees | VM/malloc_3.cpp:412-419 | with the correction, the fallback copies 128 - 32 bytes and the bytes S..S+256 end up in a listed free block |
| BuddyFindings.ScallocWraps | VM/malloc_3.cpp:301-309 | as written, scalloc(2^63 + 1, 2) wraps to smalloc(2) and zeroes 2 bytes |
| BuddyFindings.ScallocChecked | VM/malloc_3.cpp:301-309 | corrected scalloc: any zeroed region is the full product, which is at most 10^8 |
| BuddyFindings.ScallocCheckedAgrees | VM/malloc_3.cpp:301-309 | the corrected scalloc agrees with the source whenever the product fits in 64 bits |
| BuddyFindings.ScallocCheckedRefuses | VM/malloc_3.cpp:301-309 | the corrected scalloc refuses the wrapping request |
| BuddyFindings.MappedShrinkOverCopies | VM/malloc_3.cpp:373-380 | as written, shrinking an mmap block copies its whole old payload into a new block that, header included, is smaller than the old one |
| BuddyFindings.NewBlockHolds | VM/malloc_3.cpp:278-297 | the block smalloc returns holds the request, and is either exactly size + 32 bytes or at most 128 KB |
| BuddyFindings.ReallocMappedFixed | VM/malloc_3.cpp:373-380 | corrected resize of an mmap block: the same size keeps the block; otherwise the copy runs from oldp to the new pointer, fits in the old payload and in the new size, and is as long as the smaller of the two |
| BuddyFindings.MappedFixedFits | VM/malloc_3.cpp:373-380 | corrected resize: the copy reads only the old payload, fits in the new block, and carries the old payload or the new size, whichever is smaller |
| FirstFit.FirstFit | VM/malloc_2.cpp:36-49 | the first position from i whose block is free and large enough, or proof that none is |
| FirstFit.FindBlock | VM/malloc_2.cpp:36-49 | find_block marks exactly the first fitting block in use and changes nothing else; no change when none fits |
| FirstFit.InsertBlock | VM/malloc_2.cpp:51-71 | insertBlock appends one block in use after the old list |
| FirstFit.FindElementPtr | VM/malloc_2.cpp:82-94 | the first header whose payload starts at p, or proof that none does |
| FirstFit.FindElementUnique | VM/malloc_2.cpp:82-94 | on a well-formed list, the header found for a block's payload is that block |
| FirstFit.FreeBlock | VM/malloc_2.cpp:73-80 | freeBlock sets the free flag of exactly the header owning p and changes no address or size |
| FirstFit.Smalloc | VM/malloc_2.cpp:170-194 | a bad size or a failure changes nothing; the list grows only by the new block at the break; a returned pointer is the payload of a block in use that holds the request |
| FirstFit.Scalloc | VM/malloc_2.cpp:196-204 | zeroing happens exactly when smalloc of the size_t product succeeds, over that product |
| FirstFit.Sfree | VM/malloc_2.cpp:206-213 | NULL changes nothing; otherwise no address or size changes and no block is removed |
| FirstFit.Srealloc | VM/malloc_2.cpp:215-241 | a bad size gives NULL and no change; a failure changes nothing |
| FirstFit.NumFreeBlocks | VM/malloc_2.cpp:98-111 | the walk returns the number of free headers, at most the list length |
| FirstFit.NumFreeBytes | VM/malloc_2.cpp:113-126 | the walk returns the free bytes, at most the allocated bytes |
| FirstFit.NumAllocatedBlocks | VM/malloc_2.cpp:128-138 | the walk returns the number of headers |
| FirstFit.NumAllocatedBytes | VM/malloc_2.cpp:140-149 | the walk returns the sum of all recorded sizes |
| FirstFit.NumMetaDataBytes | VM/malloc_2.cpp:151-161 | the walk returns 32 bytes per header |
| FirstFit.SmallocWf | VM/malloc_2.cpp:170-194 | smalloc keeps the list ascending and non-overlapping when the break lies above every block |
| FirstFit.SfreeWf | VM/malloc_2.cpp:206-213 | sfree keeps the list well formed |
| FirstFit.SmallocReuses | VM/malloc_2.cpp:176-193 | when a block fits, smalloc marks the first fitting block in use and returns its payload |
| FirstFit.SmallocAppends | VM/malloc_2.cpp:177-189 | when none fits and sbrk succeeds, smalloc appends a block in use at the break |
| FirstFit.SfreeAt | VM/malloc_2.cpp:206-213 | freeing a block's payload sets exactly that block's flag |
| FirstFit.ReuseRoundTrip | VM/malloc_2.cpp:170-213 | smalloc that reuses a block, then sfree of the result, gives the list back |
| FirstFit.AppendRoundTrip | VM/malloc_2.cpp:170-213 | smalloc from sbrk, then sfree of the result, leaves the new block at the tail, free |
| FirstFit.SmallocSfreeRoundTrip | VM/malloc_2.cpp:170-213 | any successful smalloc followed by sfree restores the list, or leaves one new free block at the tail |
| FirstFit.SmallocCounts | VM/malloc_2.cpp:98-194 | reuse takes one block off the free count; growth adds a block and keeps the free count; failure changes nothing |
| FirstFit.FreeAtMostAllocated | VM/malloc_2.cpp:98-149 | free blocks and bytes never exceed allocated blocks and bytes |
| FirstFit.SmallocOwner | VM/malloc_2.cpp:170-194 | the returned pointer belongs to a block in use that holds the request; every other old block is unchanged |
| FirstFit.SreallocGrowUnfold | VM/malloc_2.cpp:226-236 | a too-small block is copied to a new smalloc block and freed, or NULL leaves the list unchanged |
| FirstFit.SreallocMoves | VM/malloc_2.cpp:226-236 | a successful move copies the old payload, frees the old block and returns a block in use that holds the request |
| FirstFit.SreallocKnown | VM/malloc_2.cpp:215-241 | a known block large enough is returned unchanged; a grown one is moved and freed; failure changes nothing |
| FirstFit.SreallocUnknown | VM/malloc_2.cpp:221-225 | srealloc of NULL or of an unknown pointer is smalloc |
| FirstFit.ScallocWraps | VM/malloc_2.cpp:196-204 | as written, scalloc(2^63 + 1, 2) wraps to smalloc(2) and zeroes 2 bytes |
| FirstFit.ScallocChecked | VM/malloc_2.cpp:196-204 | corrected scalloc: any zeroed region is the full product, which is at most 10^8 |
| FirstFit.ScallocCheckedAgrees | VM/malloc_2.cpp:196-204 | the corrected scalloc agrees with the source whenever the product fits in 64 bits |
| FirstFit.ScallocCheckedRefuses | VM/malloc_2.cpp:196-204 | the corrected scalloc refuses the wrapping request and leaves the list alone |
| Sizes.WrappingProduct | VM/malloc_3.cpp:303 | (2^63 + 1) * 2 is a rejected size but reduces to 2 modulo 2^64 |
| Sizes.SizeProductRange | VM/malloc_3.cpp:303 | the size_t product is below 2^64, congruent to the true product modulo 2^64, and equal to it when it fits |
| ShellText.WhitespaceIsWs | smash/Commands.cpp:23 | IsWs is exactly membership in the WHITESPACE set |
| ShellText.FirstNotWs | smash/Commands.cpp:37 | the first visible position, or proof that the line is blank |
| ShellText.LastNotWs | smash/Commands.cpp:42 | the last visible position, or proof that the line is blank |
| ShellText.FindFirst | smash/Commands.cpp:1024 | the first position holding one of the characters, or proof that none does |
| ShellText.FindLast | smash/Commands.cpp:959 | the last position holding one of the characters, or proof that none does |
| ShellText.Ltrim | smash/Commands.cpp:36-39 | a suffix of the line that drops only blanks and starts visible |
| ShellText.Rtrim | smash/Commands.cpp:41-44 | a prefix of the line that drops only blanks and ends visible |
| ShellText.Trim | smash/Commands.cpp:46-48 | the result has nothing to trim, is empty exactly for blank lines, and is no longer than the line |
| ShellText.TrimSpan | smash/Commands.cpp:46-48 | the trimmed line runs from the first to the last visible character |
| ShellText.TrimInfix | smash/Commands.cpp:46-48 | the trimmed line is the infix between a blank prefix and a blank suffix |
| ShellText.TrimIdempotent | smash/Commands.cpp:46-48 | trimming twice is trimming once |
| ShellText.TrimKeepsVisible | smash/Commands.cpp:46-48 | a visible character occurs in the trimmed line exactly when it occurs in the line |
| ShellText.Words | smash/Commands.cpp:50-63 | a line has no words exactly when it is blank |
| ShellText.WordsShape | smash/Commands.cpp:50-63 | every word is non-empty and free of blanks |
| ShellText.WordsAppend | smash/Commands.cpp:50-63 | a line split before a blank has the words of both parts, in order |
| ShellText.IsBackground | smash/Commands.cpp:65-68 | a line is a background command exactly when its trimmed form ends in `&` |
| ShellText.RemoveBackgroundSign | smash/Commands.cpp:70-86 | the line is unchanged, or its last visible `&` becomes a blank; the text before it is kept and the blanks after it are dropped |
| ShellText.RemoveBackgroundChanges | smash/Commands.cpp:65-86 | removal changes the line exactly when it is a background command |
| ShellText.RemoveBackgroundKeepsVisible | smash/Commands.cpp:70-86 | removal keeps every visible character other than `&` |
| ShellText.IsComplex | smash/Commands.cpp:139-149 | a command is complex exactly when it holds `*` or `?` |
| ShellText.IsItBuiltIn | smash/Commands.cpp:917-928 | a name is built in exactly when it is one of the thirteen names |
| ShellText.BuiltInNamesShape | smash/Commands.cpp:917-928 | every built-in name is a non-empty run of lower-case letters |
| ShellText.LastNotWsIndex | smash/Commands.cpp:67 | the size_t index find_last_not_of returns is npos exactly on blank lines |
| ShellText.IsBackgroundAsWritten | smash/Commands.cpp:65-68 | the source's test is defined only when its index lies inside the line |
| ShellText.IsBackgroundAsWrittenAgrees | smash/Commands.cpp:65-68 | on a line with a visible character the source's test is the modelled one |
| ShellText.BackgroundIndexAsWritten | smash/Commands.cpp:65-68 | on a blank line, the empty one included, the source reads the character at npos, past the end |
| ShellText.RemoveGuardNeverFires | smash/Commands.cpp:70-78 | on a blank line the 32-bit index never equals npos, so the guard is skipped and the line is read out of range |
| ShellText.RemoveBackgroundAsWrittenAgrees | smash/Commands.cpp:70-86 | on a line with a visible character the source's removal is the modelled one |
| ShellAlias.FindAlias | smash/Commands.cpp:1219-1253 | the first entry with the name, or proof that none has it |
| ShellAlias.AliasNameAlreadyExists | smash/Commands.cpp:1219-1229 | true exactly when some entry has the name |
| ShellAlias.RemoveAliasByName | smash/Commands.cpp:1231-1241 | an absent name changes nothing; otherwise the first entry with that name is erased and the others keep their order |
| ShellAlias.GetAliasCmdLineByName | smash/Commands.cpp:1243-1253 | the command line of the first entry with the name |
| ShellAlias.AddAliasKeeps | smash/Commands.cpp:1255-1258 | addAlias defines the new name, and a name already defined keeps its first entry and its command |
| ShellAlias.GetAfterAdd | smash/Commands.cpp:1243-1258 | a fresh name is found with its command line right after it is added |
| ShellAlias.RemoveAfterAdd | smash/Commands.cpp:1231-1258 | adding a fresh name and removing it gives the table back |
| ShellAlias.RemoveUnique | smash/Commands.cpp:1231-1241 | with unique names, removal takes out the name and keeps every other name |
| ShellAlias.RemoveKeepsOk | smash/Commands.cpp:1231-1241 | removal keeps names unique, well formed and not built in |
| ShellAlias.DefinitionMatches | smash/Commands.cpp:934 | every well-formed name and quote-free command make a line the pattern accepts |
| ShellAlias.DefinitionRoundTrip | smash/Commands.cpp:946-960 | the source's extraction reads back the name and the command of a definition |
| ShellAlias.DefinitionParses | smash/Commands.cpp:934-960 | every accepted line is the definition of the name and the command extracted from it |
| ShellAlias.AliasCommand | smash/Commands.cpp:930-964 | only the Added outcome changes the table, appending one entry whose name is well formed, fresh and not built in and whose command has no quote |
| ShellAlias.AliasCommandKeepsOk | smash/Commands.cpp:930-964 | the alias command keeps the table well formed |
| ShellAlias.AliasDefineRoundTrip | smash/Commands.cpp:930-964 | defining a fresh, non-built-in name adds it with its command, found again by lookup |
| ShellAlias.AliasCommandOnDefinition | smash/Commands.cpp:930-964 | on an accepted line with nothing to trim, the outcome depends only on the name |
| ShellAlias.UnaliasNames | smash/Commands.cpp:977-990 | success removes every name in turn; a stop names an argument that is not in the table |
| ShellAlias.UnaliasNamesStop | smash/Commands.cpp:977-990 | when unalias stops, the names before the missing one have been removed |
| ShellAlias.RemoveAllUnique | smash/Commands.cpp:977-990 | with unique names, a successful unalias leaves none of the names and keeps every other name |
| ShellAlias.RemoveAllKeepsAbsent | smash/Commands.cpp:977-990 | removals never bring a name back |
| ShellAlias.UnaliasCommand | smash/Commands.cpp:969-991 | too few arguments change nothing; success removes every argument name; a failure names an argument not in the table |
| ShellAlias.RemoveAllKeepsOk | smash/Commands.cpp:969-991 | unalias keeps the table well formed |
| ShellAlias.BuiltInLine | smash/Commands.cpp:121-128 | a built-in command's line changes exactly when it is a background command |
| ShellDispatch.FirstWord | smash/Commands.cpp:1024 | the prefix before the first space or newline |
| ShellDispatch.JoinBlank | smash/Commands.cpp:1039-1042 | the joined text is empty exactly when there are no words, and otherwise starts with a blank |
| ShellDispatch.FindName | smash/Commands.cpp:1062-1113 | the first table entry the word names, bare or with `&` |
| ShellDispatch.BuiltInKind | smash/Commands.cpp:1062-1113 | the built-in chain selects only built-in classes |
| ShellDispatch.TableNamesAreBuiltIns | smash/Commands.cpp:917-928 | the chain's names are exactly the names isItBuiltIn accepts |
| ShellDispatch.BuiltInKindEntry | smash/Commands.cpp:1062-1113 | each built-in name, bare or with `&`, selects its own class |
| ShellDispatch.BuiltInKindAgrees | smash/Commands.cpp:917-928 | the chain accepts a word exactly when isItBuiltIn accepts it without its `&` |
| ShellDispatch.JoinBlankWords | smash/Commands.cpp:1039-1042 | joining words with blanks and splitting again gives the words back |
| ShellDispatch.Expand | smash/Commands.cpp:1027-1047 | a line is expanded exactly when its first word is an alias, and otherwise kept |
| ShellDispatch.ExpandWords | smash/Commands.cpp:1027-1047 | the expanded line has the words of the alias command, then the line's other words |
| ShellDispatch.ExpandAsWritten | smash/Commands.cpp:1027-1047 | the expansion as written: the same alias test, but the command text is whatever the released buffer of the returned string holds |
| ShellDispatch.ExpandAsWrittenAgrees | smash/Commands.cpp:1032-1034 | the as-written expansion gives the intended line exactly when the first word is no alias or the released buffer still holds the alias's command |
| ShellDispatch.ExpandReadsReleased | smash/Commands.cpp:1032-1034 | with `alias ll='ls -l'`, the line `ll` should run `ls -l`, but runs an empty line once the released buffer is cleared |
| ShellDispatch.TestedText | smash/Commands.cpp:1049-1053 | the tested text is a prefix of the trimmed line |
| ShellDispatch.TestedOperators | smash/Commands.cpp:1049-1058 | the tested text holds `>` and `|` exactly when the line does |
| ShellDispatch.KindOf | smash/Commands.cpp:1054-1117 | redirection exactly for `>` outside definitions and watch; then pipe for `|`; otherwise the built-in chain, else external |
| ShellDispatch.Classify | smash/Commands.cpp:1021-1119 | alias expansion exactly when the first word is an alias; the class is decided on the tested text of the line passed on |
| ShellDispatch.ClassifyRedirectionOrPipe | smash/Commands.cpp:1054-1061 | away from watch and alias definitions, `>` gives a redirection and then `|` a pipe |
| ShellDispatch.ClassifyWatch | smash/Commands.cpp:1054-1061 | a first word `watch` gives a watch command even with `>` or `|` |
| ShellDispatch.ClassifyAliasDefinition | smash/Commands.cpp:1054-1096 | a definition line is an alias command whatever its body holds |
| ShellDispatch.ClassifyBuiltIn | smash/Commands.cpp:1062-1113 | a built-in first word, without alias, `>` or `|`, runs that built-in on the line as given |
| ShellDispatch.ClassifyNoAlias | smash/Commands.cpp:1021-1119 | without an alias the line is passed on as it is |
| ShellJobs.NewJobsList | smash/Commands.cpp:1338 | a new list is empty and well formed |
| ShellJobs.MaxIdOf | smash/Commands.cpp:1359-1370 | the largest id of the jobs, or NO_JOBS_ID for none |
| ShellJobs.UpdateMaxId | smash/Commands.cpp:1359-1370 | updateMaxId sets the stored id to the largest id and keeps the jobs |
| ShellJobs.MaxIdOfAscending | smash/Commands.cpp:1359-1370 | on ascending ids the largest id is the last job's |
| ShellJobs.Unfinished | smash/Commands.cpp:1347-1357 | the filter keeps no finished job, keeps a list with no finished job, and empties a list of finished jobs |
| ShellJobs.UnfinishedContents | smash/Commands.cpp:1347-1357 | the filter keeps exactly the jobs that have not finished |
| ShellJobs.RemoveFinishedJobs | smash/Commands.cpp:1347-1357 | no finished job is left, and a list with none is unchanged |
| ShellJobs.RemoveFinishedContents | smash/Commands.cpp:1347-1357 | the remaining jobs are exactly the unfinished ones |
| ShellJobs.RemoveFinishedKeepsOk | smash/Commands.cpp:1347-1357 | removing finished jobs keeps ids positive and ascending, with the stored id that of the last job |
| ShellJobs.RemoveFinishedIdempotent | smash/Commands.cpp:1347-1357 | removing finished jobs twice is removing them once |
| ShellJobs.AddJob | smash/Commands.cpp:1340-1345 | addJob appends the job after the unfinished ones, with the id one above the largest |
| ShellJobs.AddJobKeepsOk | smash/Commands.cpp:1340-1345 | addJob keeps the list well formed and gives the new job an id above all others |
| ShellJobs.AddJobRestartsIds | smash/Commands.cpp:1340-1357 | when every earlier job has finished, the new job gets id 1 |
| ShellJobs.FindJob | smash/Commands.cpp:1372-1384 | the first job with the id, or proof that none has it |
| ShellJobs.EraseJob | smash/Commands.cpp:1372-1384 | erasing a missing id changes nothing; otherwise exactly one job goes |
| ShellJobs.EraseAscending | smash/Commands.cpp:1372-1384 | on ascending ids, erasing keeps them ascending and leaves no job with that id |
| ShellJobs.RemoveJobById | smash/Commands.cpp:1372-1384 | no finished job is left; a missing id only refreshes the list |
| ShellJobs.RemoveJobByIdKeepsOk | smash/Commands.cpp:1372-1384 | after removeJobById the id is gone and the list stays well formed |
| ShellJobs.RemoveJobByIdKeepsOthers | smash/Commands.cpp:1372-1384 | every unfinished job with another id is still there |
| ShellJobs.GetJobById | smash/Commands.cpp:1405-1416 | the list is refreshed first; the job returned has the id and has not finished; NULL means no job has the id |
| ShellJobs.GetLastJob | smash/Commands.cpp:1395-1403 | the list is refreshed first; NULL exactly when it is empty; otherwise a job with the stored id, the largest one |

## Left out

- Memory contents are not modelled. `memmove` and `memset` become `Effects.Move` and `Effects.Region` records in the results. Reading or writing a payload is outside the model.
- `sbrk`, `mmap` and `munmap` are not called. Their answers are inputs (`BuddyHeap.Os`, the first-fit break), and mappings are reported as regions.
- `ceil(log2(...))` and `pow(10, 8)` are floating point in the source. They are replaced by the exact integer `BuddyArith.OrderFor` and the constant 10^8. They agree on every size the allocators accept.
- The buddy heap invariant covers the free lists only: sorted lists, aligned free blocks of the right order, pairwise disjoint. That listed and in-use blocks together tile the arena is not stated.
- A pointer that no header owns is undefined behaviour in the source. In the buddy allocator, `sfree` is specified for NULL and the payload of a known header (`BuddyHeap.KnownPointer`). `srealloc` is specified only for `BuddyHeap.LivePointer`: NULL, or the payload of a block in use, where a buddy block must also have a block size and be aligned to it. `srealloc` of a freed pointer, or of a stale header a merge left behind, is outside the model. The source's `oldp_mmd == NULL` test, which only fires for the address 32, is kept.
- `initializeFreeLists` does not write the `prev` of the first arena block or the `next` of the last one. The model's lists assume both read as NULL, which holds only if the memory `sbrk` hands out is zeroed.
- `removeBlock` on an address that is not in the list relinks neighbours it does not have. `SortedList.Remove` leaves the list unchanged instead.
- The byte counters of the buddy allocator are `size_t` in the source and may wrap. They are unbounded integers here.
- FirstFit.NumFreeBytes: the source sums into an `int`, which overflows past 2^31 - 1 (about 22 blocks of 10^8 bytes) before the result becomes a `size_t`. The model returns the exact sum.
- FirstFit.NumAllocatedBytes: the same `int` accumulator overflows on large heaps. The model returns the exact sum.
- FirstFit.NumMetaDataBytes: the same `int` accumulator overflows on large heaps. The model returns the exact sum.
- `_num_meta_data_bytes` and the other statistics of the buddy allocator are plain reads of the counters. They appear in the model as functions, and `BuddyStats` relates them to the lists.
- `malloc_1.cpp` and `signals.cpp` are not part of this model.
- Shell commands are not executed. `fork`, `exec`, `waitpid`, `chdir`, signals, files and printing are out of scope. `CreateCommand` is modelled as the class it would construct (`ShellDispatch.Dispatch`).
- The alias regex is modelled as a predicate with the same language, not as a regex engine.
- `_parseCommandLine` writes at most `COMMAND_MAX_ARGS` (20) words into a fixed array. A line with more words overflows it. `ShellText.Words` returns every word.
- ShellDispatch.Expand: at Commands.cpp:1032 `cmd_line` keeps the `c_str()` of the string `getAliasCmdLineByName` returns by value. That string is destroyed at the end of the statement, so lines 1033-1034 read released memory, which is undefined behaviour on every alias expansion. `ShellDispatch.Expand` models the intended read of the alias's command; `ShellDispatch.ExpandAsWritten` takes the released contents as a parameter (see "## Findings").
- ShellJobs.AddJob: job ids and `max_id_in_list` are `int` (Commands.h:254, :276). `max_id_in_list + 1` overflows at 2^31 - 1, which is undefined behaviour for a signed `int`. The model's ids are unbounded integers.
- `removeFinishedJobs` erases from the vector while iterating over it, which is undefined behaviour. The intended filter, which keeps exactly the unfinished jobs, is modelled. Which pids have finished is an input set.
- The job operations that only print or send signals (`printJobsList`, `killAllJobs`, `isJobExistsByPid`) are left out.
- `ShellAlias.AliasCommand` does not model the message the source prints for a reserved or duplicate name. The outcome datatype names the case instead.
- BuddyHeap.GrowFallback: states only that the copy starts at the old pointer. The length it copies is stated for the example in `BuddyFindings.GrowFallbackLeaks`, because the as-written length is the merged size, not the original one.
- BuddyHeap.ReallocGrow: states only the successful growth. The fallback is covered by `BuddyHeap.GrowFallback`, `BuddyRealloc.GrowFallbackBalance` and the findings.
- BuddyRealloc.SreallocBalance: stated for an initialised heap on which `mmap` answers with an address no header uses (`BuddyAlloc.FreshMapping`). `BuddyRealloc.ReallocMappedUnmaps` also needs the old mmap header to lie outside every free block (`BuddyRealloc.OutsideListed`). Without these, the model's `mmap` answer could overwrite a header the proof relies on.
- BuddyHeap.MoveOut: its own contract states only the copy record. What the move does to the heap is stated by `BuddyRealloc.MoveOutSpec` and `BuddyRealloc.MoveOutBalance`.
- BuddyHeap.ReallocMapped: its own contract states only the same-size case. The resize is stated by `BuddyRealloc.ReallocMappedSpec`, `BuddyRealloc.ReallocMappedUnmaps`, `BuddyRealloc.ReallocMappedBalance` and `BuddyRealloc.SreallocMappedMove`.
- BuddyHeap.Srealloc: its own contract states the cases that return at once. The growth path is stated by `BuddyAlloc.SreallocGrown` and the findings, the mmap resize by `BuddyRealloc.SreallocMappedMove`, and the byte balance by `BuddyRealloc.SreallocBalance`.
- FirstFit.Srealloc: its own contract states only the error cases. The move and keep cases are stated by `FirstFit.SreallocKnown`, `FirstFit.SreallocMoves` and `FirstFit.SreallocUnknown`.

## Findings

| source | as written | input that shows it | evidently intended | confidence | as-written member | corrected member |
|---|---|---|---|---|---|---|
| VM/malloc_3.cpp:400-410 | when growth in place absorbs the lower buddy, the pointer to the lower block is returned and the payload is never moved into it | a 128-byte block in use at S+128 with its free 128-byte buddy at S; srealloc to 200 bytes | copy the payload to the start of the merged block before returning it | high, not executed | BuddyFindings.LowerBuddyNoMove | BuddyFindings.ReallocGrowFixed |
| VM/malloc_3.cpp:412-419 | after merges that do not suffice, the fallback copies the merged size from oldp and then calls sfree(oldp). That reads the stale free header left at oldp, so the merged block stays in use and in no list, and is leaked | the same heap with S+256 in use and S+512 free; srealloc of S+128 to 300 bytes | undo the merges, copy the original payload length, and free the original block | high, not executed | BuddyFindings.GrowFallbackLeaks | BuddyFindings.SreallocFixed |
| VM/malloc_3.cpp:373-380 | resizing an mmap block copies header size - 32 bytes, the whole old payload, whatever the new size. When the block shrinks, the copy runs past the end of the new block | an mmap block with header size 200032 resized to 100 bytes: 200000 bytes are copied into a 256-byte buddy block | copy at most the new size | high, not executed | BuddyFindings.MappedShrinkOverCopies | BuddyFindings.ReallocMappedFixed |
| VM/malloc_3.cpp:303 | `num * size` wraps modulo 2^64 before the size check | scalloc(2^63 + 1, 2) allocates 2 bytes | refuse a product that overflows or exceeds 10^8 | high, not executed | BuddyFindings.ScallocWraps | BuddyFindings.ScallocChecked |
| VM/malloc_2.cpp:198 | `num * size` wraps modulo 2^64 before the size check | scalloc(2^63 + 1, 2) allocates 2 bytes | refuse a product that overflows or exceeds 10^8 | high, not executed | FirstFit.ScallocWraps | FirstFit.ScallocChecked |
| smash/Commands.cpp:65-68 | on a blank or empty line, `find_last_not_of` returns npos and the line is indexed there | the line "" or "   " | report a blank line as not a background command | high, not executed | ShellText.BackgroundIndexAsWritten | ShellText.IsBackground |
| smash/Commands.cpp:73-78 | the index is stored in a 32-bit `unsigned int`, so it never equals the 64-bit npos. On a blank line the guard does not fire and the line is read out of range | the line "   " | test the index against npos before narrowing it, and leave a blank line alone | high, not executed | ShellText.RemoveGuardNeverFires | ShellText.RemoveBackgroundSign |
| smash/Commands.cpp:1032-1034 | `cmd_line` keeps the `c_str()` of the temporary string `getAliasCmdLineByName` returns, which is destroyed at the end of line 1032. Lines 1033-1034 then measure and copy released memory | `alias ll='ls -l'`, then the line `ll`: the command copied is whatever the released buffer holds, for instance an empty line | keep the returned string in a local and copy the alias's command from it | high (undefined behaviour on every alias expansion), not executed | ShellDispatch.ExpandReadsReleased | ShellDispatch.Expand |

In the first two rows, S is the first 4 MB boundary and the blocks are as in `BuddyFindings.Example`. `BuddyFindings.FixedFallbackFrees` shows that the corrected fallback copies 128 - 32 bytes and returns S..S+256 to a free list. In the mmap row, `BuddyFindings.MappedFixedFits` proves that the corrected copy fits both blocks.
