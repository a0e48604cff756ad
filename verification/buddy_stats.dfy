/**
 * The statistics functions of the buddy allocator (VM/malloc_3.cpp:213-261):
 * what the list walks count, what they report right after the arena is set
 * up, and how an allocation moves them.
 */
module BuddyStats {
  import opened Wrappers
  import opened Sizes
  import opened BuddyArith
  import opened BuddyHeap
  import opened BuddySplit

  /** Reference count of free payload bytes: each order-k entry holds BlockSize(k) - HEADER. */
  function OrderBytesFrom(lists: seq<seq<nat>>, k: nat): int
    requires k <= |lists|
    decreases |lists| - k
  {
    if k == |lists| then 0 else |lists[k]| * (BlockSize(k) - HEADER) + OrderBytesFrom(lists, k + 1)
  }

  /** Blocks the counters report as in use: all blocks less the listed free ones. */
  function InUse(h: Heap): int
  {
    NumAllocatedBlocks(h) - NumFreeBlocks(h)
  }

  /** A list whose entries all are free blocks of order k holds |l| * (BlockSize(k) - HEADER) payload bytes. */
  lemma {:induction false} ListBytesUniform(h: Heap, l: seq<nat>, k: nat)
    requires forall a | a in l :: FreeBlockAt(h, a, k)
    ensures ListFreeBytes(h, l) == |l| * (BlockSize(k) - HEADER)
  {
    if l != [] {
      assert l[0] in l;
      assert forall a | a in l[1..] :: a in l;
      ListBytesUniform(h, l[1..], k);
    }
  }

  /** On well-formed lists, _num_free_bytes is the per-order formula. */
  lemma {:induction false} FreeBytesByOrder(h: Heap, k: nat)
    requires ListsWF(h) && k <= MAX_ORDER + 1
    ensures FreeBytesFrom(h, k) == OrderBytesFrom(h.lists, k)
    decreases MAX_ORDER + 1 - k
  {
    if k <= MAX_ORDER {
      assert ListOk(h, k);
      ListBytesUniform(h, h.lists[k], k);
      FreeBytesByOrder(h, k + 1);
    }
  }

  /** Lists that are empty from k up to the top one count only the top one. */
  lemma {:induction false} OnlyTopList(h: Heap, k: nat)
    requires |h.lists| == MAX_ORDER + 1 && k <= MAX_ORDER
    requires forall j | k <= j < MAX_ORDER :: h.lists[j] == []
    ensures FreeBlocksFrom(h, k) == |h.lists[MAX_ORDER]|
    ensures OrderBytesFrom(h.lists, k) == |h.lists[MAX_ORDER]| * (MAX_BLOCK_SIZE - HEADER)
    decreases MAX_ORDER - k
  {
    if k < MAX_ORDER {
      OnlyTopList(h, k + 1);
    } else {
      BlockSizeFacts();
    }
  }

  /**
   * Right after the arena is set up the 32 blocks of 128 KB are all free and
   * all counted: free and allocated bytes agree, and the metadata is 32 headers.
   */
  lemma InitializeStats(h: Heap, os: Os)
    requires os.brk.Some? && os.extendOk
    ensures var r := Initialize(h, os).heap;
      && NumFreeBlocks(r) == INITIAL_BLOCKS && NumAllocatedBlocks(r) == INITIAL_BLOCKS
      && NumFreeBytes(r) == INITIAL_BLOCKS * (MAX_BLOCK_SIZE - HEADER) == NumAllocatedBytes(r)
      && NumMetaDataBytes(r) == INITIAL_BLOCKS * SizeMetaData()
      && InUse(r) == 0
  {
    var r := Initialize(h, os).heap;
    OnlyTopList(r, 0);
    FreeBytesByOrder(r, 0);
  }

  /**
   * The list counts move by +1 at orders order..i-1, by -1 at order i, and
   * not elsewhere: the total moves by (i - order) - 1.
   */
  lemma {:induction false} FreeBlocksDelta(h: Heap, r: Heap, k: nat, order: nat, i: nat)
    requires |h.lists| == MAX_ORDER + 1 && |r.lists| == MAX_ORDER + 1
    requires k <= MAX_ORDER + 1 && order <= i <= MAX_ORDER
    requires forall j | k <= j <= MAX_ORDER ::
      |r.lists[j]| == |h.lists[j]| + (if order <= j < i then 1 else 0) - (if j == i then 1 else 0)
    ensures FreeBlocksFrom(r, k) + (if k <= i then 1 else 0)
      == FreeBlocksFrom(h, k) + (if k <= order then i - order else if k <= i then i - k else 0)
    decreases MAX_ORDER + 1 - k
  {
    if k <= MAX_ORDER {
      FreeBlocksDelta(h, r, k + 1, order, i);
    }
  }

  /**
   * allocateBlock from list i for `order`: the free lists gain the i - order
   * split-off halves and lose the block taken, and one more block is in use.
   */
  lemma AllocateBlockCounts(h: Heap, order: nat)
    requires Wf(h) && order <= MAX_ORDER && FirstNonEmpty(h.lists, order).Some?
    ensures var i := FirstNonEmpty(h.lists, order).value;
      var r := AllocateBlock(h, order).0;
      && NumFreeBlocks(r) + 1 == NumFreeBlocks(h) + (i - order)
      && NumAllocatedBlocks(r) == NumAllocatedBlocks(h) + (i - order)
      && InUse(r) == InUse(h) + 1
  {
    var i, block := Pick(h, order);
    var r := AllocateBlock(h, order).0;
    AllocateBlockSplitLists(h, order, i, block);
    AllocateBlockOtherLists(h, order, i, block);
    forall j | 0 <= j <= MAX_ORDER
      ensures |r.lists[j]| == |h.lists[j]| + (if order <= j < i then 1 else 0) - (if j == i then 1 else 0)
    {
      if order <= j < i {
        assert h.lists[j] == [];
      }
    }
    FreeBlocksDelta(h, r, 0, order, i);
  }

  /** The free-block walk sees only the lists. */
  lemma {:induction false} SameListsSameCount(h: Heap, r: Heap, k: nat)
    requires h.lists == r.lists && k <= |h.lists|
    ensures FreeBlocksFrom(r, k) == FreeBlocksFrom(h, k)
    decreases |h.lists| - k
  {
    if k < |h.lists| {
      SameListsSameCount(h, r, k + 1);
    }
  }

  /** An mmap allocation adds one block in use and its payload bytes; the free lists do not change. */
  lemma MappedAllocCounts(h: Heap, size: nat, os: Os)
    requires Wf(h) && h.initialized && !BadSize(size) && size + HEADER > MAX_BLOCK_SIZE && os.mmap.Some?
    ensures var r := Smalloc(h, size, os).heap;
      && NumFreeBlocks(r) == NumFreeBlocks(h) && InUse(r) == InUse(h) + 1
      && NumAllocatedBytes(r) == NumAllocatedBytes(h) + size
  {
    SameListsSameCount(h, Smalloc(h, size, os).heap, 0);
  }

  /** sfree of an mmap block takes one block in use and its payload bytes off the counters. */
  lemma MappedFreeCounts(h: Heap, q: nat)
    requires |h.lists| == MAX_ORDER + 1 && q >= HEADER && q - HEADER in h.headers
    requires h.headers[q - HEADER].size > MAX_BLOCK_SIZE
    ensures var r := Sfree(h, Some(q)).heap;
      && NumFreeBlocks(r) == NumFreeBlocks(h) && InUse(r) == InUse(h) - 1
      && NumAllocatedBytes(r) + (h.headers[q - HEADER].size - HEADER) == NumAllocatedBytes(h)
  {
    assert Sfree(h, Some(q)).heap == FreeMapped(h, q - HEADER).heap;
    FreeMappedCounts(h, q - HEADER);
  }

  /** MappedFreeCounts for the header at b. */
  lemma FreeMappedCounts(h: Heap, b: nat)
    requires |h.lists| == MAX_ORDER + 1 && b in h.headers && h.headers[b].size > MAX_BLOCK_SIZE
    ensures var r := FreeMapped(h, b).heap;
      && NumFreeBlocks(r) == NumFreeBlocks(h) && InUse(r) == InUse(h) - 1
      && NumAllocatedBytes(r) + (h.headers[b].size - HEADER) == NumAllocatedBytes(h)
  {
    SameListsSameCount(h, FreeMapped(h, b).heap, 0);
  }

  // ---------------------------------------------------------------- what the statistics report

  /** The free-block walk from order k counts nothing exactly when those lists are empty. */
  lemma {:induction false} NoFreeBlocksFrom(h: Heap, k: nat)
    requires k <= |h.lists|
    ensures FreeBlocksFrom(h, k) == 0 <==> forall j | k <= j < |h.lists| :: h.lists[j] == []
    decreases |h.lists| - k
  {
    if k < |h.lists| {
      NoFreeBlocksFrom(h, k + 1);
    }
  }

  /** _num_free_blocks reports 0 exactly when every free list is empty. */
  lemma NumFreeBlocksZero(h: Heap)
    ensures NumFreeBlocks(h) == 0 <==> forall j | 0 <= j < |h.lists| :: h.lists[j] == []
  {
    NoFreeBlocksFrom(h, 0);
  }

  /** n blocks of b payload bytes each, for b between the least and the largest payload. */
  lemma {:induction false} PayloadsBetween(n: nat, b: nat)
    requires 96 <= b <= 131040
    ensures 96 * n <= n * b <= 131040 * n
  {
    if n > 0 {
      PayloadsBetween(n - 1, b);
      assert n * b == (n - 1) * b + b;
    }
  }

  /**
   * The per-order byte formula lies between 96 (an order-0 payload) and
   * 131040 (a top-order payload) bytes per listed block.
   */
  lemma {:induction false} OrderBytesBetween(h: Heap, k: nat)
    requires |h.lists| == MAX_ORDER + 1 && k <= MAX_ORDER + 1
    ensures 96 * FreeBlocksFrom(h, k) <= OrderBytesFrom(h.lists, k) <= 131040 * FreeBlocksFrom(h, k)
    decreases MAX_ORDER + 1 - k
  {
    if k <= MAX_ORDER {
      OrderBytesBetween(h, k + 1);
      BlockSizeMonotone(0, k);
      BlockSizeMonotone(k, MAX_ORDER);
      BlockSizeFacts();
      PayloadsBetween(|h.lists[k]|, BlockSize(k) - HEADER);
    }
  }

  /**
   * On well-formed lists _num_free_bytes is between 96 and 131040 bytes per
   * free block, so it is 0 exactly when _num_free_blocks is.
   */
  lemma NumFreeBytesBounds(h: Heap)
    requires ListsWF(h)
    ensures 96 * NumFreeBlocks(h) <= NumFreeBytes(h) <= 131040 * NumFreeBlocks(h)
    ensures NumFreeBytes(h) == 0 <==> NumFreeBlocks(h) == 0
  {
    FreeBytesByOrder(h, 0);
    OrderBytesBetween(h, 0);
  }

  /**
   * The counter statistics: the metadata is one 32-byte header per counted
   * block, and allocated plus metadata bytes is the byte balance.
   */
  lemma CounterStats(h: Heap)
    ensures SizeMetaData() == HEADER == 32
    ensures NumMetaDataBytes(h) == NumAllocatedBlocks(h) * SizeMetaData()
    ensures NumAllocatedBytes(h) + NumMetaDataBytes(h) == Balance(h)
  {
  }

  /** On an initialised heap, smalloc moves allocated plus metadata bytes only by an mmap block's full size. */
  lemma SmallocFootprint(h: Heap, size: nat, os: Os)
    requires Wf(h) && h.initialized
    ensures var r := Smalloc(h, size, os);
      NumAllocatedBytes(r.heap) + NumMetaDataBytes(r.heap)
        == NumAllocatedBytes(h) + NumMetaDataBytes(h) + (if r.mapped.Some? then size + SizeMetaData() else 0)
  {
    CounterStats(h);
    CounterStats(Smalloc(h, size, os).heap);
  }

  /** sfree moves allocated plus metadata bytes only by an unmapped block's full size. */
  lemma SfreeFootprint(h: Heap, p: Option<nat>)
    requires |h.lists| == MAX_ORDER + 1 && KnownPointer(h, p)
    ensures var r := Sfree(h, p);
      NumAllocatedBytes(r.heap) + NumMetaDataBytes(r.heap)
        + (if r.unmapped.Some? then h.headers[p.value - HEADER].size else 0)
        == NumAllocatedBytes(h) + NumMetaDataBytes(h)
  {
    CounterStats(h);
    CounterStats(Sfree(h, p).heap);
  }
}
