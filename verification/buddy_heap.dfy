/**
 * The buddy allocator of VM/malloc_3.cpp as pure transitions over an explicit
 * heap value (the source keeps it in the FreeList singleton).
 *
 * `headers` maps a header address to the header last written there. Headers
 * are never erased when blocks merge: the source leaves the absorbed header's
 * bytes in place, and srealloc later reads one of them. Pointers handed to
 * callers are header address + HEADER; `None` is NULL. The answers of sbrk and
 * mmap are parameters (`Os`), and the effects on memory contents (memmove,
 * memset) and on mappings (mmap, munmap) are reported as values.
 */
module BuddyHeap {
  import opened Wrappers
  import opened Effects
  import opened Sizes
  import opened BuddyArith
  import opened SortedList

  datatype Header = Header(size: nat, isFree: bool)

  datatype Heap = Heap(
    initialized: bool,
    headers: map<nat, Header>,
    lists: seq<seq<nat>>,
    totalBlocks: int,
    totalAllocatedBytes: int)

  /**
   * What the operating system answers during one call: sbrk(0) (`None` for
   * (void*)-1), whether the following sbrk extension succeeds, and the
   * address mmap returns (`None` for MAP_FAILED).
   */
  datatype Os = Os(brk: Option<nat>, extendOk: bool, mmap: Option<nat>)


  datatype Init = Init(heap: Heap, ok: bool)
  datatype Alloc = Alloc(heap: Heap, ptr: Option<nat>, mapped: Option<Region>)
  datatype Release = Release(heap: Heap, unmapped: Option<Region>)
  datatype Realloc = Realloc(heap: Heap, ptr: Option<nat>, moved: Option<Move>,
                             mapped: Option<Region>, unmapped: Option<Region>)
  datatype Calloc = Calloc(alloc: Alloc, zeroed: Option<Region>)

  /** The FreeList singleton before its first use. */
  const Fresh: Heap := Heap(false, map[], seq(MAX_ORDER + 1, _ => []), 0, 0)

  /** A free block of order k, aligned to its own size. */
  predicate FreeBlockAt(h: Heap, a: nat, k: nat)
  {
    a in h.headers && h.headers[a] == Header(BlockSize(k), true) && a % BlockSize(k) == 0
  }

  predicate ListOk(h: Heap, k: nat)
    requires k < |h.lists|
  {
    Ascending(h.lists[k]) && forall a | a in h.lists[k] :: FreeBlockAt(h, a, k)
  }

  /**
   * Payload bytes plus one header per block. Splits and merges move a header
   * between the two counters and leave this unchanged; only mmap blocks and
   * initialisation change it.
   */
  function Balance(h: Heap): int
  {
    h.totalAllocatedBytes + HEADER * h.totalBlocks
  }

  /** One address-ascending list per order, holding only free blocks of that order. */
  predicate ListsWF(h: Heap)
  {
    |h.lists| == MAX_ORDER + 1 && forall k | 0 <= k <= MAX_ORDER :: ListOk(h, k)
  }

  predicate Apart(a: nat, sa: nat, b: nat, sb: nat)
  {
    a + sa <= b || b + sb <= a
  }

  /** The listed block `a` of order j is apart from every other listed block. */
  predicate ApartFromListed(h: Heap, j: nat, a: nat)
    requires |h.lists| == MAX_ORDER + 1
  {
    forall k, b | 0 <= k <= MAX_ORDER && b in h.lists[k] && (j != k || a != b) ::
      Apart(a, BlockSize(j), b, BlockSize(k))
  }

  /** Distinct listed blocks occupy disjoint address ranges. */
  predicate ListedDisjoint(h: Heap)
    requires |h.lists| == MAX_ORDER + 1
  {
    forall j, a | 0 <= j <= MAX_ORDER && a in h.lists[j] :: ApartFromListed(h, j, a)
  }

  /** What every operation relies on: well-formed, pairwise disjoint free lists. */
  predicate Wf(h: Heap)
  {
    ListsWF(h) && ListedDisjoint(h)
  }

  lemma FreshWf()
    ensures Wf(Fresh)
  {
  }

  /** True when `a` is in the free list of some order. */
  predicate Listed(h: Heap, a: nat)
    requires |h.lists| == MAX_ORDER + 1
  {
    exists k | 0 <= k <= MAX_ORDER :: a in h.lists[k]
  }

  // ---------------------------------------------------------------- arena
  // The arena start's alignment is written as the literal 4194304 (ALIGNMENT)
  // so that the solver sees a linear modulus; ArenaStart states it the same way.

  function ArenaList(start: nat): (r: seq<nat>)
    ensures |r| == INITIAL_BLOCKS
    ensures forall i | 0 <= i < INITIAL_BLOCKS :: r[i] == start + i * MAX_BLOCK_SIZE
  {
    seq(INITIAL_BLOCKS, i => start + i * MAX_BLOCK_SIZE)
  }

  lemma AlignedStep(start: nat, i: nat, k: nat)
    requires start % 4194304 == 0 && k <= MAX_ORDER
    ensures (start + i * MAX_BLOCK_SIZE) % BlockSize(k) == 0
  {
    BlockSizeDividesAlignment(k);
    BlockSizeFacts();
    MultipleOfMultiple(start, ALIGNMENT, BlockSize(k));
    var m := start / BlockSize(k);
    var n := MAX_BLOCK_SIZE / BlockSize(k);
    assert start == BlockSize(k) * m;
    assert MAX_BLOCK_SIZE == BlockSize(k) * n;
    assert start + i * MAX_BLOCK_SIZE == BlockSize(k) * (m + i * n);
    DivModUnique(start + i * MAX_BLOCK_SIZE, BlockSize(k), m + i * n, 0);
  }

  /** The state initializeFreeLists leaves: 32 free top-order blocks from `start`. */
  function Arena(h: Heap, start: nat): (r: Heap)
    requires start % 4194304 == 0
    ensures Wf(r)
  {
    var blocks := ArenaList(start);
    var r := Heap(true, h.headers + map a | a in blocks :: Header(MAX_BLOCK_SIZE, true),
                  seq(MAX_ORDER + 1, k => if k == MAX_ORDER then blocks else []),
                  INITIAL_BLOCKS, INITIAL_BLOCKS * (MAX_BLOCK_SIZE - HEADER));
    ArenaWf(r, start);
    r
  }

  lemma ArenaWf(r: Heap, start: nat)
    requires start % 4194304 == 0 && |r.lists| == MAX_ORDER + 1
    requires r.lists[MAX_ORDER] == ArenaList(start)
    requires forall k | 0 <= k < MAX_ORDER :: r.lists[k] == []
    requires forall a | a in ArenaList(start) :: a in r.headers && r.headers[a] == Header(MAX_BLOCK_SIZE, true)
    ensures Wf(r)
  {
    var blocks := ArenaList(start);
    BlockSizeFacts();
    forall a | a in blocks
      ensures FreeBlockAt(r, a, MAX_ORDER)
    {
      var i :| 0 <= i < INITIAL_BLOCKS && blocks[i] == a;
      AlignedStep(start, i, MAX_ORDER);
    }
    assert ListOk(r, MAX_ORDER);
    forall j, a | 0 <= j <= MAX_ORDER && a in r.lists[j]
      ensures ApartFromListed(r, j, a)
    {
      assert j == MAX_ORDER;
      var i1 :| 0 <= i1 < INITIAL_BLOCKS && blocks[i1] == a;
      forall k, b | 0 <= k <= MAX_ORDER && b in r.lists[k] && (j != k || a != b)
        ensures Apart(a, BlockSize(j), b, BlockSize(k))
      {
        assert k == MAX_ORDER;
        var i2 :| 0 <= i2 < INITIAL_BLOCKS && blocks[i2] == b;
      }
    }
  }

  /**
   * initializeFreeLists: round the program break up to the next 4 MB boundary,
   * extend the break over the padding and one arena, and cut the arena into 32
   * free blocks of the largest order. `ok` is false when either sbrk fails and
   * also when sbrk(0) answered address 0, which the caller reads as NULL.
   */
  function Initialize(h: Heap, os: Os): (r: Init)
    ensures r.ok ==> os.brk.Some? && os.brk.value != 0 && os.extendOk
    ensures (os.brk.None? || !os.extendOk) ==> r.heap == h
    ensures os.brk.Some? && os.extendOk ==>
      Wf(r.heap) && |r.heap.lists[MAX_ORDER]| == INITIAL_BLOCKS &&
      var start := r.heap.lists[MAX_ORDER][0];
      && r.heap.initialized
      && start % 4194304 == 0 && os.brk.value <= start < os.brk.value + ALIGNMENT
      && r.heap.lists[MAX_ORDER] == ArenaList(start)
      && (forall k | 0 <= k < MAX_ORDER :: r.heap.lists[k] == [])
      && r.heap.totalBlocks == INITIAL_BLOCKS
      && r.heap.totalAllocatedBytes == INITIAL_BLOCKS * (MAX_BLOCK_SIZE - HEADER)
      && Balance(r.heap) == INITIAL_BLOCKS * MAX_BLOCK_SIZE
      && Wf(r.heap)
  {
    match os.brk
    case None => Init(h, false)
    case Some(base) =>
      if !os.extendOk then Init(h, false)
      else Init(Arena(h, ArenaStart(base)), base != 0)
  }

  // ---------------------------------------------------------------- allocateBlock

  /** The lowest order at or above `i` whose free list is not empty. */
  function FirstNonEmpty(lists: seq<seq<nat>>, i: nat): (r: Option<nat>)
    requires |lists| == MAX_ORDER + 1 && i <= MAX_ORDER + 1
    ensures r.None? ==> forall j | i <= j <= MAX_ORDER :: lists[j] == []
    ensures r.Some? ==> (i <= r.value <= MAX_ORDER && lists[r.value] != []
      && forall j | i <= j < r.value :: lists[j] == [])
    decreases MAX_ORDER + 1 - i
  {
    if i > MAX_ORDER then None
    else if lists[i] != [] then Some(i)
    else FirstNonEmpty(lists, i + 1)
  }

  /**
   * One pass of the split loop of allocateBlock: the upper half of `block`
   * (its buddy at half its size) becomes a free block in list i-1, and
   * `block` keeps the lower half.
   */
  function SplitOnce(h: Heap, block: nat, i: nat): (r: Heap)
    requires |h.lists| == MAX_ORDER + 1 && 0 < i <= MAX_ORDER && block in h.headers
    ensures |r.lists| == MAX_ORDER + 1 && block in r.headers
    ensures r.totalBlocks == h.totalBlocks + 1
    ensures r.totalAllocatedBytes == h.totalAllocatedBytes - HEADER
    ensures h.headers.Keys <= r.headers.Keys
  {
    var size := h.headers[block].size;
    var buddy := BuddyOf(block, size / 2);
    var h1 := h.(totalBlocks := h.totalBlocks + 1,
                 headers := h.headers[buddy := Header(size / 2, true)]);
    var h2 := h1.(lists := h1.lists[i - 1 := Insert(h1.lists[i - 1], buddy)]);
    var top := h2.headers[block];
    h2.(headers := h2.headers[block := Header(top.size / 2, top.isFree)],
        totalAllocatedBytes := h2.totalAllocatedBytes - HEADER)
  }

  /** The split loop of allocateBlock: halve `block` from order i down to `order`. */
  function SplitDown(h: Heap, block: nat, i: nat, order: nat): (r: Heap)
    requires |h.lists| == MAX_ORDER + 1 && order <= i <= MAX_ORDER && block in h.headers
    ensures |r.lists| == MAX_ORDER + 1 && block in r.headers
    ensures r.totalBlocks == h.totalBlocks + (i - order)
    ensures r.totalAllocatedBytes == h.totalAllocatedBytes - HEADER * (i - order)
    ensures h.headers.Keys <= r.headers.Keys
    ensures r.initialized == h.initialized
    decreases i
  {
    if i == order then h else SplitDown(SplitOnce(h, block, i), block, i - 1, order)
  }

  /**
   * allocateBlock: take the head of the lowest non-empty list at or above
   * `order`, split it down to `order`, mark it in use and return its payload.
   */
  function AllocateBlock(h: Heap, order: nat): (r: (Heap, Option<nat>))
    requires ListsWF(h) && order <= MAX_ORDER
    ensures r.1.None? <==> forall j | order <= j <= MAX_ORDER :: h.lists[j] == []
    ensures r.1.None? ==> r.0 == h
    ensures r.1.Some? ==>
      var i := FirstNonEmpty(h.lists, order).value;
      && r.1.value == h.lists[i][0] + HEADER
      && r.0.totalBlocks == h.totalBlocks + (i - order)
      && r.0.totalAllocatedBytes == h.totalAllocatedBytes - HEADER * (i - order)
    ensures |r.0.lists| == MAX_ORDER + 1 && h.headers.Keys <= r.0.headers.Keys
    ensures r.0.initialized == h.initialized
  {
    match FirstNonEmpty(h.lists, order)
    case None => (h, None)
    case Some(i) =>
      var block := h.lists[i][0];
      assert block in h.lists[i] && ListOk(h, i);
      (MarkUsed(SplitDown(Unlink(h, i, block), block, i, order), block), Some(block + HEADER))
  }

  /** removeBlock: unlink `block` from the list of order k. */
  function Unlink(h: Heap, k: nat, block: nat): (r: Heap)
    requires k < |h.lists|
    ensures r.headers == h.headers && |r.lists| == |h.lists|
    ensures r.initialized == h.initialized && r.totalBlocks == h.totalBlocks
    ensures r.totalAllocatedBytes == h.totalAllocatedBytes
  {
    h.(lists := h.lists[k := Remove(h.lists[k], block)])
  }

  /** Mark the header at `block` in use, keeping its size. */
  function MarkUsed(h: Heap, block: nat): (r: Heap)
    requires block in h.headers
    ensures r.headers.Keys == h.headers.Keys && r.lists == h.lists
    ensures r.headers[block] == Header(h.headers[block].size, false)
    ensures r.initialized == h.initialized && r.totalBlocks == h.totalBlocks
    ensures r.totalAllocatedBytes == h.totalAllocatedBytes
  {
    h.(headers := h.headers[block := Header(h.headers[block].size, false)])
  }

  // ---------------------------------------------------------------- smalloc


  /** The lazy initialisation every smalloc starts with. */
  function EnsureInitialized(h: Heap, os: Os): (r: Init)
    requires Wf(h)
    ensures Wf(r.heap)
    ensures h.initialized ==> r == Init(h, true)
  {
    if h.initialized then Init(h, true) else Initialize(h, os)
  }

  /**
   * smalloc: initialise lazily, reject size 0 or above 10^8, send requests
   * whose block would exceed 128 KB to mmap, and serve the rest from the
   * buddy lists at the least order that fits size + HEADER.
   */
  function Smalloc(h: Heap, size: nat, os: Os): (r: Alloc)
    requires Wf(h)
    ensures |r.heap.lists| == MAX_ORDER + 1 && h.headers.Keys <= r.heap.headers.Keys
    ensures r.ptr.Some? ==> r.heap.initialized && !BadSize(size)
    ensures r.mapped.Some? ==> r.ptr.Some? && size + HEADER > MAX_BLOCK_SIZE
    ensures Balance(r.heap) == Balance(EnsureInitialized(h, os).heap) + (if r.mapped.Some? then size + HEADER else 0)
  {
    var init := EnsureInitialized(h, os);
    if !init.ok then Alloc(init.heap, None, None)
    else if BadSize(size) then Alloc(init.heap, None, None)
    else if size + HEADER > MAX_BLOCK_SIZE then
      match os.mmap
      case None => Alloc(init.heap, None, None)
      case Some(m) =>
        var h1 := init.heap.(headers := init.heap.headers[m := Header(size + HEADER, false)],
                             totalBlocks := init.heap.totalBlocks + 1,
                             totalAllocatedBytes := init.heap.totalAllocatedBytes + size);
        Alloc(h1, Some(m + HEADER), Some(Region(m, PageRound(size + HEADER))))
    else
      assert init.heap.initialized;
      var (h1, p) := AllocateBlock(init.heap, OrderFor(size + HEADER));
      Alloc(h1, p, None)
  }


  /** scalloc: smalloc(num * size), then zero that many bytes of the payload. */
  function Scalloc(h: Heap, num: nat, size: nat, os: Os): (r: Calloc)
    requires Wf(h)
    ensures r.zeroed.Some? <==> r.alloc.ptr.Some?
    ensures r.zeroed.Some? ==> r.zeroed.value == Region(r.alloc.ptr.value, SizeProduct(num, size))
  {
    var a := Smalloc(h, SizeProduct(num, size), os);
    if a.ptr.None? then Calloc(a, None)
    else Calloc(a, Some(Region(a.ptr.value, SizeProduct(num, size))))
  }

  // ---------------------------------------------------------------- sfree

  /** The merge test of sfree and srealloc: a free buddy of the same size, below the top order. */
  predicate CanMerge(h: Heap, block: nat, order: nat)
    requires block in h.headers
  {
    var size := h.headers[block].size;
    var buddy := BuddyOf(block, size);
    buddy != 0 && buddy in h.headers && h.headers[buddy].isFree
    && h.headers[buddy].size == size && order < MAX_ORDER
  }

  /**
   * One merge step: unlink the buddy from its list, double both headers and
   * continue from the lower address of the pair.
   */
  function MergeOnce(h: Heap, block: nat, order: nat): (r: Heap)
    requires |h.lists| == MAX_ORDER + 1 && block in h.headers && CanMerge(h, block, order)
    ensures |r.lists| == MAX_ORDER + 1 && h.headers.Keys == r.headers.Keys
    ensures r.initialized == h.initialized
    ensures r.totalBlocks == h.totalBlocks - 1
    ensures r.totalAllocatedBytes == h.totalAllocatedBytes + HEADER
  {
    var buddy := BuddyOf(block, h.headers[block].size);
    var h1 := h.(totalBlocks := h.totalBlocks - 1,
                 totalAllocatedBytes := h.totalAllocatedBytes + HEADER,
                 lists := h.lists[order := Remove(h.lists[order], buddy)]);
    var h2 := h1.(headers := h1.headers[buddy := Header(h1.headers[buddy].size * 2, true)]);
    var b := h2.headers[block];
    h2.(headers := h2.headers[block := Header(b.size * 2, b.isFree)])
  }

  datatype Merged = Merged(heap: Heap, block: nat, order: nat, merges: nat)

  /** The merge loop of sfree. */
  function MergeUp(h: Heap, block: nat, order: nat): (r: Merged)
    requires |h.lists| == MAX_ORDER + 1 && block in h.headers && order <= MAX_ORDER
    ensures |r.heap.lists| == MAX_ORDER + 1 && r.block in r.heap.headers
    ensures order <= r.order <= MAX_ORDER && r.merges == r.order - order
    ensures h.headers.Keys == r.heap.headers.Keys && r.heap.initialized == h.initialized
    ensures r.heap.totalBlocks == h.totalBlocks - r.merges
    ensures r.heap.totalAllocatedBytes == h.totalAllocatedBytes + HEADER * r.merges
    ensures !CanMerge(r.heap, r.block, r.order)
    decreases MAX_ORDER - order
  {
    if CanMerge(h, block, order) then
      var buddy := BuddyOf(block, h.headers[block].size);
      var next := if buddy < block then buddy else block;
      var m := MergeUp(MergeOnce(h, block, order), next, order + 1);
      Merged(m.heap, m.block, m.order, m.merges + 1)
    else Merged(h, block, order, 0)
  }

  /** A pointer sfree and srealloc may be given: NULL, or the payload of a known header. */
  predicate KnownPointer(h: Heap, p: Option<nat>)
  {
    p.Some? ==> p.value >= HEADER && p.value - HEADER in h.headers
  }

  /** sfree of an mmap block: unmap it and drop its header and its payload from the counters. */
  function FreeMapped(h: Heap, b: nat): (r: Release)
    requires b in h.headers && h.headers[b].size > MAX_BLOCK_SIZE
    ensures b !in r.heap.headers && r.heap.headers.Keys == h.headers.Keys - {b}
    ensures r.heap.lists == h.lists
    ensures r.heap.totalBlocks == h.totalBlocks - 1
    ensures r.heap.totalAllocatedBytes == h.totalAllocatedBytes - (h.headers[b].size - HEADER)
    ensures r.unmapped == Some(Region(b, PageRound(h.headers[b].size)))
  {
    var size := h.headers[b].size;
    Release(h.(totalAllocatedBytes := h.totalAllocatedBytes - (size - HEADER),
               totalBlocks := h.totalBlocks - 1,
               headers := h.headers - {b}),
            Some(Region(b, PageRound(size))))
  }

  /** sfree of a buddy block in use: mark it free, merge upwards, link the result in. */
  function FreeBuddy(h: Heap, b: nat): (r: Heap)
    requires |h.lists| == MAX_ORDER + 1 && b in h.headers && h.headers[b].size <= MAX_BLOCK_SIZE
    ensures |r.lists| == MAX_ORDER + 1 && r.headers.Keys == h.headers.Keys
    ensures r.initialized == h.initialized && Balance(r) == Balance(h)
  {
    var size := h.headers[b].size;
    var h1 := h.(headers := h.headers[b := Header(size, true)]);
    var m := MergeUp(h1, b, OrderFor(size));
    m.heap.(lists := m.heap.lists[m.order := Insert(m.heap.lists[m.order], m.block)])
  }

  /**
   * sfree: NULL is a no-op. A header larger than 128 KB is an mmap block: it
   * is unmapped and the counters lose one block and its payload. A free buddy
   * block is left alone; any other is marked free, merged upwards and linked
   * into the list of its final order.
   */
  function Sfree(h: Heap, p: Option<nat>): (r: Release)
    requires |h.lists| == MAX_ORDER + 1 && KnownPointer(h, p)
    ensures |r.heap.lists| == MAX_ORDER + 1 && r.heap.initialized == h.initialized
    ensures r.unmapped.Some? ==> p.Some? && h.headers[p.value - HEADER].size > MAX_BLOCK_SIZE
    ensures p.None? ==> r == Release(h, None)
    ensures p.Some? && h.headers[p.value - HEADER].size <= MAX_BLOCK_SIZE && h.headers[p.value - HEADER].isFree
      ==> r == Release(h, None)
    ensures Balance(r.heap) + (if r.unmapped.Some? then h.headers[p.value - HEADER].size else 0) == Balance(h)
  {
    match p
    case None => Release(h, None)
    case Some(q) =>
      var b := q - HEADER;
      if h.headers[b].size > MAX_BLOCK_SIZE then FreeMapped(h, b)
      else if h.headers[b].isFree then Release(h, None)
      else Release(FreeBuddy(h, b), None)
  }

  // ---------------------------------------------------------------- srealloc

  datatype Grow = Grow(heap: Heap, block: nat, done: bool)

  /**
   * The in-place growth loop of srealloc: merge with free buddies while the
   * merge test holds. When the lower buddy absorbs the block, the old header
   * is marked free and the buddy's header is marked in use; the payload is not
   * moved. The loop stops early (`done`) once the block holds `need` bytes.
   */
  function GrowInPlace(h: Heap, block: nat, order: nat, need: nat): (r: Grow)
    requires |h.lists| == MAX_ORDER + 1 && block in h.headers && order <= MAX_ORDER
    ensures |r.heap.lists| == MAX_ORDER + 1 && r.block in r.heap.headers
    ensures h.headers.Keys == r.heap.headers.Keys
    ensures r.done ==> r.heap.headers[r.block].size >= need
    ensures r.heap.initialized == h.initialized && Balance(r.heap) == Balance(h)
    decreases MAX_ORDER - order
  {
    if CanMerge(h, block, order) then
      var (h4, next) := Absorb(h, block, order);
      if h4.headers[next].size >= need then Grow(h4, next, true)
      else GrowInPlace(h4, next, order + 1, need)
    else Grow(h, block, false)
  }

  /**
   * One pass of the growth loop: merge with the buddy and continue from the
   * lower address of the pair; when that is the buddy, the old header is
   * marked free and the buddy's header in use.
   */
  function Absorb(h: Heap, block: nat, order: nat): (r: (Heap, nat))
    requires |h.lists| == MAX_ORDER + 1 && block in h.headers && CanMerge(h, block, order)
    ensures |r.0.lists| == MAX_ORDER + 1 && r.1 in r.0.headers && h.headers.Keys == r.0.headers.Keys
    ensures r.0.initialized == h.initialized && Balance(r.0) == Balance(h)
  {
    var buddy := BuddyOf(block, h.headers[block].size);
    var h3 := MergeOnce(h, block, order);
    if buddy < block then
      var h3a := h3.(headers := h3.headers[block := Header(h3.headers[block].size, true)]);
      (h3a.(headers := h3a.headers[buddy := Header(h3a.headers[buddy].size, false)]), buddy)
    else (h3, block)
  }

  /** `a` is in no free list. */
  predicate Unlisted(h: Heap, a: nat)
    requires |h.lists| == MAX_ORDER + 1
  {
    forall k | 0 <= k <= MAX_ORDER :: a !in h.lists[k]
  }

  /** Every list of `r` is contained in the same list of `h`. */
  predicate SubLists(r: Heap, h: Heap)
    requires |r.lists| == MAX_ORDER + 1 && |h.lists| == MAX_ORDER + 1
  {
    forall k, a | 0 <= k <= MAX_ORDER && a in r.lists[k] :: a in h.lists[k]
  }

  /**
   * A block in use as smalloc leaves it: an mmap block (header above 128 KB),
   * or a buddy block whose header holds exactly a block size and whose
   * address is aligned to it.
   */
  predicate LiveBlock(h: Heap, b: nat)
  {
    && b in h.headers && !h.headers[b].isFree
    && (h.headers[b].size <= MAX_BLOCK_SIZE ==>
          var k := OrderFor(h.headers[b].size);
          h.headers[b].size == BlockSize(k) && b % BlockSize(k) == 0)
  }

  /** A pointer srealloc may be given: NULL, or the payload of a block in use. */
  predicate LivePointer(h: Heap, p: Option<nat>)
  {
    p.Some? && p.value != HEADER ==> p.value >= HEADER && LiveBlock(h, p.value - HEADER)
  }

  lemma BlockSizeInjective(j: nat, k: nat)
    requires BlockSize(j) == BlockSize(k)
    ensures j == k
  {
    if j < k { BlockSizeMonotone(j, k); } else if k < j { BlockSizeMonotone(k, j); }
  }

  lemma InUseUnlisted(h: Heap, b: nat)
    requires ListsWF(h) && b in h.headers && !h.headers[b].isFree
    ensures Unlisted(h, b)
  {
    forall k | 0 <= k <= MAX_ORDER
      ensures b !in h.lists[k]
    {
      assert ListOk(h, k);
    }
  }

  lemma SubListsDisjoint(r: Heap, h: Heap)
    requires |r.lists| == MAX_ORDER + 1 && |h.lists| == MAX_ORDER + 1
    requires SubLists(r, h) && ListedDisjoint(h)
    ensures ListedDisjoint(r)
  {
    forall j, a | 0 <= j <= MAX_ORDER && a in r.lists[j]
      ensures ApartFromListed(r, j, a)
    {
      assert ApartFromListed(h, j, a);
    }
  }

  /** Rewriting the header of an address no list holds keeps the lists well formed. */
  lemma HeaderWriteUnlisted(h: Heap, a: nat, hd: Header)
    requires Wf(h) && Unlisted(h, a)
    ensures Wf(h.(headers := h.headers[a := hd]))
  {
    var r := h.(headers := h.headers[a := hd]);
    forall k | 0 <= k <= MAX_ORDER
      ensures ListOk(r, k)
    {
      assert ListOk(h, k);
    }
  }

  /**
   * One merge keeps the lists well formed: the buddy was the only listed
   * block with its header, the block was in no list, and afterwards neither is.
   */
  lemma MergeOnceWf(h: Heap, block: nat, order: nat)
    requires ListsWF(h) && order <= MAX_ORDER && block in h.headers
    requires h.headers[block].size == BlockSize(order) && block % BlockSize(order) == 0
    requires Unlisted(h, block) && CanMerge(h, block, order)
    ensures var r := MergeOnce(h, block, order);
      var buddy := BuddyOf(block, BlockSize(order));
      && ListsWF(r) && SubLists(r, h) && Unlisted(r, block) && Unlisted(r, buddy)
      && r.headers[block] == Header(BlockSize(order + 1), h.headers[block].isFree)
      && r.headers[buddy] == Header(BlockSize(order + 1), true)
  {
    var r := MergeOnce(h, block, order);
    var buddy := BuddyOf(block, BlockSize(order));
    BuddyPair(block, order + 7);
    assert buddy != block;
    assert BlockSize(order + 1) == 2 * BlockSize(order);
    forall k | 0 <= k <= MAX_ORDER
      ensures ListOk(r, k) && buddy !in r.lists[k]
    {
      assert ListOk(h, k);
      if k != order && buddy in h.lists[k] {
        BlockSizeInjective(k, order);
      }
      forall a | a in r.lists[k]
        ensures FreeBlockAt(r, a, k)
      {
        assert a in h.lists[k] && a != buddy;
      }
    }
  }

  /**
   * The growth loop keeps the lists well formed when it starts from a block
   * of its order that no list holds; the block it ends on is in no list.
   */
  lemma {:induction false} GrowInPlaceWf(h: Heap, block: nat, order: nat, need: nat)
    requires Wf(h) && order <= MAX_ORDER && block in h.headers
    requires h.headers[block].size == BlockSize(order) && block % BlockSize(order) == 0
    requires Unlisted(h, block)
    ensures var g := GrowInPlace(h, block, order, need);
      Wf(g.heap) && Unlisted(g.heap, g.block) && g.heap.headers[g.block].size >= BlockSize(order)
    decreases MAX_ORDER - order
  {
    if CanMerge(h, block, order) {
      var buddy := BuddyOf(block, BlockSize(order));
      MergeOnceWf(h, block, order);
      var h3 := MergeOnce(h, block, order);
      SubListsDisjoint(h3, h);
      MergedAligned(block, order + 7);
      assert Pow2(order + 8) == BlockSize(order + 1);
      var next := if buddy < block then buddy else block;
      if buddy < block {
        var h3a := h3.(headers := h3.headers[block := Header(h3.headers[block].size, true)]);
        HeaderWriteUnlisted(h3, block, Header(h3.headers[block].size, true));
        HeaderWriteUnlisted(h3a, buddy, Header(h3a.headers[buddy].size, false));
        var h4 := h3a.(headers := h3a.headers[buddy := Header(h3a.headers[buddy].size, false)]);
        if h4.headers[next].size < need {
          GrowInPlaceWf(h4, next, order + 1, need);
        }
      } else {
        if h3.headers[next].size < need {
          GrowInPlaceWf(h3, next, order + 1, need);
        }
      }
    }
  }

  function FromAlloc(a: Alloc): Realloc
  {
    Realloc(a.heap, a.ptr, None, a.mapped, None)
  }

  /** Allocate a new block, copy `length` payload bytes from `q` into it, free `q`. */
  function MoveOut(h: Heap, q: nat, length: nat, size: nat, os: Os): (r: Realloc)
    requires Wf(h) && KnownPointer(h, Some(q))
    ensures r.ptr.Some? ==> r.moved == Some(Move(q, r.ptr.value, length))
    ensures r.ptr.None? ==> r.moved.None? && r.unmapped.None?
  {
    var a := Smalloc(h, size, os);
    if a.ptr.None? then FromAlloc(a)
    else
      var f := Sfree(a.heap, Some(q));
      Realloc(f.heap, a.ptr, Some(Move(q, a.ptr.value, length)), a.mapped, f.unmapped)
  }

  /** srealloc of an mmap block: keep it only when size + HEADER is exactly its header size. */
  function ReallocMapped(h: Heap, q: nat, size: nat, os: Os): (r: Realloc)
    requires Wf(h) && q >= HEADER && q - HEADER in h.headers
    requires h.headers[q - HEADER].size > MAX_BLOCK_SIZE
    ensures size + HEADER == h.headers[q - HEADER].size ==> r == Realloc(h, Some(q), None, None, None)
  {
    var hd := h.headers[q - HEADER];
    if size + HEADER == hd.size then Realloc(h, Some(q), None, None, None)
    else MoveOut(h, q, hd.size - HEADER, size, os)
  }

  /** The growth loop srealloc runs on the block at `b`, from the order of its size. */
  function GrowFor(h: Heap, b: nat, size: nat): (r: Grow)
    requires |h.lists| == MAX_ORDER + 1 && b in h.headers && h.headers[b].size <= MAX_BLOCK_SIZE
    ensures |r.heap.lists| == MAX_ORDER + 1 && r.block in r.heap.headers
  {
    GrowInPlace(h, b, OrderFor(h.headers[b].size), size + HEADER)
  }

  /**
   * srealloc of a buddy block too small for size + HEADER: grow in place; if
   * the merges never suffice, allocate anew, copy the grown block's payload
   * length and free the old pointer.
   */
  function ReallocGrow(h: Heap, q: nat, size: nat, os: Os): (r: Realloc)
    requires Wf(h) && q >= HEADER && LiveBlock(h, q - HEADER)
    requires h.headers[q - HEADER].size <= MAX_BLOCK_SIZE
    ensures var g := GrowFor(h, q - HEADER, size);
      g.done ==> r == Realloc(g.heap, Some(g.block + HEADER), None, None, None)
  {
    var g := GrowFor(h, q - HEADER, size);
    if g.done then Realloc(g.heap, Some(g.block + HEADER), None, None, None)
    else GrowFallback(h, q, size, os)
  }

  /** The fallback of srealloc's growth path, run on the heap the merges left. */
  function GrowFallback(h: Heap, q: nat, size: nat, os: Os): (r: Realloc)
    requires Wf(h) && q >= HEADER && LiveBlock(h, q - HEADER)
    requires h.headers[q - HEADER].size <= MAX_BLOCK_SIZE
    ensures r.ptr.Some? ==> r.moved.Some? && r.moved.value.src == q
  {
    var b := q - HEADER;
    var order := OrderFor(h.headers[b].size);
    var g := GrowFor(h, b, size);
    assert Wf(g.heap) && g.heap.headers[g.block].size >= HEADER by {
      InUseUnlisted(h, b);
      GrowInPlaceWf(h, b, order, size + HEADER);
      BlockSizeMonotone(0, order);
      BlockSizeFacts();
    }
    MoveOut(g.heap, q, g.heap.headers[g.block].size - HEADER, size, os)
  }

  /**
   * srealloc: reject size 0 or above 10^8; NULL behaves as smalloc; an mmap
   * block of exactly the right size is kept, any other is replaced; a buddy
   * block that is large enough is kept; otherwise grow in place by merging,
   * and fall back to allocate, copy and free.
   */
  function Srealloc(h: Heap, oldp: Option<nat>, size: nat, os: Os): (r: Realloc)
    requires Wf(h) && LivePointer(h, oldp)
    ensures BadSize(size) ==> r == Realloc(h, None, None, None, None)
    ensures !BadSize(size) && oldp.Some? && oldp.value > HEADER
              && h.headers[oldp.value - HEADER].size > MAX_BLOCK_SIZE
              && h.headers[oldp.value - HEADER].size == size + HEADER
            ==> r == Realloc(h, oldp, None, None, None)
    ensures !BadSize(size) && oldp.Some? && oldp.value > HEADER
              && size + HEADER <= h.headers[oldp.value - HEADER].size <= MAX_BLOCK_SIZE
            ==> r == Realloc(h, oldp, None, None, None)
  {
    if BadSize(size) then Realloc(h, None, None, None, None)
    else if oldp.None? || oldp.value == HEADER then FromAlloc(Smalloc(h, size, os))
    else
      var q := oldp.value;
      var hd := h.headers[q - HEADER];
      if hd.size > MAX_BLOCK_SIZE then ReallocMapped(h, q, size, os)
      else if hd.size < size + HEADER then ReallocGrow(h, q, size, os)
      else Realloc(h, oldp, None, None, None)
  }

  // ---------------------------------------------------------------- statistics

  function FreeBlocksFrom(h: Heap, k: nat): nat
    requires k <= |h.lists|
    decreases |h.lists| - k
  {
    if k == |h.lists| then 0 else |h.lists[k]| + FreeBlocksFrom(h, k + 1)
  }

  function ListFreeBytes(h: Heap, l: seq<nat>): int
  {
    if l == [] then 0
    else (if l[0] in h.headers then h.headers[l[0]].size - HEADER else 0) + ListFreeBytes(h, l[1..])
  }

  function FreeBytesFrom(h: Heap, k: nat): int
    requires k <= |h.lists|
    decreases |h.lists| - k
  {
    if k == |h.lists| then 0 else ListFreeBytes(h, h.lists[k]) + FreeBytesFrom(h, k + 1)
  }

  /** _num_free_blocks: the number of entries over all free lists. */
  function NumFreeBlocks(h: Heap): nat
  {
    FreeBlocksFrom(h, 0)
  }

  /** _num_free_bytes: payload bytes (size - HEADER) over all free lists. */
  function NumFreeBytes(h: Heap): int
  {
    FreeBytesFrom(h, 0)
  }

  function NumAllocatedBlocks(h: Heap): int { h.totalBlocks }
  function NumAllocatedBytes(h: Heap): int { h.totalAllocatedBytes }
  function NumMetaDataBytes(h: Heap): int { h.totalBlocks * HEADER }
  function SizeMetaData(): nat { HEADER }
}
