/**
 * smalloc, srealloc and the mmap round trip of VM/malloc_3.cpp, stated over
 * the heap model: routing by size, the block each path hands out, and which
 * calls leave the heap exactly as it was.
 */
module BuddyAlloc {
  import opened Wrappers
  import opened Effects
  import opened Sizes
  import opened BuddyArith
  import opened SortedList
  import opened BuddyHeap
  import opened BuddySplit
  import opened BuddyMerge

  /** The arena starts at the least multiple of 4 MB at or above the program break. */
  lemma InitializeLeastStart(h: Heap, os: Os, m: nat)
    requires os.brk.Some? && os.extendOk && m % ALIGNMENT == 0 && m >= os.brk.value
    ensures Initialize(h, os).heap.lists[MAX_ORDER][0] <= m
  {
    ArenaStartIsAlignUp(os.brk.value);
    AlignUpIsLeast(os.brk.value, ALIGNMENT, m);
  }

  /**
   * A rejected size (0 or above 10^8) yields NULL, but only after the arena
   * has been set up: the lazy initialisation runs first.
   */
  lemma SmallocBadSize(h: Heap, size: nat, os: Os)
    requires Wf(h) && BadSize(size)
    ensures var a := Smalloc(h, size, os);
      && a.ptr.None? && a.mapped.None?
      && a.heap == EnsureInitialized(h, os).heap
      && (!h.initialized && os.brk.Some? && os.extendOk ==> a.heap.initialized && !h.initialized)
  {
  }

  /**
   * Requests whose block would exceed 128 KB go to mmap: the mapping holds a
   * header of size + HEADER in use, the pointer is just past it, the mapping
   * length is that size rounded up to pages, and the counters gain one block
   * and `size` bytes. The free lists are not touched.
   */
  lemma SmallocMapped(h: Heap, size: nat, os: Os)
    requires Wf(h) && !BadSize(size) && size + HEADER > MAX_BLOCK_SIZE && EnsureInitialized(h, os).ok
    ensures var h0 := EnsureInitialized(h, os).heap;
      var a := Smalloc(h, size, os);
      match os.mmap
      case None => a.ptr.None? && a.heap == h0
      case Some(m) =>
        && a.ptr == Some(m + HEADER)
        && a.mapped == Some(Region(m, PageRound(size + HEADER)))
        && a.heap.headers == h0.headers[m := Header(size + HEADER, false)]
        && a.heap.lists == h0.lists
        && a.heap.totalBlocks == h0.totalBlocks + 1
        && a.heap.totalAllocatedBytes == h0.totalAllocatedBytes + size
  {
  }

  /**
   * Requests that fit 128 KB with their header come from the buddy lists at
   * the least order k whose block holds size + HEADER. NULL comes back exactly
   * when lists k..10 are all empty; otherwise the block is in use, of order
   * k, aligned to its size, in no list, and the lists stay well formed.
   */
  lemma SmallocBuddy(h: Heap, size: nat, os: Os)
    requires Wf(h) && !BadSize(size) && size + HEADER <= MAX_BLOCK_SIZE && EnsureInitialized(h, os).ok
    ensures var h0 := EnsureInitialized(h, os).heap;
      var k := OrderFor(size + HEADER);
      var a := Smalloc(h, size, os);
      && size + HEADER <= BlockSize(k) && (forall j | 0 <= j < k :: BlockSize(j) < size + HEADER)
      && (a.ptr.None? <==> forall j | k <= j <= MAX_ORDER :: h0.lists[j] == [])
      && a.mapped.None? && Wf(a.heap)
      && (a.ptr.Some? ==>
            && a.ptr.value >= HEADER
            && var b := a.ptr.value - HEADER;
            && b in a.heap.headers && a.heap.headers[b] == Header(BlockSize(k), false)
            && b % BlockSize(k) == 0 && Unlisted(a.heap, b))
  {
    var h0 := EnsureInitialized(h, os).heap;
    var k := OrderFor(size + HEADER);
    AllocateBlockWf(h0, k);
    if FirstNonEmpty(h0.lists, k).Some? {
      var i, block := Pick(h0, k);
      AllocateBlockResult(h0, k, i, block);
      AllocateBlockShape(h0, k, i, block);
      AllocateBlockUnlisted(h0, k, i, block);
    }
  }

  /** The mmap answer is fresh: no header is known at that address yet. */
  predicate FreshMapping(h: Heap, os: Os)
    requires Wf(h)
  {
    os.mmap.Some? ==> os.mmap.value !in EnsureInitialized(h, os).heap.headers
  }

  /** Writing a header at an address no header occupies keeps the lists well formed. */
  lemma FreshHeaderWf(h: Heap, r: Heap, m: nat, hd: Header)
    requires Wf(h) && m !in h.headers
    requires r.lists == h.lists && r.headers == h.headers[m := hd]
    ensures Wf(r)
  {
    forall k | 0 <= k <= MAX_ORDER
      ensures ListOk(r, k)
    {
      assert ListOk(h, k);
    }
    forall j, a | 0 <= j <= MAX_ORDER && a in r.lists[j]
      ensures ApartFromListed(r, j, a)
    {
      assert ApartFromListed(h, j, a);
    }
  }

  /** smalloc keeps the lists well formed and disjoint when mmap hands out fresh memory. */
  lemma SmallocWf(h: Heap, size: nat, os: Os)
    requires Wf(h) && FreshMapping(h, os)
    ensures Wf(Smalloc(h, size, os).heap)
  {
    var init := EnsureInitialized(h, os);
    if init.ok && !BadSize(size) {
      if size + HEADER <= MAX_BLOCK_SIZE {
        SmallocBuddy(h, size, os);
      } else if os.mmap.Some? {
        SmallocMapped(h, size, os);
        FreshHeaderWf(init.heap, Smalloc(h, size, os).heap, os.mmap.value, Header(size + HEADER, false));
      }
    }
  }

  /**
   * A large block round trip: smalloc through mmap, then sfree of the pointer
   * it returned, restores the heap exactly, and the length unmapped is the
   * length that was mapped.
   */
  lemma MappedRoundTrip(h: Heap, size: nat, os: Os)
    requires Wf(h) && h.initialized && !BadSize(size) && size + HEADER > MAX_BLOCK_SIZE
    requires os.mmap.Some? && os.mmap.value !in h.headers
    ensures var a := Smalloc(h, size, os);
      && a.ptr.Some? && KnownPointer(a.heap, a.ptr)
      && Sfree(a.heap, a.ptr).heap == h
      && Sfree(a.heap, a.ptr).unmapped == a.mapped
  {
    var a := Smalloc(h, size, os);
    var m := os.mmap.value;
    SmallocMapped(h, size, os);
    assert a.heap.headers[m] == Header(size + HEADER, false);
    var f := Sfree(a.heap, a.ptr);
    assert f.heap.headers == h.headers;
  }

  /** srealloc of NULL is smalloc. */
  lemma SreallocNull(h: Heap, size: nat, os: Os)
    requires Wf(h) && !BadSize(size)
    ensures var a := Smalloc(h, size, os);
      Srealloc(h, None, size, os) == Realloc(a.heap, a.ptr, None, a.mapped, None)
  {
  }

  /** The growth loop of srealloc keeps the lists well formed and ends on a block in no list. */
  lemma GrowForWf(h: Heap, q: nat, size: nat)
    requires Wf(h) && q >= HEADER && LiveBlock(h, q - HEADER)
    requires h.headers[q - HEADER].size <= MAX_BLOCK_SIZE
    ensures var g := GrowFor(h, q - HEADER, size);
      Wf(g.heap) && Unlisted(g.heap, g.block) && (g.done ==> g.heap.headers[g.block].size >= size + HEADER)
  {
    var b := q - HEADER;
    InUseUnlisted(h, b);
    GrowInPlaceWf(h, b, OrderFor(h.headers[b].size), size + HEADER);
  }

  /**
   * When in-place growth suffices, srealloc returns the payload of a block
   * that holds size + HEADER, allocates and copies nothing, and the lists
   * stay well formed and disjoint.
   */
  lemma SreallocGrown(h: Heap, q: nat, size: nat, os: Os)
    requires Wf(h) && q >= HEADER && LiveBlock(h, q - HEADER)
    requires h.headers[q - HEADER].size <= MAX_BLOCK_SIZE
    ensures var g := GrowFor(h, q - HEADER, size);
      g.done ==>
        var r := ReallocGrow(h, q, size, os);
        && r.ptr == Some(g.block + HEADER) && r.moved.None? && r.mapped.None?
        && g.heap.headers[g.block].size >= size + HEADER && Wf(r.heap) && Unlisted(r.heap, g.block)
  {
    var g := GrowFor(h, q - HEADER, size);
    if g.done {
      GrowForWf(h, q, size);
      assert ReallocGrow(h, q, size, os) == Realloc(g.heap, Some(g.block + HEADER), None, None, None);
    }
  }


}
