/**
 * What srealloc of VM/malloc_3.cpp does to the block counters and to the
 * mappings: the balance of payload and header bytes moves only by the block a
 * new mapping adds and by the block an unmap removes, and an mmap block that
 * is replaced is unmapped whole.
 */
module BuddyRealloc {
  import opened Wrappers
  import opened Effects
  import opened Sizes
  import opened BuddyArith
  import opened BuddyHeap
  import opened BuddySplit
  import opened BuddyAlloc

  /** Every header of `r` above 128 KB, at an address `h` knew, is the header `h` had there. */
  predicate LargeKept(h: Heap, r: Heap)
  {
    forall a | a in h.headers && a in r.headers && r.headers[a].size > MAX_BLOCK_SIZE :: r.headers[a] == h.headers[a]
  }

  lemma LargeKeptTrans(h: Heap, m: Heap, r: Heap)
    requires h.headers.Keys <= m.headers.Keys && LargeKept(h, m) && LargeKept(m, r)
    ensures LargeKept(h, r)
  {
  }

  /** The split loop writes only headers of at most 128 KB. */
  lemma {:induction false} SplitDownKeepsLarge(h: Heap, block: nat, i: nat, order: nat)
    requires |h.lists| == MAX_ORDER + 1 && order <= i <= MAX_ORDER && block in h.headers
    requires h.headers[block].size <= MAX_BLOCK_SIZE
    ensures var r := SplitDown(h, block, i, order);
      LargeKept(h, r) && r.headers[block].size <= MAX_BLOCK_SIZE
    decreases i
  {
    if i > order {
      var h1 := SplitOnce(h, block, i);
      assert LargeKept(h, h1) && h1.headers[block].size <= MAX_BLOCK_SIZE;
      SplitDownKeepsLarge(h1, block, i - 1, order);
      LargeKeptTrans(h, h1, SplitDown(h1, block, i - 1, order));
    }
  }

  /** allocateBlock writes only headers of at most 128 KB. */
  lemma AllocateBlockKeepsLarge(h: Heap, order: nat)
    requires ListsWF(h) && order <= MAX_ORDER
    ensures LargeKept(h, AllocateBlock(h, order).0)
  {
    if FirstNonEmpty(h.lists, order).Some? {
      var i, block := Pick(h, order);
      AllocateBlockUnfold(h, order, i, block);
      ListedHeader(h, i, block);
      BlockSizeMonotone(i, MAX_ORDER);
      BlockSizeFacts();
      var u := Unlink(h, i, block);
      SplitDownKeepsLarge(u, block, i, order);
      var s := SplitDown(u, block, i, order);
      LargeKeptTrans(h, s, MarkUsed(s, block));
    }
  }

  /**
   * smalloc writes no header above 128 KB where a header already was, when
   * mmap hands out fresh memory: the arena and the buddy blocks are at most
   * 128 KB, and a mapping lands where no header is.
   */
  lemma SmallocKeepsLarge(h: Heap, size: nat, os: Os)
    requires Wf(h) && FreshMapping(h, os)
    ensures LargeKept(h, Smalloc(h, size, os).heap)
  {
    var init := EnsureInitialized(h, os);
    assert h.headers.Keys <= init.heap.headers.Keys && LargeKept(h, init.heap) by {
      BlockSizeFacts();
    }
    if init.ok && !BadSize(size) && size + HEADER <= MAX_BLOCK_SIZE {
      AllocateBlockKeepsLarge(init.heap, OrderFor(size + HEADER));
      LargeKeptTrans(h, init.heap, Smalloc(h, size, os).heap);
    }
  }

  /** One pass of the growth loop, from a block of its order and aligned to it, writes headers of the next order only. */
  lemma AbsorbKeepsLarge(h: Heap, block: nat, order: nat)
    requires |h.lists| == MAX_ORDER + 1 && order <= MAX_ORDER && block in h.headers
    requires h.headers[block].size == BlockSize(order) && block % BlockSize(order) == 0
    requires CanMerge(h, block, order)
    ensures var (h4, next) := Absorb(h, block, order);
      && |h4.lists| == MAX_ORDER + 1 && next in h4.headers && h.headers.Keys == h4.headers.Keys
      && order + 1 <= MAX_ORDER && h4.headers[next].size == BlockSize(order + 1)
      && next % BlockSize(order + 1) == 0 && LargeKept(h, h4)
  {
    MergeArith(block, order);
    AbsorbShape(h, block, order);
  }

  /** The pair a merge forms is aligned to the next order, and no larger than the largest buddy block. */
  lemma MergeArith(block: nat, order: nat)
    requires order < MAX_ORDER && block % BlockSize(order) == 0
    ensures var buddy := BuddyOf(block, BlockSize(order));
      && buddy != block
      && (if buddy < block then buddy else block) % BlockSize(order + 1) == 0
      && BlockSize(order + 1) == 2 * BlockSize(order) <= MAX_BLOCK_SIZE
  {
    BuddyPair(block, order + 7);
    MergedAligned(block, order + 7);
    assert Pow2(order + 8) == BlockSize(order + 1) == 2 * BlockSize(order);
    BlockSizeMonotone(order + 1, MAX_ORDER);
    BlockSizeFacts();
  }

  /** A merge step continues from the lower of the pair with the doubled size, and writes only the pair's headers. */
  lemma AbsorbShape(h: Heap, block: nat, order: nat)
    requires |h.lists| == MAX_ORDER + 1 && block in h.headers && CanMerge(h, block, order)
    requires BuddyOf(block, h.headers[block].size) != block
    ensures var buddy := BuddyOf(block, h.headers[block].size); var (h4, next) := Absorb(h, block, order);
      && next == (if buddy < block then buddy else block)
      && h4.headers[next].size == 2 * h.headers[block].size
      && (forall a | a in h4.headers && a != block && a != buddy :: h4.headers[a] == h.headers[a])
      && block in h4.headers && h4.headers[block].size <= 2 * h.headers[block].size
      && buddy in h4.headers && h4.headers[buddy].size <= 2 * h.headers[block].size
  {
  }

  /** The growth loop writes only headers of at most 128 KB. */
  lemma {:induction false} GrowInPlaceKeepsLarge(h: Heap, block: nat, order: nat, need: nat)
    requires |h.lists| == MAX_ORDER + 1 && order <= MAX_ORDER && block in h.headers
    requires h.headers[block].size == BlockSize(order) && block % BlockSize(order) == 0
    ensures LargeKept(h, GrowInPlace(h, block, order, need).heap)
    decreases MAX_ORDER - order
  {
    if CanMerge(h, block, order) {
      AbsorbKeepsLarge(h, block, order);
      var (h4, next) := Absorb(h, block, order);
      if h4.headers[next].size < need {
        GrowInPlaceKeepsLarge(h4, next, order + 1, need);
        LargeKeptTrans(h, h4, GrowInPlace(h4, next, order + 1, need).heap);
      }
    }
  }

  /**
   * Replacing a block on an initialised heap: the balance gains the new
   * mapping's size + HEADER when smalloc maps, and loses the old header's
   * size when sfree unmaps, which it does only for a block above 128 KB.
   */
  lemma MoveOutBalance(h: Heap, q: nat, length: nat, size: nat, os: Os)
    requires Wf(h) && h.initialized && KnownPointer(h, Some(q)) && FreshMapping(h, os)
    ensures var r := MoveOut(h, q, length, size, os);
      && (r.unmapped.Some? ==> h.headers[q - HEADER].size > MAX_BLOCK_SIZE)
      && Balance(r.heap) + (if r.unmapped.Some? then h.headers[q - HEADER].size else 0)
         == Balance(h) + (if r.mapped.Some? then size + HEADER else 0)
  {
    var a := Smalloc(h, size, os);
    MoveOutSpec(h, q, length, size, os);
    SmallocKeepsHeader(h, size, os, q - HEADER);
    if a.ptr.Some? {
      FreeAfterAlloc(h, a, q, size);
    }
    MoveOutStep(h, a, MoveOut(h, q, length, size, os), q, size);
  }

  /**
   * Moving a block out is smalloc followed by sfree of the old pointer: the
   * new pointer and mapping are smalloc's; when smalloc fails the heap is
   * only initialised, nothing moves and nothing is unmapped; when it
   * succeeds the heap and the unmapped region are those of sfree(q) on the
   * heap smalloc left.
   */
  lemma MoveOutSpec(h: Heap, q: nat, length: nat, size: nat, os: Os)
    requires Wf(h) && KnownPointer(h, Some(q))
    ensures var r := MoveOut(h, q, length, size, os);
      var a := Smalloc(h, size, os);
      && r.ptr == a.ptr && r.mapped == a.mapped
      && (r.ptr.None? ==> r.heap == EnsureInitialized(h, os).heap)
      && (r.ptr.Some? ==>
            var f := Sfree(a.heap, Some(q));
            r.heap == f.heap && r.unmapped == f.unmapped)
      && (r.ptr.Some? && q - HEADER in a.heap.headers && a.heap.headers[q - HEADER].size > MAX_BLOCK_SIZE ==>
            r.unmapped == Some(Region(q - HEADER, PageRound(a.heap.headers[q - HEADER].size))))
  {
    var a := Smalloc(h, size, os);
    if a.ptr.Some? && q - HEADER in a.heap.headers && a.heap.headers[q - HEADER].size > MAX_BLOCK_SIZE {
      SfreeUnmaps(a.heap, q);
    }
  }

  /**
   * srealloc of an mmap block to another size is a MoveOut of the whole
   * old payload (header size - HEADER bytes): the new pointer is
   * smalloc's; when smalloc fails the heap is only initialised; when it
   * succeeds and smalloc left the old header alone, the old mapping is
   * unmapped from its header for its header size rounded up to pages.
   */
  lemma ReallocMappedSpec(h: Heap, q: nat, size: nat, os: Os)
    requires Wf(h) && q >= HEADER && q - HEADER in h.headers
    requires h.headers[q - HEADER].size > MAX_BLOCK_SIZE
    ensures var r := ReallocMapped(h, q, size, os);
      var a := Smalloc(h, size, os);
      size + HEADER != h.headers[q - HEADER].size ==>
        && r.ptr == a.ptr && r.mapped == a.mapped
        && (r.ptr.None? ==> r.heap == EnsureInitialized(h, os).heap && r.moved.None? && r.unmapped.None?)
        && (r.ptr.Some? && a.heap.headers[q - HEADER] == h.headers[q - HEADER] ==>
              r.unmapped == Some(Region(q - HEADER, PageRound(h.headers[q - HEADER].size))))
  {
    if size + HEADER != h.headers[q - HEADER].size {
      MappedMoveOf(h, q, size, os, ReallocMapped(h, q, size, os), Smalloc(h, size, os));
    }
  }

  /** ReallocMappedSpec, for results known to equal MoveOut's and smalloc's. */
  lemma MappedMoveOf(h: Heap, q: nat, size: nat, os: Os, r: Realloc, a: Alloc)
    requires Wf(h) && q >= HEADER && q - HEADER in h.headers
    requires h.headers[q - HEADER].size > MAX_BLOCK_SIZE && size + HEADER != h.headers[q - HEADER].size
    requires r == MoveOut(h, q, h.headers[q - HEADER].size - HEADER, size, os) && a == Smalloc(h, size, os)
    ensures && r.ptr == a.ptr && r.mapped == a.mapped
            && (r.ptr.None? ==> r.heap == EnsureInitialized(h, os).heap && r.moved.None? && r.unmapped.None?)
            && (r.ptr.Some? && a.heap.headers[q - HEADER] == h.headers[q - HEADER] ==>
                  r.unmapped == Some(Region(q - HEADER, PageRound(h.headers[q - HEADER].size))))
  {
    MoveOutSpec(h, q, h.headers[q - HEADER].size - HEADER, size, os);
  }

  /** sfree of an mmap block unmaps it, from its header for its header size rounded up to pages. */
  lemma SfreeUnmaps(h: Heap, q: nat)
    requires |h.lists| == MAX_ORDER + 1 && q >= HEADER && q - HEADER in h.headers
    requires h.headers[q - HEADER].size > MAX_BLOCK_SIZE
    ensures Sfree(h, Some(q)).unmapped == Some(Region(q - HEADER, PageRound(h.headers[q - HEADER].size)))
  {
  }

  /** MoveOut's balance from the balances of its allocation and of the sfree after it. */
  lemma MoveOutStep(h: Heap, a: Alloc, r: Realloc, q: nat, size: nat)
    requires |a.heap.lists| == MAX_ORDER + 1 && KnownPointer(a.heap, Some(q)) && q - HEADER in h.headers
    requires r.ptr == a.ptr && r.mapped == a.mapped
    requires a.ptr.None? ==> a.mapped.None? && r.unmapped.None? && r.heap == h
    requires a.ptr.Some? ==> r.heap == Sfree(a.heap, Some(q)).heap && r.unmapped == Sfree(a.heap, Some(q)).unmapped
    requires a.ptr.Some? ==>
      var f := Sfree(a.heap, Some(q));
      && (f.unmapped.Some? ==> h.headers[q - HEADER].size > MAX_BLOCK_SIZE)
      && Balance(f.heap) + (if f.unmapped.Some? then h.headers[q - HEADER].size else 0)
         == Balance(h) + (if a.mapped.Some? then size + HEADER else 0)
    ensures r.unmapped.Some? ==> h.headers[q - HEADER].size > MAX_BLOCK_SIZE
    ensures Balance(r.heap) + (if r.unmapped.Some? then h.headers[q - HEADER].size else 0)
            == Balance(h) + (if r.mapped.Some? then size + HEADER else 0)
  {
  }

  /**
   * The sfree that follows an allocation `a` made on `h`: when the old
   * header is unmapped it is the one `h` had, so the balance loses that
   * header's size.
   */
  lemma FreeAfterAlloc(h: Heap, a: Alloc, q: nat, size: nat)
    requires |a.heap.lists| == MAX_ORDER + 1 && KnownPointer(a.heap, Some(q)) && q - HEADER in h.headers
    requires Balance(a.heap) == Balance(h) + (if a.mapped.Some? then size + HEADER else 0)
    requires a.heap.headers[q - HEADER].size > MAX_BLOCK_SIZE ==> a.heap.headers[q - HEADER] == h.headers[q - HEADER]
    ensures var f := Sfree(a.heap, Some(q));
      && (f.unmapped.Some? ==> h.headers[q - HEADER].size > MAX_BLOCK_SIZE)
      && Balance(f.heap) + (if f.unmapped.Some? then h.headers[q - HEADER].size else 0)
         == Balance(h) + (if a.mapped.Some? then size + HEADER else 0)
  {
  }

  /** SmallocKeepsLarge at one address. */
  lemma SmallocKeepsHeader(h: Heap, size: nat, os: Os, a: nat)
    requires Wf(h) && FreshMapping(h, os) && a in h.headers
    ensures var r := Smalloc(h, size, os).heap;
      a in r.headers && (r.headers[a].size > MAX_BLOCK_SIZE ==> r.headers[a] == h.headers[a])
  {
    SmallocKeepsLarge(h, size, os);
  }

  /**
   * The growth fallback unmaps nothing, and the balance gains only what a
   * new mapping adds: the merges move bytes between the counters, and the
   * old block stays at most 128 KB.
   */
  lemma GrowFallbackBalance(h: Heap, q: nat, size: nat, os: Os)
    requires Wf(h) && h.initialized && q >= HEADER && LiveBlock(h, q - HEADER)
    requires h.headers[q - HEADER].size <= MAX_BLOCK_SIZE && FreshMapping(h, os)
    ensures var r := GrowFallback(h, q, size, os);
      r.unmapped.None? && Balance(r.heap) == Balance(h) + (if r.mapped.Some? then size + HEADER else 0)
  {
    var g := GrowFor(h, q - HEADER, size);
    GrowForFacts(h, q - HEADER, size);
    GrowForKeeps(h, q, size);
    GrowForWf(h, q, size);
    assert h.headers[q - HEADER].size >= HEADER by {
      BlockSizeMonotone(0, OrderFor(h.headers[q - HEADER].size));
      BlockSizeFacts();
    }
    assert FreshMapping(g.heap, os);
    MoveOutBalance(g.heap, q, g.heap.headers[g.block].size - HEADER, size, os);
  }

  /**
   * The growth loop only rewrites headers: it adds or drops none, keeps the
   * counters and the initialised flag, and never shrinks the block it grows.
   */
  lemma GrowForFacts(h: Heap, b: nat, size: nat)
    requires |h.lists| == MAX_ORDER + 1 && b in h.headers && h.headers[b].size <= MAX_BLOCK_SIZE
    ensures var g := GrowFor(h, b, size);
      && h.headers.Keys == g.heap.headers.Keys && g.heap.initialized == h.initialized
      && Balance(g.heap) == Balance(h) && g.heap.headers[g.block].size >= h.headers[b].size
  {
    GrowInPlaceGrows(h, b, OrderFor(h.headers[b].size), size + HEADER);
  }

  /** The growth loop never shrinks the block it grows. */
  lemma {:induction false} GrowInPlaceGrows(h: Heap, block: nat, order: nat, need: nat)
    requires |h.lists| == MAX_ORDER + 1 && block in h.headers && order <= MAX_ORDER
    ensures var g := GrowInPlace(h, block, order, need);
      g.heap.headers[g.block].size >= h.headers[block].size
    decreases MAX_ORDER - order
  {
    if CanMerge(h, block, order) {
      AbsorbGrows(h, block, order);
      var (h4, next) := Absorb(h, block, order);
      if h4.headers[next].size < need {
        GrowInPlaceGrows(h4, next, order + 1, need);
      }
    }
  }

  /** One pass of the growth loop continues from a block at least as large as the one it started from. */
  lemma AbsorbGrows(h: Heap, block: nat, order: nat)
    requires |h.lists| == MAX_ORDER + 1 && block in h.headers && CanMerge(h, block, order)
    ensures var (h4, next) := Absorb(h, block, order);
      h4.headers[next].size >= h.headers[block].size
  {
  }

  /** The growth loop leaves the header of the block it started from at most 128 KB. */
  lemma GrowForKeeps(h: Heap, q: nat, size: nat)
    requires |h.lists| == MAX_ORDER + 1 && q >= HEADER && LiveBlock(h, q - HEADER)
    requires h.headers[q - HEADER].size <= MAX_BLOCK_SIZE
    ensures GrowFor(h, q - HEADER, size).heap.headers[q - HEADER].size <= MAX_BLOCK_SIZE
  {
    var b := q - HEADER;
    GrowInPlaceKeepsHeader(h, b, OrderFor(h.headers[b].size), size + HEADER, b);
  }

  /** GrowInPlaceKeepsLarge at one address. */
  lemma GrowInPlaceKeepsHeader(h: Heap, block: nat, order: nat, need: nat, a: nat)
    requires |h.lists| == MAX_ORDER + 1 && order <= MAX_ORDER && block in h.headers
    requires h.headers[block].size == BlockSize(order) && block % BlockSize(order) == 0
    requires a in h.headers
    ensures var r := GrowInPlace(h, block, order, need).heap;
      a in r.headers && (r.headers[a].size > MAX_BLOCK_SIZE ==> r.headers[a] == h.headers[a])
  {
    GrowInPlaceKeepsLarge(h, block, order, need);
  }

  /** The growth path of srealloc unmaps nothing; the balance gains only a new mapping's block. */
  lemma ReallocGrowBalance(h: Heap, q: nat, size: nat, os: Os)
    requires Wf(h) && h.initialized && q >= HEADER && LiveBlock(h, q - HEADER)
    requires h.headers[q - HEADER].size <= MAX_BLOCK_SIZE && FreshMapping(h, os)
    ensures var r := ReallocGrow(h, q, size, os);
      r.unmapped.None? && Balance(r.heap) == Balance(h) + (if r.mapped.Some? then size + HEADER else 0)
  {
    if !GrowFor(h, q - HEADER, size).done {
      GrowFallbackBalance(h, q, size, os);
    }
  }

  /**
   * srealloc on an initialised heap: the balance of payload and header bytes
   * gains size + HEADER when the new block is mapped, and loses the old
   * header's size when the old block is unmapped, which happens only to an
   * mmap block.
   */
  lemma SreallocBalance(h: Heap, oldp: Option<nat>, size: nat, os: Os)
    requires Wf(h) && h.initialized && LivePointer(h, oldp) && FreshMapping(h, os)
    ensures var r := Srealloc(h, oldp, size, os);
      && (r.unmapped.Some? ==>
            oldp.Some? && oldp.value > HEADER && h.headers[oldp.value - HEADER].size > MAX_BLOCK_SIZE)
      && Balance(r.heap) + (if r.unmapped.Some? then h.headers[oldp.value - HEADER].size else 0)
         == Balance(h) + (if r.mapped.Some? then size + HEADER else 0)
  {
    SreallocBalanceNew(h, oldp, size, os);
    SreallocBalanceMapped(h, oldp, size, os);
    SreallocBalanceBuddy(h, oldp, size, os);
  }

  /** A rejected size unmaps nothing; srealloc of NULL changes the balance as smalloc does. */
  lemma SreallocBalanceNew(h: Heap, oldp: Option<nat>, size: nat, os: Os)
    requires Wf(h) && h.initialized && LivePointer(h, oldp)
    ensures var r := Srealloc(h, oldp, size, os);
      BadSize(size) || oldp.None? || oldp.value == HEADER ==>
        r.unmapped.None? && Balance(r.heap) == Balance(h) + (if r.mapped.Some? then size + HEADER else 0)
  {
  }

  /** srealloc of an mmap block: the balance gains a new mapping's block and loses the old one's when it is unmapped. */
  lemma SreallocBalanceMapped(h: Heap, oldp: Option<nat>, size: nat, os: Os)
    requires Wf(h) && h.initialized && LivePointer(h, oldp) && FreshMapping(h, os)
    ensures var r := Srealloc(h, oldp, size, os);
      !BadSize(size) && oldp.Some? && oldp.value > HEADER && h.headers[oldp.value - HEADER].size > MAX_BLOCK_SIZE ==>
        Balance(r.heap) + (if r.unmapped.Some? then h.headers[oldp.value - HEADER].size else 0)
        == Balance(h) + (if r.mapped.Some? then size + HEADER else 0)
  {
    if !BadSize(size) && oldp.Some? && oldp.value > HEADER && h.headers[oldp.value - HEADER].size > MAX_BLOCK_SIZE {
      var q := oldp.value;
      assert oldp == Some(q);
      SreallocBalanceMappedAt(h, q, size, os);
    }
  }

  /** SreallocBalanceMapped for the pointer q. */
  lemma SreallocBalanceMappedAt(h: Heap, q: nat, size: nat, os: Os)
    requires Wf(h) && h.initialized && q > HEADER && LivePointer(h, Some(q)) && FreshMapping(h, os)
    requires !BadSize(size) && h.headers[q - HEADER].size > MAX_BLOCK_SIZE
    ensures var r := Srealloc(h, Some(q), size, os);
      Balance(r.heap) + (if r.unmapped.Some? then h.headers[q - HEADER].size else 0)
      == Balance(h) + (if r.mapped.Some? then size + HEADER else 0)
  {
    assert LiveBlock(h, q - HEADER);
    MappedBalanceOf(h, q, size, os, Srealloc(h, Some(q), size, os));
  }

  /** ReallocMappedBalance, for a result known to equal ReallocMapped's. */
  lemma MappedBalanceOf(h: Heap, q: nat, size: nat, os: Os, r: Realloc)
    requires Wf(h) && h.initialized && q >= HEADER && q - HEADER in h.headers
    requires h.headers[q - HEADER].size > MAX_BLOCK_SIZE && FreshMapping(h, os)
    requires r == ReallocMapped(h, q, size, os)
    ensures Balance(r.heap) + (if r.unmapped.Some? then h.headers[q - HEADER].size else 0)
            == Balance(h) + (if r.mapped.Some? then size + HEADER else 0)
  {
    ReallocMappedBalance(h, q, size, os);
  }

  /** srealloc of a buddy block unmaps nothing; the balance gains only a new mapping's block. */
  lemma SreallocBalanceBuddy(h: Heap, oldp: Option<nat>, size: nat, os: Os)
    requires Wf(h) && h.initialized && LivePointer(h, oldp) && FreshMapping(h, os)
    ensures var r := Srealloc(h, oldp, size, os);
      !BadSize(size) && oldp.Some? && oldp.value > HEADER && h.headers[oldp.value - HEADER].size <= MAX_BLOCK_SIZE ==>
        r.unmapped.None? && Balance(r.heap) == Balance(h) + (if r.mapped.Some? then size + HEADER else 0)
  {
    if !BadSize(size) && oldp.Some? && oldp.value > HEADER && h.headers[oldp.value - HEADER].size <= MAX_BLOCK_SIZE {
      var q := oldp.value;
      assert oldp == Some(q);
      SreallocBalanceBlock(h, q, size, os);
    }
  }

  /** SreallocBalanceBuddy for the pointer q. */
  lemma SreallocBalanceBlock(h: Heap, q: nat, size: nat, os: Os)
    requires Wf(h) && h.initialized && q > HEADER && LivePointer(h, Some(q)) && FreshMapping(h, os)
    requires !BadSize(size) && h.headers[q - HEADER].size <= MAX_BLOCK_SIZE
    ensures var r := Srealloc(h, Some(q), size, os);
      r.unmapped.None? && Balance(r.heap) == Balance(h) + (if r.mapped.Some? then size + HEADER else 0)
  {
    if h.headers[q - HEADER].size < size + HEADER {
      SreallocBalanceGrow(h, q, size, os);
    } else {
      SreallocBalanceKept(h, q, size, os);
    }
  }

  /** A buddy block already large enough is returned unchanged. */
  lemma SreallocBalanceKept(h: Heap, q: nat, size: nat, os: Os)
    requires Wf(h) && q > HEADER && LivePointer(h, Some(q))
    requires !BadSize(size) && size + HEADER <= h.headers[q - HEADER].size <= MAX_BLOCK_SIZE
    ensures Srealloc(h, Some(q), size, os) == Realloc(h, Some(q), None, None, None)
  {
    var p := Some(q);
    assert p.value == q;
    var r := Srealloc(h, p, size, os);
  }

  /** SreallocBalanceBuddy when the block must grow. */
  lemma SreallocBalanceGrow(h: Heap, q: nat, size: nat, os: Os)
    requires Wf(h) && h.initialized && q > HEADER && LivePointer(h, Some(q)) && FreshMapping(h, os)
    requires !BadSize(size) && h.headers[q - HEADER].size < size + HEADER
    requires h.headers[q - HEADER].size <= MAX_BLOCK_SIZE
    ensures var r := Srealloc(h, Some(q), size, os);
      r.unmapped.None? && Balance(r.heap) == Balance(h) + (if r.mapped.Some? then size + HEADER else 0)
  {
    assert LiveBlock(h, q - HEADER);
    GrowBalanceOf(h, q, size, os, Srealloc(h, Some(q), size, os));
  }

  /** ReallocGrowBalance, for a result known to equal ReallocGrow's. */
  lemma GrowBalanceOf(h: Heap, q: nat, size: nat, os: Os, r: Realloc)
    requires Wf(h) && h.initialized && q >= HEADER && LiveBlock(h, q - HEADER)
    requires h.headers[q - HEADER].size <= MAX_BLOCK_SIZE && FreshMapping(h, os)
    requires r == ReallocGrow(h, q, size, os)
    ensures r.unmapped.None? && Balance(r.heap) == Balance(h) + (if r.mapped.Some? then size + HEADER else 0)
  {
    ReallocGrowBalance(h, q, size, os);
  }

  /**
   * srealloc of an mmap block on an initialised heap: the balance gains a
   * new mapping's block and loses the old block's header size when it is
   * unmapped.
   */
  lemma ReallocMappedBalance(h: Heap, q: nat, size: nat, os: Os)
    requires Wf(h) && h.initialized && q >= HEADER && q - HEADER in h.headers
    requires h.headers[q - HEADER].size > MAX_BLOCK_SIZE && FreshMapping(h, os)
    ensures var r := ReallocMapped(h, q, size, os);
      Balance(r.heap) + (if r.unmapped.Some? then h.headers[q - HEADER].size else 0)
      == Balance(h) + (if r.mapped.Some? then size + HEADER else 0)
  {
    if size + HEADER != h.headers[q - HEADER].size {
      MoveOutBalance(h, q, h.headers[q - HEADER].size - HEADER, size, os);
    }
  }

  /** No free list holds a block that covers `a`. */
  predicate OutsideListed(h: Heap, a: nat)
    requires |h.lists| == MAX_ORDER + 1
  {
    forall k, c | 0 <= k <= MAX_ORDER && c in h.lists[k] :: !Within(a, c, BlockSize(k))
  }

  /**
   * srealloc of an mmap block to any other size, on an initialised heap whose
   * free blocks lie apart from the mapping: once smalloc succeeds, the whole
   * old mapping is unmapped, from its header for its header's size rounded
   * up to pages.
   */
  lemma ReallocMappedUnmaps(h: Heap, q: nat, size: nat, os: Os)
    requires Wf(h) && h.initialized && q >= HEADER && q - HEADER in h.headers
    requires h.headers[q - HEADER].size > MAX_BLOCK_SIZE
    requires FreshMapping(h, os) && OutsideListed(h, q - HEADER)
    ensures var r := ReallocMapped(h, q, size, os);
      size + HEADER != h.headers[q - HEADER].size && r.ptr.Some? ==>
        r.unmapped == Some(Region(q - HEADER, PageRound(h.headers[q - HEADER].size)))
  {
    var b := q - HEADER;
    var a := Smalloc(h, size, os);
    SmallocKeepsOutside(h, size, os, b);
    assert b in a.heap.headers && a.heap.headers[b] == h.headers[b];
    UnmapsOf(h, q, size, os, a, ReallocMapped(h, q, size, os));
  }

  /** ReallocMappedUnmaps, for results known to equal smalloc's and ReallocMapped's. */
  lemma UnmapsOf(h: Heap, q: nat, size: nat, os: Os, a: Alloc, r: Realloc)
    requires Wf(h) && q >= HEADER && q - HEADER in h.headers
    requires h.headers[q - HEADER].size > MAX_BLOCK_SIZE
    requires a == Smalloc(h, size, os) && r == ReallocMapped(h, q, size, os)
    requires q - HEADER in a.heap.headers && a.heap.headers[q - HEADER] == h.headers[q - HEADER]
    ensures size + HEADER != h.headers[q - HEADER].size && r.ptr.Some? ==>
      r.unmapped == Some(Region(q - HEADER, PageRound(h.headers[q - HEADER].size)))
  {
    ReallocMappedSpec(h, q, size, os);
  }

  /** On an initialised heap, smalloc changes no header outside the free blocks when mmap hands out fresh memory. */
  lemma SmallocKeepsOutside(h: Heap, size: nat, os: Os, b: nat)
    requires Wf(h) && h.initialized && FreshMapping(h, os) && b in h.headers && OutsideListed(h, b)
    ensures var r := Smalloc(h, size, os).heap;
      b in r.headers && r.headers[b] == h.headers[b]
  {
    if !BadSize(size) && size + HEADER <= MAX_BLOCK_SIZE {
      var k := OrderFor(size + HEADER);
      if FirstNonEmpty(h.lists, k).Some? {
        var i, block := Pick(h, k);
        AllocateBlockFrame(h, k, i, block);
        assert !Within(b, block, BlockSize(i)) by {
          assert block in h.lists[i];
        }
      }
    }
  }

  /**
   * srealloc of an mmap block to another size returns smalloc's pointer and
   * mapping, and on success copies the old block's whole payload there.
   */
  lemma SreallocMappedMove(h: Heap, oldp: Option<nat>, size: nat, os: Os)
    requires Wf(h) && LivePointer(h, oldp)
    ensures !BadSize(size) && oldp.Some? && oldp.value > HEADER
              && h.headers[oldp.value - HEADER].size > MAX_BLOCK_SIZE
              && h.headers[oldp.value - HEADER].size != size + HEADER
            ==> var r := Srealloc(h, oldp, size, os);
                && r.ptr == Smalloc(h, size, os).ptr && r.mapped == Smalloc(h, size, os).mapped
                && (r.ptr.Some? ==>
                      && r.moved.Some? && r.moved.value.src == oldp.value && r.moved.value.dst == r.ptr.value
                      && r.moved.value.length + HEADER == h.headers[oldp.value - HEADER].size)
  {
    if !BadSize(size) && oldp.Some? && oldp.value > HEADER && h.headers[oldp.value - HEADER].size > MAX_BLOCK_SIZE
       && h.headers[oldp.value - HEADER].size != size + HEADER {
      var q := oldp.value;
      assert oldp == Some(q);
      MappedMoveAt(h, q, size, os);
    }
  }

  /** SreallocMappedMove for the pointer q. */
  lemma MappedMoveAt(h: Heap, q: nat, size: nat, os: Os)
    requires Wf(h) && q > HEADER && LivePointer(h, Some(q)) && !BadSize(size)
    requires h.headers[q - HEADER].size > MAX_BLOCK_SIZE && h.headers[q - HEADER].size != size + HEADER
    ensures var r := Srealloc(h, Some(q), size, os);
      && r.ptr == Smalloc(h, size, os).ptr && r.mapped == Smalloc(h, size, os).mapped
      && (r.ptr.Some? ==>
            && r.moved.Some? && r.moved.value.src == q && r.moved.value.dst == r.ptr.value
            && r.moved.value.length + HEADER == h.headers[q - HEADER].size)
  {
    assert LiveBlock(h, q - HEADER);
    MoveOutSpec(h, q, h.headers[q - HEADER].size - HEADER, size, os);
  }
}
