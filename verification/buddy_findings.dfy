/**
 * Two defects of srealloc's growth path (VM/malloc_3.cpp:382-420), shown on a
 * small heap, the over-long copy of its mmap resize (VM/malloc_3.cpp:373-380),
 * and the size_t wrap of scalloc; each with a corrected definition that has
 * the properties the code evidently intends.
 */
module BuddyFindings {
  import opened Wrappers
  import opened Effects
  import opened Sizes
  import opened BuddyArith
  import opened SortedList
  import opened BuddyHeap
  import opened BuddySplit
  import opened BuddyMerge
  import opened BuddyAlloc
  import opened BuddyRealloc

  /** An arena start: the first 4 MB boundary above address 0. */
  const S: nat := ALIGNMENT

  /**
   * A heap with a free order-0 block at S, its buddy S+128 in use, an order-1
   * block in use at S+256, and a free order-2 block at S+512.
   */
  function Example(): (h: Heap)
    ensures |h.lists| == MAX_ORDER + 1
  {
    Heap(true,
         map[S := Header(128, true), S + 128 := Header(128, false), S + 256 := Header(256, false),
             S + 512 := Header(512, true)],
         seq(MAX_ORDER + 1, k => if k == 0 then [S] else if k == 2 then [S + 512] else []),
         4, 1024 - 4 * HEADER)
  }

  /** The block sizes and buddy addresses the example needs. */
  lemma ExampleSizes()
    ensures BlockSize(0) == 128 && BlockSize(1) == 256 && BlockSize(2) == 512
    ensures OrderFor(128) == 0
    ensures BuddyOf(S + 128, 128) == S && BuddyOf(S, 256) == S + 256
  {
    BlockSizeFacts();
    assert BlockSize(1) == 2 * BlockSize(0) && BlockSize(2) == 2 * BlockSize(1);
    OrderForBlockSize(0);
    ExampleBuddies();
  }

  lemma ExampleBuddies()
    ensures BuddyOf(S + 128, 128) == S && BuddyOf(S, 256) == S + 256
  {
    assert Pow2(7) == 128 && Pow2(8) == 256;
    assert ((S + 128) / Pow2(7)) % 2 == 1;
    assert (S / Pow2(8)) % 2 == 0;
    XorSingleBit(S + 128, 7);
    XorSingleBit(S, 8);
  }

  lemma ExampleListsWf()
    ensures ListsWF(Example())
  {
    var h := Example();
    ExampleSizes();
    forall k | 0 <= k <= MAX_ORDER
      ensures ListOk(h, k)
    {
      if k == 0 {
        assert h.lists[0] == [S];
      } else if k == 2 {
        assert h.lists[2] == [S + 512];
      } else {
        assert h.lists[k] == [];
      }
    }
  }

  lemma ExampleFacts()
    ensures Wf(Example()) && LiveBlock(Example(), S + 128)
    ensures BuddyOf(S + 128, 128) == S && BuddyOf(S, 256) == S + 256
    ensures BlockSize(0) == 128 && BlockSize(1) == 256 && BlockSize(2) == 512
    ensures OrderFor(128) == 0
  {
    var h := Example();
    ExampleSizes();
    ExampleListsWf();
    forall j, a | 0 <= j <= MAX_ORDER && a in h.lists[j]
      ensures ApartFromListed(h, j, a)
    {
    }
  }

  /** The first pass of the growth loop on S+128 merges it into S, whose header now says in use. */
  lemma ExampleGrowStep()
    ensures CanMerge(Example(), S + 128, 0)
    ensures var h3 := MergeOnce(Example(), S + 128, 0);
      && h3.headers[S] == Header(256, true) && h3.headers[S + 128] == Header(256, false)
      && h3.lists[0] == [] && h3.lists[2] == [S + 512]
  {
    ExampleFacts();
    var h := Example();
    assert h.lists[0] == [S];
    assert Remove([S], S) == [];
  }

  /**
   * As written: growing the in-use block at S+128 to 200 bytes absorbs it into
   * its lower buddy S and returns S's payload, but nothing copies the caller's
   * data from S+160 to S+32.
   */
  lemma LowerBuddyNoMove(os: Os)
    ensures Wf(Example()) && LiveBlock(Example(), S + 128)
    ensures var r := Srealloc(Example(), Some(S + 128 + HEADER), 200, os);
      r.ptr == Some(S + HEADER) && r.ptr != Some(S + 128 + HEADER) && r.moved.None?
  {
    ExampleFacts();
    ExampleGrowStep();
    var h := Example();
    assert Srealloc(h, Some(S + 160), 200, os) == ReallocGrow(h, S + 160, 200, os);
    assert GrowFor(h, S + 128, 200).block == S && GrowFor(h, S + 128, 200).done;
  }

  /**
   * Growing S+128 to 300 bytes: one merge into S (256 bytes, marked in use,
   * while S+128's header is now marked free); S's buddy S+256 is in use, so
   * the loop gives up.
   */
  lemma ExampleGrowFails()
    ensures var g := GrowFor(Example(), S + 128, 300);
      && !g.done && g.block == S
      && g.heap.initialized
      && g.heap.headers[S] == Header(256, false) && g.heap.headers[S + 128] == Header(256, true)
      && S + 256 in g.heap.headers && g.heap.headers[S + 256] == Header(256, false)
      && S + 512 in g.heap.headers && g.heap.headers[S + 512] == Header(512, true)
      && |g.heap.lists| == MAX_ORDER + 1
      && g.heap.lists[2] == [S + 512] && g.heap.lists[0] == [] && g.heap.lists[1] == []
      && Wf(g.heap)
  {
    ExampleFacts();
    ExampleGrowStep();
    var h := Example();
    var h3 := MergeOnce(h, S + 128, 0);
    var h3a := h3.(headers := h3.headers[S + 128 := Header(h3.headers[S + 128].size, true)]);
    var h4 := h3a.(headers := h3a.headers[S := Header(h3a.headers[S].size, false)]);
    assert !CanMerge(h4, S, 1);
    assert GrowInPlace(h, S + 128, 0, 332) == GrowInPlace(h4, S, 1, 332);
    GrowForWf(h, S + 160, 300);
  }

  /** 332 bytes need an order-2 (512-byte) block. */
  lemma OrderFor332()
    ensures OrderFor(332) == 2
  {
    BlockSizeFacts();
  }

  /** On an initialised heap, a small request goes straight to allocateBlock. */
  lemma SmallocTakes(g: Heap, size: nat, os: Os)
    requires Wf(g) && g.initialized && !BadSize(size) && size + HEADER <= MAX_BLOCK_SIZE
    ensures var a := Smalloc(g, size, os);
      var (r, p) := AllocateBlock(g, OrderFor(size + HEADER));
      a.heap == r && a.ptr == p
  {
  }

  /**
   * smalloc(300) on an initialised heap whose order-2 list is [S+512] takes
   * that block; headers below it and every other list stay as they were.
   */
  lemma TakeAt(g: Heap, os: Os)
    requires Wf(g) && g.initialized && g.lists[2] == [S + 512]
    ensures var a := Smalloc(g, 300, os);
      && a.ptr == Some(S + 512 + HEADER) && Wf(a.heap) && a.heap.lists[2] == []
      && (forall j | 0 <= j <= MAX_ORDER && j != 2 :: a.heap.lists[j] == g.lists[j])
      && (forall x | x in g.headers && x < S + 512 :: x in a.heap.headers && a.heap.headers[x] == g.headers[x])
  {
    OrderFor332();
    assert FirstNonEmpty(g.lists, 2) == Some(2);
    SmallocTakes(g, 300, os);
    var i, block := Pick(g, 2);
    AllocateBlockResult(g, 2, i, block);
    AllocateBlockFrame(g, 2, i, block);
    AllocateBlockOtherLists(g, 2, i, block);
    AllocateBlockWf(g, 2);
  }

  /** The fallback's smalloc(300), on the heap the failed growth leaves, takes the free order-2 block at S+512. */
  lemma FallbackAlloc(g: Heap, os: Os)
    requires Wf(g) && g.initialized
    requires S in g.headers && g.headers[S] == Header(256, false)
    requires S + 128 in g.headers && g.headers[S + 128] == Header(256, true)
    requires g.lists[0] == [] && g.lists[1] == [] && g.lists[2] == [S + 512]
    ensures var a := Smalloc(g, 300, os);
      && a.ptr == Some(S + 512 + HEADER)
      && S + 128 in a.heap.headers && a.heap.headers[S + 128] == Header(256, true)
      && S in a.heap.headers && a.heap.headers[S] == Header(256, false)
      && Unlisted(a.heap, S)
  {
    TakeAt(g, os);
    var a := Smalloc(g, 300, os);
    forall k | 0 <= k <= MAX_ORDER
      ensures S !in a.heap.lists[k]
    {
      if k != 2 {
        assert ListOk(g, k);
      }
    }
  }

  /**
   * As written: growing S+128 to 300 bytes merges it into S, fails to grow
   * further, and falls back to a new block at S+512. The copy takes 224 bytes
   * (the merged size, more than the 96 the old block holds), and the final
   * sfree of the old pointer finds S+128's header already marked free and does
   * nothing. The block at S stays in use, in no list, and no pointer the
   * caller holds refers to it: it is lost.
   */
  lemma GrowFallbackLeaks(os: Os)
    ensures Wf(Example()) && LiveBlock(Example(), S + 128)
    ensures var r := Srealloc(Example(), Some(S + 128 + HEADER), 300, os);
      && r.ptr == Some(S + 512 + HEADER)
      && r.moved == Some(Move(S + 128 + HEADER, S + 512 + HEADER, 256 - HEADER))
      && S in r.heap.headers && r.heap.headers[S] == Header(256, false)
      && |r.heap.lists| == MAX_ORDER + 1 && Unlisted(r.heap, S)
  {
    ExampleFallsBack(os);
    ExampleGrowFails();
    FallbackLeaks(GrowFor(Example(), S + 128, 300).heap, os);
  }

  /** In the example, srealloc takes the fallback on the heap the failed growth leaves. */
  lemma ExampleFallsBack(os: Os)
    ensures Wf(Example()) && LiveBlock(Example(), S + 128) && Example().headers[S + 128].size <= MAX_BLOCK_SIZE
    ensures Wf(GrowFor(Example(), S + 128, 300).heap) && KnownPointer(GrowFor(Example(), S + 128, 300).heap, Some(S + 160))
    ensures Srealloc(Example(), Some(S + 160), 300, os)
            == MoveOut(GrowFor(Example(), S + 128, 300).heap, S + 160, 256 - HEADER, 300, os)
  {
    ExampleFacts();
    ExampleGrowFails();
    var h := Example();
    assert Srealloc(h, Some(S + 160), 300, os) == ReallocGrow(h, S + 160, 300, os);
    assert ReallocGrow(h, S + 160, 300, os) == GrowFallback(h, S + 160, 300, os);
  }

  /**
   * The fallback's move on that heap: the new block is S+512, and freeing
   * S+128 again leaves the block at S in use and in no list.
   */
  lemma FallbackLeaks(g: Heap, os: Os)
    requires Wf(g) && g.initialized
    requires S in g.headers && g.headers[S] == Header(256, false)
    requires S + 128 in g.headers && g.headers[S + 128] == Header(256, true)
    requires g.lists[0] == [] && g.lists[1] == [] && g.lists[2] == [S + 512]
    ensures var r := MoveOut(g, S + 160, 256 - HEADER, 300, os);
      && r.ptr == Some(S + 512 + HEADER)
      && r.moved == Some(Move(S + 128 + HEADER, S + 512 + HEADER, 256 - HEADER))
      && S in r.heap.headers && r.heap.headers[S] == Header(256, false)
      && |r.heap.lists| == MAX_ORDER + 1 && Unlisted(r.heap, S)
  {
    FallbackAlloc(g, os);
  }

  // ---------------------------------------------------------------- corrected growth path

  /**
   * srealloc's growth path as evidently intended: when the merges suffice the
   * payload moves with the block if it now starts lower; when they do not,
   * nothing is merged and the old block is replaced by a new one, copying
   * the old payload and freeing the old block as it was.
   */
  function ReallocGrowFixed(h: Heap, q: nat, size: nat, os: Os): (r: Realloc)
    requires Wf(h) && q >= HEADER && LiveBlock(h, q - HEADER)
    requires h.headers[q - HEADER].size <= MAX_BLOCK_SIZE
    ensures r.ptr.Some? && r.ptr != Some(q) ==>
      && r.moved.Some? && r.moved.value.src == q && r.moved.value.dst == r.ptr.value
      && r.moved.value.length + HEADER == h.headers[q - HEADER].size
  {
    var length := Payload(h, q - HEADER);
    var g := GrowFor(h, q - HEADER, size);
    if g.done then GrownAt(g.heap, g.block, q, length)
    else MoveOut(h, q, length, size, os)
  }

  /** The result of a growth that sufficed: the payload moves when the block now starts below `q`. */
  function GrownAt(h: Heap, block: nat, q: nat, length: nat): (r: Realloc)
    ensures r.heap == h && r.ptr == Some(block + HEADER)
    ensures r.moved == if block + HEADER == q then None else Some(Move(q, block + HEADER, length))
  {
    if block + HEADER == q then Realloc(h, Some(q), None, None, None)
    else Realloc(h, Some(block + HEADER), Some(Move(q, block + HEADER, length)), None, None)
  }

  /** The payload bytes of a block in use: its size less the header. */
  function Payload(h: Heap, b: nat): (n: nat)
    requires LiveBlock(h, b)
    ensures n + HEADER == h.headers[b].size
  {
    var size := h.headers[b].size;
    if size > MAX_BLOCK_SIZE then size - HEADER
    else
      assert size >= HEADER by {
        BlockSizeMonotone(0, OrderFor(size));
        BlockSizeFacts();
      }
      size - HEADER
  }

  /** srealloc with the corrected growth path and mmap resize; every other branch is as written. */
  function SreallocFixed(h: Heap, oldp: Option<nat>, size: nat, os: Os): (r: Realloc)
    requires Wf(h) && LivePointer(h, oldp)
    ensures BadSize(size) ==> r.ptr.None? && r.heap == h
    ensures oldp.Some? && oldp.value != HEADER && r.ptr.Some? && r.ptr != oldp ==>
      && r.moved.Some? && r.moved.value.src == oldp.value && r.moved.value.dst == r.ptr.value
      && r.moved.value.length == CopyLength(h.headers[oldp.value - HEADER].size - HEADER, size)
  {
    if BadSize(size) then Realloc(h, None, None, None, None)
    else if oldp.None? || oldp.value == HEADER then FromAlloc(Smalloc(h, size, os))
    else
      var q := oldp.value;
      var hd := h.headers[q - HEADER];
      if hd.size > MAX_BLOCK_SIZE then ReallocMappedFixed(h, q, size, os)
      else if hd.size < size + HEADER then ReallocGrowFixed(h, q, size, os)
      else Realloc(h, oldp, None, None, None)
  }

  /** On an initialised heap, a failed smalloc changes nothing. */
  lemma SmallocFailureKeepsHeap(h: Heap, size: nat, os: Os)
    requires Wf(h) && h.initialized
    ensures Smalloc(h, size, os).ptr.None? ==> Smalloc(h, size, os).heap == h
  {
  }

  /**
   * With the corrected growth path a failed srealloc leaves an initialised
   * heap exactly as it was, so the old pointer stays valid.
   */
  lemma SreallocFixedFailureKeepsHeap(h: Heap, oldp: Option<nat>, size: nat, os: Os)
    requires Wf(h) && h.initialized && LivePointer(h, oldp)
    ensures var r := SreallocFixed(h, oldp, size, os);
      r.ptr.None? ==> r.heap == h
  {
    SmallocFailureKeepsHeap(h, size, os);
  }

  /** A listed free block of some order covers the addresses lo..hi-1. */
  predicate CoveredFree(h: Heap, lo: nat, hi: nat)
    requires |h.lists| == MAX_ORDER + 1
  {
    exists k, c | 0 <= k <= MAX_ORDER && c in h.lists[k] ::
      c in h.headers && h.headers[c] == Header(BlockSize(k), true) && c <= lo && hi <= c + BlockSize(k)
  }

  /** Two multiples of b, the second above the first, lie at least b apart. */
  lemma NextMultiple(c: nat, s: nat, b: nat)
    requires b > 0 && c % b == 0 && s % b == 0 && c > s
    ensures c >= s + b
  {
    var p := c / b;
    var q := s / b;
    assert c == b * p && s == b * q;
    assert p > q;
    MulAtLeast(b, p - q);
    assert c - s == b * (p - q);
  }

  /**
   * sfree of S+128, in use beside a free S of the same size: the merged free
   * block is listed and covers S and S+128 both.
   */
  lemma FreeBesideFree(g: Heap)
    requires ListsWF(g)
    requires S in g.headers && g.headers[S] == Header(128, true)
    requires S + 128 in g.headers && g.headers[S + 128] == Header(128, false)
    ensures CoveredFree(Sfree(g, Some(S + 128 + HEADER)).heap, S, S + 256)
  {
    ExampleFacts();
    var b := S + 128;
    assert LiveBlock(g, b);
    SfreeBuddySpec(g, b);
    var h1 := g.(headers := g.headers[b := Header(128, true)]);
    assert CanMerge(h1, b, 0);
    var m := MergeUp(h1, b, 0);
    assert m.order >= 1;
    var r := FreeBuddy(g, b);
    assert Sfree(g, Some(S + 128 + HEADER)).heap == r;
    assert m.block in r.lists[m.order];
    var size := BlockSize(m.order);
    BlockSizeMonotone(0, m.order);
    BlockSizeDividesAlignment(m.order);
    if m.block > S {
      NextMultiple(m.block, S, size);
    }
  }

  /**
   * Corrected: the same request as in GrowFallbackLeaks copies the 96 bytes
   * the old block holds, and the old block and its buddy end up inside a
   * listed free block: nothing is lost.
   */
  lemma FixedFallbackFrees(os: Os)
    ensures Wf(Example()) && LiveBlock(Example(), S + 128)
    ensures var r := SreallocFixed(Example(), Some(S + 128 + HEADER), 300, os);
      && r.ptr == Some(S + 512 + HEADER)
      && r.moved == Some(Move(S + 128 + HEADER, S + 512 + HEADER, 128 - HEADER))
      && |r.heap.lists| == MAX_ORDER + 1 && CoveredFree(r.heap, S, S + 256)
  {
    ExampleFacts();
    ExampleGrowFails();
    var h := Example();
    assert SreallocFixed(h, Some(S + 160), 300, os) == MoveOut(h, S + 160, 96, 300, os);
    TakeAt(h, os);
    var a := Smalloc(h, 300, os);
    FreeBesideFree(a.heap);
  }

  // ---------------------------------------------------------------- mmap resize

  /**
   * As written, resizing an mmap block copies the whole old payload (header
   * size - HEADER bytes) into the new block. When the block shrinks, the new
   * block, header included, is smaller than the old one, so the copy runs
   * past its end.
   */
  lemma MappedShrinkOverCopies(h: Heap, q: nat, size: nat, os: Os)
    requires Wf(h) && h.initialized && q >= HEADER && q - HEADER in h.headers
    requires h.headers[q - HEADER].size > MAX_BLOCK_SIZE && !BadSize(size)
    requires size + HEADER < h.headers[q - HEADER].size
    ensures var r := ReallocMapped(h, q, size, os);
      var a := Smalloc(h, size, os);
      r.ptr.Some? ==>
        && r.ptr == a.ptr && a.ptr.value >= HEADER && a.ptr.value - HEADER in a.heap.headers
        && r.moved.Some? && r.moved.value.src == q && r.moved.value.dst == a.ptr.value
        && r.moved.value.length + HEADER == h.headers[q - HEADER].size
        && a.heap.headers[a.ptr.value - HEADER].size < h.headers[q - HEADER].size
  {
    var hd := h.headers[q - HEADER];
    if size + HEADER != hd.size {
      MoveOutSpec(h, q, hd.size - HEADER, size, os);
      NewBlockHolds(h, size, os);
    }
  }

  /**
   * The block smalloc hands out holds the request, and is no larger than the
   * request plus a header or the top block size, whichever is larger.
   */
  lemma NewBlockHolds(h: Heap, size: nat, os: Os)
    requires Wf(h) && h.initialized && !BadSize(size)
    ensures var a := Smalloc(h, size, os);
      a.ptr.Some? ==>
        && a.ptr.value >= HEADER && a.ptr.value - HEADER in a.heap.headers
        && size + HEADER <= a.heap.headers[a.ptr.value - HEADER].size
        && (a.heap.headers[a.ptr.value - HEADER].size == size + HEADER
            || a.heap.headers[a.ptr.value - HEADER].size <= MAX_BLOCK_SIZE)
  {
    if size + HEADER > MAX_BLOCK_SIZE {
      SmallocMapped(h, size, os);
    } else {
      SmallocBuddy(h, size, os);
      BlockSizeMonotone(OrderFor(size + HEADER), MAX_ORDER);
      BlockSizeFacts();
    }
  }

  /** The bytes a resize can carry over: the old payload, cut to the new size. */
  function CopyLength(payload: nat, size: nat): (n: nat)
    ensures n <= payload && n <= size && (n == payload || n == size)
  {
    if payload <= size then payload else size
  }

  /** srealloc of an mmap block as evidently intended: the copy is cut to the new size. */
  function ReallocMappedFixed(h: Heap, q: nat, size: nat, os: Os): (r: Realloc)
    requires Wf(h) && q >= HEADER && q - HEADER in h.headers
    requires h.headers[q - HEADER].size > MAX_BLOCK_SIZE
    ensures size + HEADER == h.headers[q - HEADER].size ==> r == Realloc(h, Some(q), None, None, None)
    ensures size + HEADER != h.headers[q - HEADER].size && r.ptr.Some? ==>
      && r.moved.Some? && r.moved.value.src == q && r.moved.value.dst == r.ptr.value
      && r.moved.value.length <= size
      && r.moved.value.length + HEADER <= h.headers[q - HEADER].size
      && (r.moved.value.length == size || r.moved.value.length + HEADER == h.headers[q - HEADER].size)
  {
    var hd := h.headers[q - HEADER];
    if size + HEADER == hd.size then Realloc(h, Some(q), None, None, None)
    else MoveOut(h, q, CopyLength(hd.size - HEADER, size), size, os)
  }

  /**
   * With the correction, a resized mmap block's copy reads only the old
   * payload, fits in the new block, and carries over as much as both hold.
   */
  lemma MappedFixedFits(h: Heap, q: nat, size: nat, os: Os)
    requires Wf(h) && h.initialized && q >= HEADER && q - HEADER in h.headers
    requires h.headers[q - HEADER].size > MAX_BLOCK_SIZE && !BadSize(size)
    ensures var r := ReallocMappedFixed(h, q, size, os);
      var a := Smalloc(h, size, os);
      size + HEADER != h.headers[q - HEADER].size && r.ptr.Some? ==>
        && r.ptr == a.ptr && a.ptr.value >= HEADER && a.ptr.value - HEADER in a.heap.headers
        && r.moved.Some? && r.moved.value.src == q && r.moved.value.dst == a.ptr.value
        && r.moved.value.length + HEADER <= h.headers[q - HEADER].size
        && r.moved.value.length + HEADER <= a.heap.headers[a.ptr.value - HEADER].size
        && (r.moved.value.length == size || r.moved.value.length + HEADER == h.headers[q - HEADER].size)
  {
    var hd := h.headers[q - HEADER];
    if size + HEADER != hd.size {
      MoveOutSpec(h, q, CopyLength(hd.size - HEADER, size), size, os);
      NewBlockHolds(h, size, os);
    }
  }

  // ---------------------------------------------------------------- scalloc overflow

  /**
   * As written: scalloc(2^63 + 1, 2) asks smalloc for (2^63 + 1) * 2 mod 2^64
   * = 2 bytes and zeroes 2 bytes, although the caller asked for 2^64 + 2.
   */
  lemma ScallocWraps(h: Heap, os: Os)
    requires Wf(h)
    ensures var r := Scalloc(h, WRAPPING_NUM, 2, os);
      && WRAPPING_NUM * 2 > SIZE_LIMIT
      && r.alloc == Smalloc(h, 2, os)
      && (r.alloc.ptr.Some? ==> r.zeroed == Some(Region(r.alloc.ptr.value, 2)))
  {
    WrappingProduct();
  }

  /** scalloc as evidently intended: the product is not reduced, so an overflowing request is refused. */
  function ScallocChecked(h: Heap, num: nat, size: nat, os: Os): (r: Calloc)
    requires Wf(h)
    ensures r.zeroed.Some? <==> r.alloc.ptr.Some?
    ensures r.zeroed.Some? ==> r.zeroed.value == Region(r.alloc.ptr.value, num * size) && 0 < num * size <= SIZE_LIMIT
  {
    var a := Smalloc(h, num * size, os);
    if a.ptr.None? then Calloc(a, None)
    else Calloc(a, Some(Region(a.ptr.value, num * size)))
  }

  /** The two agree whenever the product fits in 64 bits. */
  lemma ScallocCheckedAgrees(h: Heap, num: nat, size: nat, os: Os)
    requires Wf(h)
    ensures num * size < SIZE_T_MODULUS ==> ScallocChecked(h, num, size, os) == Scalloc(h, num, size, os)
  {
    var p := num * size;
    if p < SIZE_T_MODULUS {
      ProductFits(num, size, p);
    }
  }

  /** The checked scalloc refuses the request that wraps in ScallocWraps. */
  lemma ScallocCheckedRefuses(h: Heap, os: Os)
    requires Wf(h)
    ensures ScallocChecked(h, WRAPPING_NUM, 2, os).alloc.ptr.None?
  {
    WrappingProduct();
  }
}
