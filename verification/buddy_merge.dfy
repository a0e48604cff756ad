/**
 * What sfree does to the heap (VM/malloc_3.cpp:311-354): merging with free
 * buddies keeps the lower address of each pair, doubles the size, and the
 * final block lands in the list of its order.
 */
module BuddyMerge {
  import opened Wrappers
  import opened Sizes
  import opened BuddyArith
  import opened SortedList
  import opened BuddyHeap

  /**
   * One merge from a free, unlisted, aligned block of order k: the lower
   * address of the pair is a free, unlisted block of order k+1 aligned to its
   * size, covering the block it started from.
   */
  lemma MergeStep(h: Heap, block: nat, order: nat) returns (next: nat)
    requires ListsWF(h) && order <= MAX_ORDER && block in h.headers
    requires h.headers[block] == Header(BlockSize(order), true) && block % BlockSize(order) == 0
    requires Unlisted(h, block) && CanMerge(h, block, order)
    ensures var h3 := MergeOnce(h, block, order);
      && order < MAX_ORDER
      && next == (if BuddyOf(block, BlockSize(order)) < block then BuddyOf(block, BlockSize(order)) else block)
      && ListsWF(h3) && SubLists(h3, h) && Unlisted(h3, next) && next in h3.headers
      && h3.headers[next] == Header(BlockSize(order + 1), true)
      && next % BlockSize(order + 1) == 0
      && next <= block && block + BlockSize(order) <= next + BlockSize(order + 1)
  {
    var buddy := BuddyOf(block, BlockSize(order));
    MergeOnceWf(h, block, order);
    MergedAligned(block, order + 7);
    assert Pow2(order + 8) == BlockSize(order + 1) == 2 * BlockSize(order);
    next := if buddy < block then buddy else block;
  }

  /**
   * The merge loop of sfree, started on an unlisted free block of its order,
   * ends on an unlisted free block of its final order that covers the
   * starting block and is aligned to its own size; lists only lose entries.
   */
  lemma {:induction false} MergeUpSpec(h: Heap, block: nat, order: nat)
    requires ListsWF(h) && order <= MAX_ORDER && block in h.headers
    requires h.headers[block] == Header(BlockSize(order), true) && block % BlockSize(order) == 0
    requires Unlisted(h, block)
    ensures var m := MergeUp(h, block, order);
      && ListsWF(m.heap) && SubLists(m.heap, h) && Unlisted(m.heap, m.block)
      && m.heap.headers[m.block] == Header(BlockSize(m.order), true)
      && m.block % BlockSize(m.order) == 0
      && m.block <= block && block + BlockSize(order) <= m.block + BlockSize(m.order)
    decreases MAX_ORDER - order
  {
    if CanMerge(h, block, order) {
      var next := MergeStep(h, block, order);
      var h3 := MergeOnce(h, block, order);
      MergeUpSpec(h3, next, order + 1);
      var m := MergeUp(h3, next, order + 1);
      assert MergeUp(h, block, order).block == m.block;
      assert MergeUp(h, block, order).heap == m.heap;
      assert MergeUp(h, block, order).order == m.order;
      forall k, a | 0 <= k <= MAX_ORDER && a in m.heap.lists[k]
        ensures a in h.lists[k]
      {
        assert a in h3.lists[k];
      }
    }
  }

  /** sfree of a buddy block in use, as FreeBuddy computes it, unfolded into its steps. */
  lemma FreeBuddyUnfold(h: Heap, b: nat)
    requires |h.lists| == MAX_ORDER + 1 && b in h.headers && h.headers[b].size <= MAX_BLOCK_SIZE
    ensures var h1 := h.(headers := h.headers[b := Header(h.headers[b].size, true)]);
      var m := MergeUp(h1, b, OrderFor(h.headers[b].size));
      FreeBuddy(h, b) == m.heap.(lists := m.heap.lists[m.order := Insert(m.heap.lists[m.order], m.block)])
  {
  }

  /**
   * sfree of a buddy block in use: the block is marked free and merged while
   * its buddy is free and of the same size; the block that results starts at
   * the lowest address of the merged pairs, contains the freed block, is free,
   * has the size of its final order, and is the one new entry of that order's
   * list. Each merge takes one block from the count and gives one header's
   * bytes back to the payload count.
   */
  lemma SfreeBuddySpec(h: Heap, b: nat)
    requires ListsWF(h) && LiveBlock(h, b) && h.headers[b].size <= MAX_BLOCK_SIZE
    ensures var k0 := OrderFor(h.headers[b].size);
      var h1 := h.(headers := h.headers[b := Header(h.headers[b].size, true)]);
      var m := MergeUp(h1, b, k0);
      var r := FreeBuddy(h, b);
      && ListsWF(r)
      && m.block in r.headers && r.headers[m.block] == Header(BlockSize(m.order), true)
      && m.block % BlockSize(m.order) == 0 && m.block <= b && b + BlockSize(k0) <= m.block + BlockSize(m.order)
      && k0 <= m.order <= MAX_ORDER
      && r.lists[m.order] == Insert(m.heap.lists[m.order], m.block)
      && (forall k, a | 0 <= k <= MAX_ORDER && a in r.lists[k] && (k != m.order || a != m.block) :: a in h.lists[k])
      && r.totalBlocks == h.totalBlocks - (m.order - k0)
      && r.totalAllocatedBytes == h.totalAllocatedBytes + HEADER * (m.order - k0)
  {
    var k0 := OrderFor(h.headers[b].size);
    var h1 := h.(headers := h.headers[b := Header(h.headers[b].size, true)]);
    InUseUnlisted(h, b);
    assert ListsWF(h1) by {
      forall k | 0 <= k <= MAX_ORDER
        ensures ListOk(h1, k)
      {
        assert ListOk(h, k);
      }
    }
    MergeUpSpec(h1, b, k0);
    var m := MergeUp(h1, b, k0);
    FreeBuddyUnfold(h, b);
    var r := FreeBuddy(h, b);
    forall k | 0 <= k <= MAX_ORDER
      ensures ListOk(r, k)
    {
      assert ListOk(m.heap, k);
    }
  }
}
