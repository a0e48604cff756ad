/**
 * What allocateBlock does to the heap (VM/malloc_3.cpp:123-150): the split
 * loop writes one free upper half per order it passes, and the block it
 * returns is aligned to, and sized exactly as, the order asked for.
 */
module BuddySplit {
  import opened Wrappers
  import opened Sizes
  import opened BuddyArith
  import opened SortedList
  import opened BuddyHeap

  /** `a` lies inside the block [block, block + size). */
  predicate Within(a: nat, block: nat, size: nat)
  {
    block <= a < block + size
  }

  lemma BlockSizeStep(k: nat)
    requires k > 0
    ensures BlockSize(k) == 2 * BlockSize(k - 1) && BlockSize(k) / 2 == BlockSize(k - 1)
    ensures Pow2(k + 7) == BlockSize(k) && Pow2(k + 6) == BlockSize(k - 1)
  {
  }

  /** One split writes a free header for the XOR buddy at half size, halves `block` and lists the buddy at order i-1. */
  lemma SplitOnceSpec(h: Heap, block: nat, i: nat)
    requires |h.lists| == MAX_ORDER + 1 && 0 < i <= MAX_ORDER && block in h.headers
    requires h.headers[block].size == BlockSize(i)
    requires BuddyOf(block, BlockSize(i - 1)) == block + BlockSize(i - 1)
    ensures var r := SplitOnce(h, block, i);
      var upper := block + BlockSize(i - 1);
      && r.headers == h.headers[upper := Header(BlockSize(i - 1), true)][block := Header(BlockSize(i - 1), h.headers[block].isFree)]
      && r.lists == h.lists[i - 1 := Insert(h.lists[i - 1], upper)]
  {
    BlockSizeStep(i);
  }

  /** A block aligned to its order is aligned to every lower order. */
  lemma {:induction false} AlignedDown(block: nat, i: nat, j: nat)
    requires j <= i && block % BlockSize(i) == 0
    ensures block % BlockSize(j) == 0
    decreases i
  {
    if j < i {
      BlockSizeStep(i);
      SplitHalves(block, i + 6);
      AlignedDown(block, i - 1, j);
    }
  }

  /** Below a block's own order, its XOR buddy at order j is its upper half at offset 2^(j+7). */
  lemma UpperHalf(block: nat, i: nat, j: nat)
    requires j < i && block % BlockSize(i) == 0
    ensures BuddyOf(block, BlockSize(j)) == block + BlockSize(j)
    ensures (block + BlockSize(j)) % BlockSize(j) == 0
  {
    AlignedDown(block, i, j + 1);
    BlockSizeStep(j + 1);
    SplitHalves(block, j + 7);
  }

  /** At every order the split loop passes, the XOR buddy of `block` is the half just above it. */
  predicate UppersAbove(block: nat, order: nat, i: nat)
  {
    forall j | order <= j < i :: BuddyOf(block, BlockSize(j)) == block + BlockSize(j)
  }

  lemma AlignedUppers(block: nat, order: nat, i: nat)
    requires order <= i && block % BlockSize(i) == 0
    ensures UppersAbove(block, order, i)
  {
    forall j | order <= j < i
      ensures BuddyOf(block, BlockSize(j)) == block + BlockSize(j)
    {
      UpperHalf(block, i, j);
    }
  }

  /** What the split loop needs of `block`: a header of order i, and upper halves at every order it passes. */
  predicate SplitReady(h: Heap, block: nat, i: nat, order: nat)
  {
    && |h.lists| == MAX_ORDER + 1 && order <= i <= MAX_ORDER && block in h.headers
    && h.headers[block].size == BlockSize(i) && UppersAbove(block, order, i)
  }

  /** The split loop leaves `block` with the header of a block of the target order. */
  lemma {:induction false} SplitDownBlock(h: Heap, block: nat, i: nat, order: nat)
    requires SplitReady(h, block, i, order)
    ensures SplitDown(h, block, i, order).headers[block] == Header(BlockSize(order), h.headers[block].isFree)
    decreases i
  {
    if i > order {
      assert BuddyOf(block, BlockSize(i - 1)) == block + BlockSize(i - 1);
      SplitOnceSpec(h, block, i);
      SplitDownBlock(SplitOnce(h, block, i), block, i - 1, order);
    }
  }

  /**
   * The list of order j after the split loop: the upper half of `block` at
   * order j is inserted when the loop passes j, and the list is untouched
   * otherwise.
   */
  lemma {:induction false} SplitDownListAt(h: Heap, block: nat, i: nat, order: nat, j: nat)
    requires SplitReady(h, block, i, order) && j <= MAX_ORDER
    ensures SplitDown(h, block, i, order).lists[j]
      == if order <= j < i then Insert(h.lists[j], block + BlockSize(j)) else h.lists[j]
    decreases i
  {
    if i > order {
      assert BuddyOf(block, BlockSize(i - 1)) == block + BlockSize(i - 1);
      SplitOnceSpec(h, block, i);
      SplitDownListAt(SplitOnce(h, block, i), block, i - 1, order, j);
    }
  }

  /** The split loop changes no header outside the block it splits. */
  lemma {:induction false} SplitDownHeaderAt(h: Heap, block: nat, i: nat, order: nat, a: nat)
    requires SplitReady(h, block, i, order)
    requires a in h.headers && !Within(a, block, BlockSize(i))
    ensures var r := SplitDown(h, block, i, order);
      a in r.headers && r.headers[a] == h.headers[a]
    decreases i
  {
    if i > order {
      BlockSizeStep(i);
      assert BuddyOf(block, BlockSize(i - 1)) == block + BlockSize(i - 1);
      SplitOnceSpec(h, block, i);
      SplitDownHeaderAt(SplitOnce(h, block, i), block, i - 1, order, a);
    }
  }

  /** The upper half the split loop lists at order j carries a free header of that order. */
  lemma {:induction false} SplitDownUpperAt(h: Heap, block: nat, i: nat, order: nat, j: nat)
    requires SplitReady(h, block, i, order)
    requires order <= j < i
    ensures var r := SplitDown(h, block, i, order);
      block + BlockSize(j) in r.headers && r.headers[block + BlockSize(j)] == Header(BlockSize(j), true)
    decreases i
  {
    var h1 := SplitOnce(h, block, i);
    BlockSizeStep(i);
    assert BuddyOf(block, BlockSize(i - 1)) == block + BlockSize(i - 1);
    SplitOnceSpec(h, block, i);
    if j == i - 1 {
      SplitDownHeaderAt(h1, block, i - 1, order, block + BlockSize(j));
    } else {
      SplitDownUpperAt(h1, block, i - 1, order, j);
    }
  }

  /**
   * Every order j the split loop passes gets the upper half of `block` at
   * that order inserted into its list; the lists of all other orders are
   * untouched.
   */
  lemma SplitDownLists(h: Heap, block: nat, i: nat, order: nat)
    requires SplitReady(h, block, i, order)
    ensures var r := SplitDown(h, block, i, order);
      && (forall j | order <= j < i :: r.lists[j] == Insert(h.lists[j], block + BlockSize(j)))
      && (forall j | 0 <= j <= MAX_ORDER && !(order <= j < i) :: r.lists[j] == h.lists[j])
  {
    forall j | 0 <= j <= MAX_ORDER
      ensures SplitDown(h, block, i, order).lists[j]
        == if order <= j < i then Insert(h.lists[j], block + BlockSize(j)) else h.lists[j]
    {
      SplitDownListAt(h, block, i, order, j);
    }
  }

  /** The split loop changes no header outside the block it splits. */
  lemma SplitDownFrame(h: Heap, block: nat, i: nat, order: nat)
    requires SplitReady(h, block, i, order)
    ensures var r := SplitDown(h, block, i, order);
      forall a | a in h.headers && !Within(a, block, BlockSize(i)) :: a in r.headers && r.headers[a] == h.headers[a]
  {
    forall a | a in h.headers && !Within(a, block, BlockSize(i))
      ensures a in SplitDown(h, block, i, order).headers
      ensures SplitDown(h, block, i, order).headers[a] == h.headers[a]
    {
      SplitDownHeaderAt(h, block, i, order, a);
    }
  }

  /** A listed block carries a header of its list's order. */
  lemma ListedHeader(h: Heap, k: nat, a: nat)
    requires ListsWF(h) && k <= MAX_ORDER && a in h.lists[k]
    ensures a in h.headers && h.headers[a] == Header(BlockSize(k), true)
  {
    assert ListOk(h, k);
  }

  /**
   * allocateBlock for `order` picks list i and its head `block`: i is the
   * lowest order at or above `order` whose list is not empty.
   */
  predicate Picks(h: Heap, order: nat, i: nat, block: nat)
  {
    && |h.lists| == MAX_ORDER + 1 && order <= MAX_ORDER
    && FirstNonEmpty(h.lists, order) == Some(i) && block == h.lists[i][0]
  }

  lemma Pick(h: Heap, order: nat) returns (i: nat, block: nat)
    requires ListsWF(h) && order <= MAX_ORDER && FirstNonEmpty(h.lists, order).Some?
    ensures Picks(h, order, i, block)
  {
    i := FirstNonEmpty(h.lists, order).value;
    block := h.lists[i][0];
  }

  /** The head of an ascending list is its least entry, and unlinking it leaves the tail. */
  lemma HeadRemoved(h: Heap, i: nat)
    requires ListsWF(h) && i <= MAX_ORDER && h.lists[i] != []
    ensures var block := h.lists[i][0];
      && (forall a | a in h.lists[i] :: block <= a)
      && Unlink(h, i, block).lists[i] == h.lists[i][1..] && block !in h.lists[i][1..]
  {
    assert ListOk(h, i);
    RemoveHead(h.lists[i]);
    AscendingTail(h.lists[i]);
  }

  /** The head of list i is aligned to its order, so its XOR buddies below i are its upper halves. */
  lemma HeadUppers(h: Heap, order: nat, i: nat)
    requires ListsWF(h) && order <= i <= MAX_ORDER && h.lists[i] != []
    ensures UppersAbove(h.lists[i][0], order, i)
  {
    assert h.lists[i][0] in h.lists[i] && ListOk(h, i);
    AlignedUppers(h.lists[i][0], order, i);
  }

  /** The head of list i is aligned to every order up to i. */
  lemma HeadAlignedDown(h: Heap, order: nat, i: nat)
    requires ListsWF(h) && order <= i <= MAX_ORDER && h.lists[i] != []
    ensures h.lists[i][0] % BlockSize(order) == 0
  {
    assert h.lists[i][0] in h.lists[i] && ListOk(h, i);
    AlignedDown(h.lists[i][0], i, order);
  }

  /** allocateBlock unlinks the picked block, splits it down to `order` and marks it in use. */
  lemma AllocateBlockUnfold(h: Heap, order: nat, i: nat, block: nat)
    requires ListsWF(h) && Picks(h, order, i, block)
    ensures SplitReady(Unlink(h, i, block), block, i, order)
    ensures AllocateBlock(h, order)
      == (MarkUsed(SplitDown(Unlink(h, i, block), block, i, order), block), Some(block + HEADER))
  {
    ListedHeader(h, i, block);
    HeadUppers(h, order, i);
  }

  /**
   * allocateBlock returns the payload of the head of the lowest non-empty
   * list at or above `order`; that head has the lowest address in its list.
   */
  lemma AllocateBlockResult(h: Heap, order: nat, i: nat, block: nat)
    requires ListsWF(h) && Picks(h, order, i, block)
    ensures AllocateBlock(h, order).1 == Some(block + HEADER)
    ensures forall a | a in h.lists[i] :: block <= a
  {
    HeadRemoved(h, i);
  }

  /** The block allocateBlock returns is in use, has exactly the size of `order` and is aligned to it. */
  lemma AllocateBlockShape(h: Heap, order: nat, i: nat, block: nat)
    requires ListsWF(h) && Picks(h, order, i, block)
    ensures var r := AllocateBlock(h, order).0;
      && block in r.headers && r.headers[block] == Header(BlockSize(order), false)
      && block % BlockSize(order) == 0
  {
    AllocateBlockUnfold(h, order, i, block);
    SplitDownBlock(Unlink(h, i, block), block, i, order);
    HeadAlignedDown(h, order, i);
  }

  /** Splitting `block` down through an empty list of order j leaves exactly its upper half there. */
  lemma SplitAtEmpty(h: Heap, block: nat, i: nat, order: nat, j: nat, r: Heap)
    requires SplitReady(h, block, i, order) && order <= j < i && h.lists[j] == []
    requires r == MarkUsed(SplitDown(h, block, i, order), block)
    ensures r.lists[j] == [block + BlockSize(j)]
    ensures block + BlockSize(j) in r.headers && r.headers[block + BlockSize(j)] == Header(BlockSize(j), true)
  {
    SplitDownListAt(h, block, i, order, j);
    SplitDownUpperAt(h, block, i, order, j);
  }

  /** The split at one order j: its list holds exactly the upper half, a free block of order j. */
  lemma AllocateBlockSplitAt(h: Heap, order: nat, i: nat, block: nat, j: nat)
    requires ListsWF(h) && Picks(h, order, i, block) && order <= j < i
    ensures var r := AllocateBlock(h, order).0;
      && r.lists[j] == [block + BlockSize(j)]
      && block + BlockSize(j) in r.headers
      && r.headers[block + BlockSize(j)] == Header(BlockSize(j), true)
  {
    AllocateBlockUnfold(h, order, i, block);
    var h1 := Unlink(h, i, block);
    assert h1.lists[j] == [];
    SplitAtEmpty(h1, block, i, order, j, AllocateBlock(h, order).0);
  }

  /**
   * Each order j from `order` to i-1 ends up holding exactly the XOR upper
   * half of the block at that order, as a free block of order j.
   */
  lemma AllocateBlockSplitLists(h: Heap, order: nat, i: nat, block: nat)
    requires ListsWF(h) && Picks(h, order, i, block)
    ensures var r := AllocateBlock(h, order).0;
      forall j | order <= j < i ::
        && r.lists[j] == [BuddyOf(block, BlockSize(j))]
        && BuddyOf(block, BlockSize(j)) == block + BlockSize(j)
        && block + BlockSize(j) in r.headers
        && r.headers[block + BlockSize(j)] == Header(BlockSize(j), true)
  {
    HeadUppers(h, order, i);
    forall j | order <= j < i
    {
      AllocateBlockSplitAt(h, order, i, block, j);
    }
  }

  /** List i loses its head and every list outside orders `order`..i is unchanged. */
  lemma AllocateBlockOtherLists(h: Heap, order: nat, i: nat, block: nat)
    requires ListsWF(h) && Picks(h, order, i, block)
    ensures var r := AllocateBlock(h, order).0;
      && r.lists[i] == h.lists[i][1..]
      && (forall j | 0 <= j <= MAX_ORDER && !(order <= j <= i) :: r.lists[j] == h.lists[j])
  {
    AllocateBlockUnfold(h, order, i, block);
    HeadRemoved(h, i);
    SplitDownLists(Unlink(h, i, block), block, i, order);
  }

  /** allocateBlock rewrites no header outside the block it took from list i. */
  lemma AllocateBlockFrame(h: Heap, order: nat, i: nat, block: nat)
    requires ListsWF(h) && Picks(h, order, i, block)
    ensures var r := AllocateBlock(h, order).0;
      forall a | a in h.headers && !Within(a, block, BlockSize(i)) :: a in r.headers && r.headers[a] == h.headers[a]
  {
    AllocateBlockUnfold(h, order, i, block);
    SplitDownFrame(Unlink(h, i, block), block, i, order);
  }

  /** The block allocateBlock returns is in no free list afterwards. */
  lemma AllocateBlockUnlisted(h: Heap, order: nat, i: nat, block: nat)
    requires ListsWF(h) && Picks(h, order, i, block)
    ensures Unlisted(AllocateBlock(h, order).0, block)
  {
    AllocateBlockSplitLists(h, order, i, block);
    AllocateBlockOtherLists(h, order, i, block);
    HeadRemoved(h, i);
    ListedHeader(h, i, block);
    var r := AllocateBlock(h, order).0;
    forall k | 0 <= k <= MAX_ORDER
      ensures block !in r.lists[k]
    {
      if k != i && !(order <= k < i) && block in h.lists[k] {
        ListedHeader(h, k, block);
        BlockSizeInjective(k, i);
      }
    }
  }

  /**
   * Every entry of a list after allocateBlock is either a fresh upper half
   * (orders `order`..i-1) or an entry that was listed before, is not the
   * taken block, and lies outside it.
   */
  lemma AllocatedEntry(h: Heap, order: nat, i: nat, block: nat, k: nat, a: nat)
    requires Wf(h) && Picks(h, order, i, block)
    requires k <= MAX_ORDER && a in AllocateBlock(h, order).0.lists[k]
    ensures if order <= k < i then
        a == block + BlockSize(k) && a + BlockSize(k) <= block + BlockSize(i)
      else
        a in h.lists[k] && a != block && !Within(a, block, BlockSize(i))
  {
    if order <= k < i {
      AllocateBlockSplitAt(h, order, i, block, k);
      BlockSizeMonotone(k, i);
    } else {
      AllocateBlockOtherLists(h, order, i, block);
      HeadRemoved(h, i);
      assert a in h.lists[k];
      if k != i && a == block {
        ListedHeader(h, i, block);
        ListedHeader(h, k, a);
        BlockSizeInjective(k, i);
      }
      assert ApartFromListed(h, i, block) by {
        assert block in h.lists[i];
      }
    }
  }

  /** A block listed before allocateBlock and outside the taken block is still a free block of its order. */
  lemma StillFree(h: Heap, order: nat, i: nat, block: nat, k: nat, a: nat)
    requires ListsWF(h) && Picks(h, order, i, block)
    requires k <= MAX_ORDER && a in h.lists[k] && !Within(a, block, BlockSize(i))
    ensures FreeBlockAt(AllocateBlock(h, order).0, a, k)
  {
    AllocateBlockFrame(h, order, i, block);
    assert ListOk(h, k);
  }

  /** The list of an order the split passed holds one free block of that order. */
  lemma SplitListOk(h: Heap, order: nat, i: nat, block: nat, k: nat)
    requires ListsWF(h) && Picks(h, order, i, block) && order <= k < i
    ensures ListOk(AllocateBlock(h, order).0, k)
  {
    AllocateBlockSplitAt(h, order, i, block, k);
    HeadAlignedDown(h, i, i);
    UpperHalf(block, i, k);
  }

  /** The list of an order the split did not pass keeps entries that are still free blocks of that order. */
  lemma KeptListOk(h: Heap, order: nat, i: nat, block: nat, k: nat)
    requires Wf(h) && Picks(h, order, i, block) && k <= MAX_ORDER && !(order <= k < i)
    ensures ListOk(AllocateBlock(h, order).0, k)
  {
    var r := AllocateBlock(h, order).0;
    AllocateBlockOtherLists(h, order, i, block);
    assert Ascending(r.lists[k]) by {
      assert ListOk(h, k);
      if k == i {
        AscendingTail(h.lists[i]);
      }
    }
    forall a | a in r.lists[k]
      ensures FreeBlockAt(r, a, k)
    {
      AllocatedEntry(h, order, i, block, k, a);
      StillFree(h, order, i, block, k, a);
    }
  }

  lemma AllocateBlockListsOk(h: Heap, order: nat, i: nat, block: nat)
    requires Wf(h) && Picks(h, order, i, block)
    ensures ListsWF(AllocateBlock(h, order).0)
  {
    forall k | 0 <= k <= MAX_ORDER
      ensures ListOk(AllocateBlock(h, order).0, k)
    {
      if order <= k < i {
        SplitListOk(h, order, i, block, k);
      } else {
        KeptListOk(h, order, i, block, k);
      }
    }
  }

  lemma AllocateBlockDisjoint(h: Heap, order: nat, i: nat, block: nat)
    requires Wf(h) && Picks(h, order, i, block)
    ensures ListedDisjoint(AllocateBlock(h, order).0)
  {
    var r := AllocateBlock(h, order).0;
    forall j, a | 0 <= j <= MAX_ORDER && a in r.lists[j]
      ensures ApartFromListed(r, j, a)
    {
      AllocatedEntry(h, order, i, block, j, a);
      forall k, b | 0 <= k <= MAX_ORDER && b in r.lists[k] && (j != k || a != b)
        ensures Apart(a, BlockSize(j), b, BlockSize(k))
      {
        AllocatedEntry(h, order, i, block, k, b);
        if order <= j < i && order <= k < i {
          if j < k { BlockSizeMonotone(j, k); } else { BlockSizeMonotone(k, j); }
        } else if !(order <= j < i) && !(order <= k < i) {
          assert ApartFromListed(h, j, a);
        }
      }
    }
  }

  /** allocateBlock keeps the lists well formed and disjoint. */
  lemma AllocateBlockWf(h: Heap, order: nat)
    requires Wf(h) && order <= MAX_ORDER
    ensures Wf(AllocateBlock(h, order).0)
  {
    if FirstNonEmpty(h.lists, order).Some? {
      var i, block := Pick(h, order);
      AllocateBlockListsOk(h, order, i, block);
      AllocateBlockDisjoint(h, order, i, block);
    }
  }
}
