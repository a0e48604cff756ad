/**
 * The first-fit allocator (VM/malloc_2.cpp): one list of headers in the
 * order sbrk handed out their memory. A request reuses the first free block
 * that is large enough, whole; otherwise the break is moved and a new block
 * is appended. Freeing only sets the free flag, so the list never shrinks.
 *
 * The list is a `seq<Block>`; a block is identified by the address of its
 * header, and the pointer the caller sees is that address plus HEADER.
 * sbrk's answer is a parameter: `Some(b)` for the old break `b`, `None`
 * for (void*)-1.
 */
module FirstFit {
  import opened Wrappers
  import opened Effects
  import opened Sizes

  /** A header: where it is, the payload size it records, and whether it is free. */
  datatype Block = Block(addr: nat, size: nat, isFree: bool)

  datatype Alloc = Alloc(blocks: seq<Block>, ptr: Option<nat>)
  datatype Calloc = Calloc(alloc: Alloc, zeroed: Option<Region>)
  datatype Realloc = Realloc(blocks: seq<Block>, ptr: Option<nat>, moved: Option<Move>)

  /** The end of a block: its header, then its payload. */
  function End(b: Block): nat
  {
    b.addr + HEADER + b.size
  }

  /** Blocks lie in ascending address order and do not overlap, as successive sbrk calls lay them out. */
  predicate Wf(blocks: seq<Block>)
  {
    forall i, j | 0 <= i < j < |blocks| :: End(blocks[i]) <= blocks[j].addr
  }

  /** The break sbrk answers lies at or above the end of every block. */
  predicate FreshBreak(blocks: seq<Block>, brk: Option<nat>)
  {
    brk.Some? ==> forall i | 0 <= i < |blocks| :: End(blocks[i]) <= brk.value
  }

  predicate Fits(b: Block, size: nat)
  {
    b.isFree && b.size >= size
  }

  // ---------------------------------------------------------------- list operations

  /** The position of the first block at or after `i` that is free and holds `size` bytes. */
  function FirstFit(blocks: seq<Block>, size: nat, i: nat): (r: Option<nat>)
    requires i <= |blocks|
    ensures r.None? <==> forall j | i <= j < |blocks| :: !Fits(blocks[j], size)
    ensures r.Some? ==>
      && i <= r.value < |blocks| && Fits(blocks[r.value], size)
      && forall j | i <= j < r.value :: !Fits(blocks[j], size)
    decreases |blocks| - i
  {
    if i == |blocks| then None
    else if Fits(blocks[i], size) then Some(i)
    else FirstFit(blocks, size, i + 1)
  }

  /**
   * find_block: mark the first fitting block in use and return its
   * position. Its recorded size stays as it was: no block is split.
   */
  function FindBlock(blocks: seq<Block>, size: nat): (r: (seq<Block>, Option<nat>))
    ensures r.1.None? <==> forall j | 0 <= j < |blocks| :: !Fits(blocks[j], size)
    ensures r.1.None? ==> r.0 == blocks
    ensures r.1.Some? ==>
      var i := r.1.value;
      && i < |blocks| && Fits(blocks[i], size) && (forall j | 0 <= j < i :: !Fits(blocks[j], size))
      && |r.0| == |blocks| && r.0[i] == Block(blocks[i].addr, blocks[i].size, false)
      && (forall j | 0 <= j < |blocks| && j != i :: r.0[j] == blocks[j])
  {
    match FirstFit(blocks, size, 0)
    case None => (blocks, None)
    case Some(i) => (blocks[i := blocks[i].(isFree := false)], Some(i))
  }

  /** insertBlock: append a new block in use at the tail. */
  function InsertBlock(blocks: seq<Block>, addr: nat, size: nat): (r: seq<Block>)
    ensures |r| == |blocks| + 1 && r[..|blocks|] == blocks
    ensures r[|blocks|] == Block(addr, size, false)
  {
    blocks + [Block(addr, size, false)]
  }

  /** findElementPtr: the position of the first header whose payload starts at `p`. */
  function FindElementPtr(blocks: seq<Block>, p: nat, i: nat): (r: Option<nat>)
    requires i <= |blocks|
    ensures r.None? <==> forall j | i <= j < |blocks| :: blocks[j].addr + HEADER != p
    ensures r.Some? ==>
      && i <= r.value < |blocks| && blocks[r.value].addr + HEADER == p
      && forall j | i <= j < r.value :: blocks[j].addr + HEADER != p
    decreases |blocks| - i
  {
    if i == |blocks| then None
    else if blocks[i].addr + HEADER == p then Some(i)
    else FindElementPtr(blocks, p, i + 1)
  }

  /** On a well-formed list at most one header has its payload at `p`. */
  lemma FindElementUnique(blocks: seq<Block>, p: nat, k: nat)
    requires Wf(blocks) && k < |blocks| && blocks[k].addr + HEADER == p
    ensures FindElementPtr(blocks, p, 0) == Some(k)
  {
  }

  /**
   * freeBlock: set the free flag of the header in front of `p`. A pointer
   * that is no block's payload changes nothing here; the source would write
   * through it.
   */
  function FreeBlock(blocks: seq<Block>, p: nat): (r: seq<Block>)
    ensures |r| == |blocks|
    ensures forall j | 0 <= j < |blocks| ::
      && r[j].addr == blocks[j].addr && r[j].size == blocks[j].size
      && (r[j].isFree <==> blocks[j].isFree || FindElementPtr(blocks, p, 0) == Some(j))
  {
    match FindElementPtr(blocks, p, 0)
    case None => blocks
    case Some(i) => blocks[i := blocks[i].(isFree := true)]
  }

  // ---------------------------------------------------------------- smalloc, scalloc, sfree

  /**
   * smalloc: reject size 0 or above 10^8 without touching the list; reuse
   * the first fitting free block; otherwise sbrk(size + HEADER) and append a
   * header that records the payload size.
   */
  function Smalloc(blocks: seq<Block>, size: nat, brk: Option<nat>): (r: Alloc)
    ensures BadSize(size) ==> r == Alloc(blocks, None)
    ensures r.ptr.None? ==> r.blocks == blocks
    ensures |r.blocks| == |blocks| || (brk.Some? && r.blocks == InsertBlock(blocks, brk.value, size))
    ensures r.ptr.Some? ==> !BadSize(size) && exists i | 0 <= i < |r.blocks| ::
      r.blocks[i].addr + HEADER == r.ptr.value && !r.blocks[i].isFree && r.blocks[i].size >= size
  {
    if BadSize(size) then Alloc(blocks, None)
    else
      var (found, i) := FindBlock(blocks, size);
      match i
      case Some(i) => Alloc(found, Some(blocks[i].addr + HEADER))
      case None =>
        match brk
        case None => Alloc(blocks, None)
        case Some(b) =>
          var r := InsertBlock(blocks, b, size);
          assert r[|blocks|].addr + HEADER == b + HEADER;
          Alloc(r, Some(b + HEADER))
  }

  /** scalloc: smalloc(num * size), with the product taken modulo 2^64, then zero that many bytes. */
  function Scalloc(blocks: seq<Block>, num: nat, size: nat, brk: Option<nat>): (r: Calloc)
    ensures r.zeroed.Some? <==> r.alloc.ptr.Some?
    ensures r.alloc == Smalloc(blocks, SizeProduct(num, size), brk)
    ensures r.zeroed.Some? ==> r.zeroed.value == Region(r.alloc.ptr.value, SizeProduct(num, size))
  {
    var a := Smalloc(blocks, SizeProduct(num, size), brk);
    if a.ptr.None? then Calloc(a, None)
    else Calloc(a, Some(Region(a.ptr.value, SizeProduct(num, size))))
  }

  /** sfree: NULL is a no-op; otherwise only the free flag changes, and no block is ever removed. */
  function Sfree(blocks: seq<Block>, p: Option<nat>): (r: seq<Block>)
    ensures p.None? ==> r == blocks
    ensures |r| == |blocks|
    ensures forall j | 0 <= j < |blocks| :: r[j].addr == blocks[j].addr && r[j].size == blocks[j].size
  {
    match p
    case None => blocks
    case Some(q) => FreeBlock(blocks, q)
  }

  // ---------------------------------------------------------------- srealloc

  /**
   * srealloc: reject size 0 or above 10^8; a NULL or unknown pointer behaves
   * as smalloc; a block that already holds `size` bytes is kept; otherwise
   * allocate, copy the old payload, free the old block.
   */
  function Srealloc(blocks: seq<Block>, oldp: Option<nat>, size: nat, brk: Option<nat>): (r: Realloc)
    ensures BadSize(size) ==> r == Realloc(blocks, None, None)
    ensures r.ptr.None? ==> r.blocks == blocks
  {
    if BadSize(size) then Realloc(blocks, None, None)
    else
      var found := if oldp.None? then None else FindElementPtr(blocks, oldp.value, 0);
      match found
      case None =>
        var a := Smalloc(blocks, size, brk);
        Realloc(a.blocks, a.ptr, None)
      case Some(i) =>
        if blocks[i].size >= size then Realloc(blocks, oldp, None)
        else
          var a := Smalloc(blocks, size, brk);
          if a.ptr.None? then Realloc(blocks, None, None)
          else Realloc(Sfree(a.blocks, oldp), a.ptr, Some(Move(oldp.value, a.ptr.value, blocks[i].size)))
  }

  // ---------------------------------------------------------------- statistics

  /** Reference definitions of the five walks, element by element from the front. */
  function CountFree(blocks: seq<Block>): nat
  {
    if blocks == [] then 0
    else CountFree(blocks[..|blocks| - 1]) + (if blocks[|blocks| - 1].isFree then 1 else 0)
  }

  function SumFree(blocks: seq<Block>): nat
  {
    if blocks == [] then 0
    else SumFree(blocks[..|blocks| - 1]) + (if blocks[|blocks| - 1].isFree then blocks[|blocks| - 1].size else 0)
  }

  function SumAll(blocks: seq<Block>): nat
  {
    if blocks == [] then 0 else SumAll(blocks[..|blocks| - 1]) + blocks[|blocks| - 1].size
  }

  /** _num_free_blocks: the walk counts the free headers. */
  method NumFreeBlocks(blocks: seq<Block>) returns (count: nat)
    ensures count == CountFree(blocks) && count <= |blocks|
  {
    count := 0;
    var i := 0;
    while i < |blocks|
      invariant 0 <= i <= |blocks|
      invariant count == CountFree(blocks[..i]) && count <= i
    {
      assert blocks[..i + 1][..i] == blocks[..i];
      if blocks[i].isFree {
        count := count + 1;
      }
      i := i + 1;
    }
    assert blocks[..i] == blocks;
  }

  /** _num_free_bytes: the walk adds the recorded sizes of the free headers. */
  method NumFreeBytes(blocks: seq<Block>) returns (bytes: nat)
    ensures bytes == SumFree(blocks) && bytes <= SumAll(blocks)
  {
    bytes := 0;
    var all := 0;
    var i := 0;
    while i < |blocks|
      invariant 0 <= i <= |blocks|
      invariant bytes == SumFree(blocks[..i]) && all == SumAll(blocks[..i]) && bytes <= all
    {
      assert blocks[..i + 1][..i] == blocks[..i];
      if blocks[i].isFree {
        bytes := bytes + blocks[i].size;
      }
      all := all + blocks[i].size;
      i := i + 1;
    }
    assert blocks[..i] == blocks;
  }

  /** _num_allocated_blocks: the walk counts every header. */
  method NumAllocatedBlocks(blocks: seq<Block>) returns (count: nat)
    ensures count == |blocks|
  {
    count := 0;
    var i := 0;
    while i < |blocks|
      invariant 0 <= i <= |blocks| && count == i
    {
      count := count + 1;
      i := i + 1;
    }
  }

  /** _num_allocated_bytes: the walk adds every recorded size. */
  method NumAllocatedBytes(blocks: seq<Block>) returns (bytes: nat)
    ensures bytes == SumAll(blocks)
  {
    bytes := 0;
    var i := 0;
    while i < |blocks|
      invariant 0 <= i <= |blocks| && bytes == SumAll(blocks[..i])
    {
      assert blocks[..i + 1][..i] == blocks[..i];
      bytes := bytes + blocks[i].size;
      i := i + 1;
    }
    assert blocks[..i] == blocks;
  }

  /** _num_meta_data_bytes: one header per block. */
  method NumMetaDataBytes(blocks: seq<Block>) returns (bytes: nat)
    ensures bytes == |blocks| * HEADER
  {
    var count := NumAllocatedBlocks(blocks);
    bytes := count * HEADER;
  }

  /** The counts and sums split over a concatenation. */
  lemma {:induction false} WalksAppend(a: seq<Block>, b: Block)
    ensures CountFree(a + [b]) == CountFree(a) + (if b.isFree then 1 else 0)
    ensures SumFree(a + [b]) == SumFree(a) + (if b.isFree then b.size else 0)
    ensures SumAll(a + [b]) == SumAll(a) + b.size
  {
    assert (a + [b])[..|a + [b]| - 1] == a;
  }

  /** Rewriting one entry moves the free count by the change in that entry's flag. */
  lemma {:induction false} CountFreeUpdate(s: seq<Block>, i: nat, x: Block)
    requires i < |s|
    ensures CountFree(s[i := x]) + (if s[i].isFree then 1 else 0) == CountFree(s) + (if x.isFree then 1 else 0)
    decreases |s|
  {
    var t := s[i := x];
    var n := |s| - 1;
    assert t[..n] == if i < n then s[..n][i := x] else s[..n];
    if i < n {
      CountFreeUpdate(s[..n], i, x);
    }
  }

  // ---------------------------------------------------------------- properties

  /** smalloc keeps the list well formed when sbrk answers a break above every block. */
  lemma SmallocWf(blocks: seq<Block>, size: nat, brk: Option<nat>)
    requires Wf(blocks) && FreshBreak(blocks, brk)
    ensures Wf(Smalloc(blocks, size, brk).blocks)
  {
  }

  /** sfree keeps the list well formed: addresses and sizes do not change. */
  lemma SfreeWf(blocks: seq<Block>, p: Option<nat>)
    requires Wf(blocks)
    ensures Wf(Sfree(blocks, p))
  {
    var r := Sfree(blocks, p);
    forall i, j | 0 <= i < j < |r|
      ensures End(r[i]) <= r[j].addr
    {
      assert End(r[i]) == End(blocks[i]);
    }
  }

  /** smalloc when a block fits: the first fitting block, marked in use. */
  lemma SmallocReuses(blocks: seq<Block>, size: nat, brk: Option<nat>, i: nat)
    requires !BadSize(size) && FirstFit(blocks, size, 0) == Some(i)
    ensures Smalloc(blocks, size, brk) == Alloc(blocks[i := blocks[i].(isFree := false)], Some(blocks[i].addr + HEADER))
  {
  }

  /** smalloc when no block fits and sbrk succeeds: a new block in use at the tail. */
  lemma SmallocAppends(blocks: seq<Block>, size: nat, b: nat)
    requires !BadSize(size) && FirstFit(blocks, size, 0).None?
    ensures Smalloc(blocks, size, Some(b)) == Alloc(blocks + [Block(b, size, false)], Some(b + HEADER))
  {
  }

  /** Freeing the payload of block k, on a well-formed list, sets exactly k's flag. */
  lemma SfreeAt(blocks: seq<Block>, k: nat)
    requires Wf(blocks) && k < |blocks|
    ensures Sfree(blocks, Some(blocks[k].addr + HEADER)) == blocks[k := blocks[k].(isFree := true)]
  {
    FindElementUnique(blocks, blocks[k].addr + HEADER, k);
  }

  /** Marking one block in use keeps the list well formed. */
  lemma MarkKeepsWf(blocks: seq<Block>, i: nat, free: bool)
    requires Wf(blocks) && i < |blocks|
    ensures Wf(blocks[i := blocks[i].(isFree := free)])
  {
    var used := blocks[i := blocks[i].(isFree := free)];
    forall x, y | 0 <= x < y < |used|
      ensures End(used[x]) <= used[y].addr
    {
      assert End(used[x]) == End(blocks[x]) && used[y].addr == blocks[y].addr;
    }
  }

  /** Appending a block at or above every block's end keeps the list well formed. */
  lemma AppendKeepsWf(blocks: seq<Block>, b: Block)
    requires Wf(blocks) && forall i | 0 <= i < |blocks| :: End(blocks[i]) <= b.addr
    ensures Wf(blocks + [b])
  {
    var grown := blocks + [b];
    forall x, y | 0 <= x < y < |grown|
      ensures End(grown[x]) <= grown[y].addr
    {
      assert grown[x] == blocks[x];
    }
  }

  /** smalloc reusing block i, then sfree of its pointer, gives the list back. */
  lemma ReuseRoundTrip(blocks: seq<Block>, size: nat, brk: Option<nat>, i: nat)
    requires Wf(blocks) && !BadSize(size) && FirstFit(blocks, size, 0) == Some(i)
    ensures var a := Smalloc(blocks, size, brk);
      Sfree(a.blocks, a.ptr) == blocks
  {
    SmallocReuses(blocks, size, brk, i);
    var used := blocks[i := blocks[i].(isFree := false)];
    MarkKeepsWf(blocks, i, false);
    SfreeAt(used, i);
    assert used[i := used[i].(isFree := true)] == blocks;
  }

  /** Freeing the payload of a block appended above every other block marks exactly that block free. */
  lemma FreeAppended(blocks: seq<Block>, size: nat, b: nat)
    requires Wf(blocks) && FreshBreak(blocks, Some(b))
    ensures Sfree(blocks + [Block(b, size, false)], Some(b + HEADER)) == blocks + [Block(b, size, true)]
  {
    var grown := blocks + [Block(b, size, false)];
    AppendKeepsWf(blocks, Block(b, size, false));
    SfreeAt(grown, |blocks|);
    assert grown[|blocks| := grown[|blocks|].(isFree := true)] == blocks + [Block(b, size, true)];
  }

  /** smalloc from sbrk, then sfree of its pointer, leaves the new block at the tail, free. */
  lemma AppendRoundTrip(blocks: seq<Block>, size: nat, b: nat)
    requires Wf(blocks) && FreshBreak(blocks, Some(b)) && !BadSize(size) && FirstFit(blocks, size, 0).None?
    ensures var a := Smalloc(blocks, size, Some(b));
      Sfree(a.blocks, a.ptr) == blocks + [Block(b, size, true)]
  {
    SmallocAppends(blocks, size, b);
    FreeAppended(blocks, size, b);
  }

  /**
   * smalloc then sfree of the pointer it returned: a reused block is free
   * again and the list is as before; a block from sbrk stays, at the tail,
   * free.
   */
  lemma SmallocSfreeRoundTrip(blocks: seq<Block>, size: nat, brk: Option<nat>)
    requires Wf(blocks) && FreshBreak(blocks, brk)
    ensures var a := Smalloc(blocks, size, brk);
      a.ptr.Some? ==>
        if FirstFit(blocks, size, 0).Some? then Sfree(a.blocks, a.ptr) == blocks
        else brk.Some? && Sfree(a.blocks, a.ptr) == blocks + [Block(brk.value, size, true)]
  {
    if !BadSize(size) {
      match FirstFit(blocks, size, 0)
      case Some(i) => ReuseRoundTrip(blocks, size, brk, i);
      case None =>
        if brk.Some? {
          AppendRoundTrip(blocks, size, brk.value);
        }
    }
  }

  /**
   * The statistics across smalloc: reusing a block takes one off the free
   * count and leaves the block count; sbrk adds one block, in use.
   */
  lemma SmallocCounts(blocks: seq<Block>, size: nat, brk: Option<nat>)
    ensures var a := Smalloc(blocks, size, brk);
      && (a.ptr.Some? && FirstFit(blocks, size, 0).Some? ==>
            |a.blocks| == |blocks| && CountFree(a.blocks) + 1 == CountFree(blocks))
      && (a.ptr.Some? && FirstFit(blocks, size, 0).None? ==>
            |a.blocks| == |blocks| + 1 && CountFree(a.blocks) == CountFree(blocks))
      && (a.ptr.None? ==> a.blocks == blocks)
  {
    var a := Smalloc(blocks, size, brk);
    if a.ptr.Some? {
      match FirstFit(blocks, size, 0)
      case Some(i) =>
        CountFreeUpdate(blocks, i, blocks[i].(isFree := false));
      case None =>
        WalksAppend(blocks, Block(brk.value, size, false));
    }
  }

  /** The walks never report more free blocks or bytes than allocated ones. */
  lemma {:induction false} FreeAtMostAllocated(blocks: seq<Block>)
    ensures CountFree(blocks) <= |blocks| && SumFree(blocks) <= SumAll(blocks)
  {
    if blocks != [] {
      FreeAtMostAllocated(blocks[..|blocks| - 1]);
    }
  }

  /**
   * The block a successful smalloc hands out: the first fitting one, or the
   * new tail; it is in use, large enough, and the list stays well formed.
   */
  lemma SmallocOwner(blocks: seq<Block>, size: nat, brk: Option<nat>) returns (j: nat)
    requires Wf(blocks) && FreshBreak(blocks, brk) && Smalloc(blocks, size, brk).ptr.Some?
    ensures var a := Smalloc(blocks, size, brk);
      && Wf(a.blocks) && j < |a.blocks| && a.blocks[j].addr + HEADER == a.ptr.value
      && !a.blocks[j].isFree && a.blocks[j].size >= size
      && (j < |blocks| ==> Fits(blocks[j], size))
      && |a.blocks| >= |blocks| && forall x | 0 <= x < |blocks| && x != j :: a.blocks[x] == blocks[x]
  {
    match FirstFit(blocks, size, 0)
    case Some(i) =>
      SmallocReuses(blocks, size, brk, i);
      MarkKeepsWf(blocks, i, false);
      j := i;
    case None =>
      SmallocAppends(blocks, size, brk.value);
      AppendKeepsWf(blocks, Block(brk.value, size, false));
      j := |blocks|;
  }

  /** srealloc of block k when it is too small: smalloc, then copy and sfree, or NULL. */
  lemma SreallocGrowUnfold(blocks: seq<Block>, k: nat, size: nat, brk: Option<nat>)
    requires Wf(blocks) && k < |blocks| && !BadSize(size) && blocks[k].size < size
    ensures var q := blocks[k].addr + HEADER;
      var a := Smalloc(blocks, size, brk);
      Srealloc(blocks, Some(q), size, brk)
        == if a.ptr.None? then Realloc(blocks, None, None)
           else Realloc(Sfree(a.blocks, Some(q)), a.ptr, Some(Move(q, a.ptr.value, blocks[k].size)))
  {
    FindElementUnique(blocks, blocks[k].addr + HEADER, k);
  }

  /** The successful move of a too-small block k. */
  lemma SreallocMoves(blocks: seq<Block>, k: nat, size: nat, brk: Option<nat>)
    requires Wf(blocks) && FreshBreak(blocks, brk) && k < |blocks| && !BadSize(size) && blocks[k].size < size
    requires Smalloc(blocks, size, brk).ptr.Some?
    ensures var q := blocks[k].addr + HEADER;
      var r := Srealloc(blocks, Some(q), size, brk);
      && r.ptr.Some? && r.ptr != Some(q) && r.moved == Some(Move(q, r.ptr.value, blocks[k].size))
      && |r.blocks| >= |blocks| && r.blocks[k].isFree
      && exists i | 0 <= i < |r.blocks| ::
           r.blocks[i].addr + HEADER == r.ptr.value && !r.blocks[i].isFree && r.blocks[i].size >= size
  {
    var q := blocks[k].addr + HEADER;
    SreallocGrowUnfold(blocks, k, size, brk);
    var a := Smalloc(blocks, size, brk);
    var j := SmallocOwner(blocks, size, brk);
    assert j != k;
    assert a.blocks[k] == blocks[k];
    SfreeAt(a.blocks, k);
    var freed := a.blocks[k := a.blocks[k].(isFree := true)];
    assert freed[j] == a.blocks[j];
    assert a.ptr.value != q by {
      if j < |blocks| {
        if j < k { assert End(blocks[j]) <= blocks[k].addr; }
        else { assert End(blocks[k]) <= blocks[j].addr; }
      } else {
        assert End(blocks[k]) <= brk.value;
      }
    }
  }

  /**
   * srealloc of a known block: kept when it holds `size` bytes; otherwise,
   * when allocation succeeds, the old payload (its recorded size) is copied
   * to the new block, the old block is marked free, and the new one is in use
   * and large enough; when allocation fails the list is untouched.
   */
  lemma SreallocKnown(blocks: seq<Block>, k: nat, size: nat, brk: Option<nat>)
    requires Wf(blocks) && FreshBreak(blocks, brk) && k < |blocks| && !BadSize(size)
    ensures var q := blocks[k].addr + HEADER;
      var r := Srealloc(blocks, Some(q), size, brk);
      && (blocks[k].size >= size ==> r == Realloc(blocks, Some(q), None))
      && (blocks[k].size < size && r.ptr.Some? ==>
            && r.ptr != Some(q) && r.moved == Some(Move(q, r.ptr.value, blocks[k].size))
            && |r.blocks| >= |blocks| && r.blocks[k].isFree)
      && (r.ptr.None? ==> r.blocks == blocks)
  {
    FindElementUnique(blocks, blocks[k].addr + HEADER, k);
    if blocks[k].size < size {
      SreallocGrowUnfold(blocks, k, size, brk);
      if Smalloc(blocks, size, brk).ptr.Some? {
        SreallocMoves(blocks, k, size, brk);
      }
    }
  }

  /** srealloc of NULL or of a pointer no header owns is smalloc. */
  lemma SreallocUnknown(blocks: seq<Block>, oldp: Option<nat>, size: nat, brk: Option<nat>)
    requires !BadSize(size)
    requires oldp.Some? ==> forall j | 0 <= j < |blocks| :: blocks[j].addr + HEADER != oldp.value
    ensures var r := Srealloc(blocks, oldp, size, brk);
      var a := Smalloc(blocks, size, brk);
      r == Realloc(a.blocks, a.ptr, None)
  {
  }

  // ---------------------------------------------------------------- scalloc overflow

  /**
   * As written: scalloc(2^63 + 1, 2) computes (2^63 + 1) * 2 mod 2^64 = 2,
   * so it hands out (and zeroes) a 2-byte block for a request of 2^64 + 2 bytes.
   */
  lemma ScallocWraps(blocks: seq<Block>, brk: Option<nat>)
    ensures var r := Scalloc(blocks, WRAPPING_NUM, 2, brk);
      && WRAPPING_NUM * 2 > SIZE_LIMIT && r.alloc == Smalloc(blocks, 2, brk)
      && (r.alloc.ptr.Some? ==> r.zeroed == Some(Region(r.alloc.ptr.value, 2)))
  {
    WrappingProduct();
  }

  /** scalloc as evidently intended: the product is not reduced, so an overflowing request is refused. */
  function ScallocChecked(blocks: seq<Block>, num: nat, size: nat, brk: Option<nat>): (r: Calloc)
    ensures r.zeroed.Some? <==> r.alloc.ptr.Some?
    ensures r.zeroed.Some? ==> r.zeroed.value == Region(r.alloc.ptr.value, num * size) && 0 < num * size <= SIZE_LIMIT
  {
    var a := Smalloc(blocks, num * size, brk);
    if a.ptr.None? then Calloc(a, None)
    else Calloc(a, Some(Region(a.ptr.value, num * size)))
  }

  /** The two agree whenever the product fits in 64 bits. */
  lemma ScallocCheckedAgrees(blocks: seq<Block>, num: nat, size: nat, brk: Option<nat>)
    ensures num * size < SIZE_T_MODULUS ==> ScallocChecked(blocks, num, size, brk) == Scalloc(blocks, num, size, brk)
  {
    var p := num * size;
    if p < SIZE_T_MODULUS {
      ProductFits(num, size, p);
    }
  }

  /** The checked scalloc refuses the request that wraps in ScallocWraps and leaves the list alone. */
  lemma ScallocCheckedRefuses(blocks: seq<Block>, brk: Option<nat>)
    ensures ScallocChecked(blocks, WRAPPING_NUM, 2, brk) == Calloc(Alloc(blocks, None), None)
  {
    WrappingProduct();
  }
}
