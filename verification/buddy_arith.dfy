/**
 * Constants and address arithmetic of the buddy allocator (VM/malloc_3.cpp).
 *
 * Orders run from 0 to MAX_ORDER; a block of order k is 2^(k+7) bytes.
 * The buddy of a block is found with a bitwise XOR of its address and its
 * size; `Xor` is that operation on natural numbers and `XorSingleBit`
 * shows that, for a power-of-two size, it just adds or subtracts the size.
 */
module BuddyArith {
  import opened Sizes

  const MAX_ORDER: nat := 10
  const MAX_BLOCK_SIZE: nat := 131072
  const PAGE_SIZE: nat := 4096
  const INITIAL_BLOCKS: nat := 32
  /** 32 * 128 KB: the arena start is rounded up to this boundary. */
  const ALIGNMENT: nat := 4194304

  function Pow2(k: nat): (r: nat)
    ensures r >= 1
  {
    if k == 0 then 1 else 2 * Pow2(k - 1)
  }

  /** Size in bytes (header included) of a block of the given order. */
  function BlockSize(order: nat): nat
  {
    Pow2(order + 7)
  }

  lemma BlockSizeFacts()
    ensures BlockSize(0) == 128
    ensures BlockSize(MAX_ORDER) == MAX_BLOCK_SIZE
    ensures INITIAL_BLOCKS * MAX_BLOCK_SIZE == ALIGNMENT
  {
    assert Pow2(7) == 128;
    assert Pow2(17) == 131072;
  }

  lemma {:induction false} BlockSizeMonotone(j: nat, k: nat)
    requires j <= k
    ensures BlockSize(j) <= BlockSize(k)
    ensures j < k ==> 2 * BlockSize(j) <= BlockSize(k)
    decreases k - j
  {
    if j < k {
      BlockSizeMonotone(j, k - 1);
    }
  }

  /** Every block size divides the arena alignment. */
  lemma {:induction false} BlockSizeDividesAlignment(k: nat)
    requires k <= MAX_ORDER
    ensures ALIGNMENT % BlockSize(k) == 0
    ensures MAX_BLOCK_SIZE % BlockSize(k) == 0
    decreases MAX_ORDER - k
  {
    if k == MAX_ORDER {
      BlockSizeFacts();
    } else {
      BlockSizeDividesAlignment(k + 1);
      var s := BlockSize(k);
      assert BlockSize(k + 1) == 2 * s;
      DivModUnique(2 * s, s, 2, 0);
      MultipleOfMultiple(ALIGNMENT, 2 * s, s);
      MultipleOfMultiple(MAX_BLOCK_SIZE, 2 * s, s);
    }
  }

  lemma MultipleOfMultiple(a: nat, m: nat, s: nat)
    requires s > 0 && m % s == 0 && m > 0 && a % m == 0
    ensures a % s == 0
  {
    var p := a / m;
    var q := m / s;
    assert a == m * p;
    assert m == s * q;
    assert a == s * (q * p);
    DivModUnique(a, s, q * p, 0);
  }

  lemma {:induction false} MulAtLeast(p: int, d: int)
    requires p > 0 && d >= 1
    ensures p * d >= p
    decreases d
  {
    if d > 1 {
      MulAtLeast(p, d - 1);
      assert p * d == p * (d - 1) + p;
    }
  }

  /** Euclidean division is determined by quotient and remainder. */
  lemma DivModUnique(x: int, p: int, q: int, r: int)
    requires p > 0 && 0 <= r < p && x == p * q + r
    ensures x / p == q && x % p == r
  {
    var q' := x / p;
    var r' := x % p;
    assert x == p * q' + r';
    if q' > q {
      MulAtLeast(p, q' - q);
      assert false;
    } else if q' < q {
      MulAtLeast(p, q - q');
      assert false;
    }
  }

  /** Bitwise exclusive or of two natural numbers. */
  function Xor(a: nat, b: nat): nat
    decreases a + b
  {
    if a == 0 then b
    else if b == 0 then a
    else 2 * Xor(a / 2, b / 2) + (if a % 2 == b % 2 then 0 else 1)
  }

  /** The buddy of the block at `addr` whose current size is `size` (`addr ^ size`). */
  function BuddyOf(addr: nat, size: nat): nat
  {
    Xor(addr, size)
  }

  lemma HalveQuotient(a: nat, p: nat)
    requires p > 0
    ensures (a / 2) / p == a / (2 * p)
  {
    var q := a / (2 * p);
    var r := a % (2 * p);
    assert a == (2 * p) * q + r;
    assert a == 2 * (p * q + r / 2) + r % 2;
    DivModUnique(a, 2, p * q + r / 2, r % 2);
    DivModUnique(a / 2, p, q, r / 2);
  }

  /** Flipping the single bit 2^k adds 2^k when that bit is clear and subtracts it when set. */
  lemma {:induction false} XorSingleBit(a: nat, k: nat)
    ensures (a / Pow2(k)) % 2 == 0 ==> Xor(a, Pow2(k)) == a + Pow2(k)
    ensures (a / Pow2(k)) % 2 == 1 ==> Xor(a, Pow2(k)) == a - Pow2(k) && a >= Pow2(k)
  {
    if k == 0 {
      assert Pow2(0) == 1;
    } else if a == 0 {
      assert 0 / Pow2(k) == 0;
    } else {
      var p := Pow2(k - 1);
      var h := a / 2;
      assert Pow2(k) == 2 * p;
      XorSingleBit(h, k - 1);
      assert a / Pow2(k) == h / p by {
        HalveQuotient(a, p);
      }
      XorDouble(a, p);
    }
  }

  /** Xor with an even number, one step of the recursion. */
  lemma XorDouble(a: nat, p: nat)
    requires a > 0 && p > 0
    ensures Xor(a, 2 * p) == 2 * Xor(a / 2, p) + a % 2
    ensures a == 2 * (a / 2) + a % 2
  {
    assert (2 * p) / 2 == p && (2 * p) % 2 == 0;
  }

  lemma EvenMultiple(a: int, s: int, q: int)
    requires s > 0 && a == s * q && q % 2 == 0 && q >= 0
    ensures a % (2 * s) == 0 && a / s == q
  {
    var h := q / 2;
    assert q == 2 * h;
    assert a == (2 * s) * h;
    DivModUnique(a, 2 * s, h, 0);
    DivModUnique(a, s, q, 0);
  }

  lemma NextMultiple(a: nat, s: nat, q: nat)
    requires s > 0 && a == s * q
    ensures (a + s) % s == 0 && (a + s) / s == q + 1
  {
    assert a + s == s * (q + 1);
    DivModUnique(a + s, s, q + 1, 0);
  }

  lemma MultipleDecomposition(a: nat, s: nat)
    requires s > 0 && a % s == 0
    ensures a == s * (a / s)
  {
  }

  /** Lower half of a pair: its buddy is the block just above it. */
  lemma BuddyOfLower(a: nat, k: nat)
    requires a % Pow2(k) == 0 && (a / Pow2(k)) % 2 == 0
    ensures BuddyOf(a, Pow2(k)) == a + Pow2(k)
    ensures a % (2 * Pow2(k)) == 0
  {
    XorSingleBit(a, k);
    MultipleDecomposition(a, Pow2(k));
    EvenMultiple(a, Pow2(k), a / Pow2(k));
  }

  lemma OddMultiple(a: int, s: int, q: int)
    requires s > 0 && a == s * q && q % 2 == 1 && q >= 0
    ensures a >= s && (a - s) % (2 * s) == 0 && (a - s) / s == q - 1 && (a - s) % s == 0
  {
    MulAtLeast(s, q);
    assert a - s == s * (q - 1);
    EvenMultiple(a - s, s, q - 1);
    DivModUnique(a - s, s, q - 1, 0);
  }

  /** Upper half of a pair: its buddy is the block just below it. */
  lemma BuddyOfUpper(a: nat, k: nat)
    requires a % Pow2(k) == 0 && (a / Pow2(k)) % 2 == 1
    ensures a >= Pow2(k) && BuddyOf(a, Pow2(k)) == a - Pow2(k)
    ensures (a - Pow2(k)) % (2 * Pow2(k)) == 0
  {
    XorSingleBit(a, k);
    MultipleDecomposition(a, Pow2(k));
    OddMultiple(a, Pow2(k), a / Pow2(k));
  }

  /** The block above an aligned lower half is an upper half. */
  lemma AboveLowerIsUpper(a: nat, k: nat)
    requires a % Pow2(k) == 0 && (a / Pow2(k)) % 2 == 0
    ensures (a + Pow2(k)) % Pow2(k) == 0 && ((a + Pow2(k)) / Pow2(k)) % 2 == 1
  {
    MultipleDecomposition(a, Pow2(k));
    NextMultiple(a, Pow2(k), a / Pow2(k));
  }

  /** The block below an aligned upper half is a lower half. */
  lemma BelowUpperIsLower(a: nat, k: nat)
    requires a % Pow2(k) == 0 && (a / Pow2(k)) % 2 == 1
    ensures a >= Pow2(k)
    ensures (a - Pow2(k)) % Pow2(k) == 0 && ((a - Pow2(k)) / Pow2(k)) % 2 == 0
  {
    MultipleDecomposition(a, Pow2(k));
    OddMultiple(a, Pow2(k), a / Pow2(k));
  }

  /**
   * For a block aligned to its own size 2^k, the XOR buddy is the other half
   * of the enclosing 2^(k+1)-aligned pair, is itself aligned, and the buddy
   * relation is symmetric.
   */
  lemma BuddyPair(a: nat, k: nat)
    requires a % Pow2(k) == 0
    ensures var s := Pow2(k); var b := BuddyOf(a, s);
      && b % s == 0
      && b != a
      && BuddyOf(b, s) == a
      && (a < b ==> b == a + s && a % (2 * s) == 0)
      && (b < a ==> a == b + s && b % (2 * s) == 0)
  {
    var s := Pow2(k);
    if (a / s) % 2 == 0 {
      BuddyOfLower(a, k);
      AboveLowerIsUpper(a, k);
      BuddyOfUpper(a + s, k);
    } else {
      BuddyOfUpper(a, k);
      BelowUpperIsLower(a, k);
      BuddyOfLower(a - s, k);
    }
  }

  /** Splitting a 2^(k+1)-aligned block: its upper half is its XOR buddy at size 2^k. */
  lemma SplitHalves(a: nat, k: nat)
    requires a % Pow2(k + 1) == 0
    ensures a % Pow2(k) == 0
    ensures BuddyOf(a, Pow2(k)) == a + Pow2(k)
    ensures (a + Pow2(k)) % Pow2(k) == 0
  {
    var s := Pow2(k);
    assert Pow2(k + 1) == 2 * s;
    var m := a / (2 * s);
    assert a == (2 * s) * m;
    assert a == s * (2 * m);
    DivModUnique(a, s, 2 * m, 0);
    BuddyOfLower(a, k);
    AboveLowerIsUpper(a, k);
  }

  /** The lower address of a pair is the start of the merged block and is aligned to it. */
  lemma MergedAligned(a: nat, k: nat)
    requires a % Pow2(k) == 0
    ensures var b := BuddyOf(a, Pow2(k)); var lo := if b < a then b else a;
      lo % Pow2(k + 1) == 0 && (lo == a || lo + Pow2(k) == a)
  {
    BuddyPair(a, k);
  }

  /** `(x + al - 1) & ~(al - 1)` for a power-of-two `al`, written arithmetically. */
  function AlignUp(x: nat, al: nat): (r: nat)
    requires al > 0
    ensures r % al == 0 && x <= r < x + al
  {
    var q := (x + al - 1) / al;
    var rem := (x + al - 1) % al;
    assert x + al - 1 == al * q + rem;
    DivModUnique(al * q, al, q, 0);
    al * q
  }

  /** AlignUp is the least multiple of `al` that is not below `x`. */
  lemma AlignUpIsLeast(x: nat, al: nat, m: nat)
    requires al > 0 && m % al == 0 && m >= x
    ensures AlignUp(x, al) <= m
  {
    var r := AlignUp(x, al);
    if m < r {
      var d := (r - m) / al;
      assert r - m == al * d by {
        assert r == al * (r / al);
        assert m == al * (m / al);
        assert r - m == al * (r / al - m / al);
        DivModUnique(r - m, al, r / al - m / al, 0);
      }
      MulAtLeast(al, d);
      assert false;
    }
  }

  /*
   * AlignUp at the two boundaries the allocator uses. The divisors PAGE_SIZE
   * and ALIGNMENT are written out as literals so that the arithmetic stays
   * linear for the solver; the two lemmas after them tie them to AlignUp.
   */

  /** The page-rounded length of an mmap request. */
  function PageRound(n: nat): (r: nat)
    ensures r % 4096 == 0 && n <= r < n + 4096
  {
    ((n + 4095) / 4096) * 4096
  }

  /** The program break rounded up to the next 4 MB boundary. */
  function ArenaStart(brk: nat): (r: nat)
    ensures r % 4194304 == 0 && brk <= r < brk + 4194304
  {
    ((brk + 4194303) / 4194304) * 4194304
  }

  lemma PageRoundIsAlignUp(n: nat)
    ensures PageRound(n) == AlignUp(n, PAGE_SIZE)
  {
  }

  lemma ArenaStartIsAlignUp(brk: nat)
    ensures ArenaStart(brk) == AlignUp(brk, ALIGNMENT)
  {
  }

  /**
   * `max(0, ceil(log2(n)) - 7)`: the least order whose block holds `n` bytes.
   * The source computes it with floating point; this is the integer version.
   */
  function OrderFor(n: nat): (k: nat)
    requires n <= MAX_BLOCK_SIZE
    ensures k <= MAX_ORDER && n <= BlockSize(k)
    ensures forall j :: 0 <= j < k ==> BlockSize(j) < n
  {
    BlockSizeFacts();
    OrderFrom(n, 0)
  }

  function OrderFrom(n: nat, k: nat): (r: nat)
    requires k <= MAX_ORDER && n <= BlockSize(MAX_ORDER)
    requires forall j :: 0 <= j < k ==> BlockSize(j) < n
    ensures k <= r <= MAX_ORDER && n <= BlockSize(r)
    ensures forall j :: 0 <= j < r ==> BlockSize(j) < n
    decreases MAX_ORDER - k
  {
    if n <= BlockSize(k) then k else OrderFrom(n, k + 1)
  }

  /** The order of a block of exactly BlockSize(k) bytes is k. */
  lemma OrderForBlockSize(k: nat)
    requires k <= MAX_ORDER
    ensures BlockSize(k) <= MAX_BLOCK_SIZE && OrderFor(BlockSize(k)) == k
  {
    BlockSizeFacts();
    BlockSizeMonotone(k, MAX_ORDER);
    var r := OrderFor(BlockSize(k));
    if r < k {
      BlockSizeMonotone(r, k);
    }
  }
}
