/**
 * What the two allocators share: the header layout, the request limit and
 * size_t multiplication.
 */
module Sizes {

  /** sizeof(MallocMetadata) on an LP64 target: size, is_free (padded), next, prev. */
  const HEADER: nat := 32

  /** pow(10, 8): the largest request either allocator accepts. */
  const SIZE_LIMIT: nat := 100000000

  /** 2^64: size_t arithmetic wraps modulo this. */
  const SIZE_T_MODULUS: nat := 0x1_0000_0000_0000_0000

  /** Whether a request size is rejected outright (size 0 or above 10^8). */
  predicate BadSize(size: nat)
  {
    size == 0 || size > SIZE_LIMIT
  }

  /** `num * size` as size_t computes it: modulo 2^64. */
  function SizeProduct(num: nat, size: nat): nat
  {
    (num * size) % SIZE_T_MODULUS
  }

  /** The product a request of 2^63 + 1 elements of 2 bytes wraps to. */
  const WRAPPING_NUM: nat := 0x8000_0000_0000_0001

  /** size_t reduces (2^63 + 1) * 2 to 2, although the true product is far above the limit. */
  lemma WrappingProduct()
    ensures SizeProduct(WRAPPING_NUM, 2) == 2 && WRAPPING_NUM * 2 > SIZE_LIMIT && BadSize(WRAPPING_NUM * 2)
  {
    assert WRAPPING_NUM * 2 == SIZE_T_MODULUS + 2;
  }

  /** A product below 2^64 is not reduced. */
  lemma ProductFits(num: nat, size: nat, p: nat)
    requires p == num * size && p < SIZE_T_MODULUS
    ensures SizeProduct(num, size) == p
  {
  }

  /** The size_t product is below 2^64, congruent to the true product, and equal to it when it fits. */
  lemma SizeProductRange(num: nat, size: nat)
    ensures SizeProduct(num, size) < SIZE_T_MODULUS
    ensures (num * size - SizeProduct(num, size)) % SIZE_T_MODULUS == 0
    ensures num * size < SIZE_T_MODULUS ==> SizeProduct(num, size) == num * size
  {
    var p := num * size;
    assert p == (p / SIZE_T_MODULUS) * SIZE_T_MODULUS + p % SIZE_T_MODULUS;
  }
}
