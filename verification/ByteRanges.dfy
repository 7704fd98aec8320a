/** Equal-sized blocks laid out one after another in a byte region, as the channel lays out its
    slots and the memory pool its buffers. */
module ByteRanges {

  /** First byte of block `i`. */
  function Offset(base: nat, i: nat, size: nat): nat {
    base + i * size
  }

  lemma ProductMonotone(i: nat, j: nat, size: nat)
    requires i <= j
    ensures i * size <= j * size
  {
    assert j * size == i * size + (j - i) * size;
  }

  /** Blocks lie inside the region and no two overlap: the end of the lower is at most the start of
      the higher. */
  lemma BlocksAreDisjoint(base: nat, i: nat, j: nat, size: nat, count: nat)
    requires i < j < count
    ensures base <= Offset(base, i, size)
    ensures Offset(base, i, size) + size <= Offset(base, j, size)
    ensures Offset(base, j, size) + size <= Offset(base, count, size)
  {
    ProductMonotone(i + 1, j, size);
    ProductMonotone(j + 1, count, size);
  }
}
