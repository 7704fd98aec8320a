/** Index arithmetic shared by the three ring buffers.

    A ticket (an unbounded position) lands in slot `ticket % capacity`.  `Slot` says the same by
    repeated subtraction, so that the facts the rings need are linear; `SlotIsRemainder` ties it
    to the `%` the code writes. */
module RingIndex {

  function Slot(pos: nat, capacity: nat): (i: nat)
    requires capacity > 0
    ensures i < capacity
  {
    if pos < capacity then pos else Slot(pos - capacity, capacity)
  }

  lemma ProductDominates(k: int, n: int)
    requires n > 0
    ensures k >= 1 ==> k * n >= n
    ensures k <= -1 ==> k * n <= -n
  {
  }

  lemma {:induction false} SlotIsRemainder(pos: nat, capacity: nat)
    requires capacity > 0
    ensures Slot(pos, capacity) == pos % capacity
  {
    if pos >= capacity {
      SlotIsRemainder(pos - capacity, capacity);
      var q, r := (pos - capacity) / capacity, (pos - capacity) % capacity;
      var q', r' := pos / capacity, pos % capacity;
      assert (q + 1 - q') * capacity == r' - r;
      ProductDominates(q + 1 - q', capacity);
    }
  }

  /** Tickets less than one lap apart share a slot only when they are the same ticket. */
  lemma {:induction false} SameSlot(p: nat, q: nat, capacity: nat)
    requires capacity > 0 && Slot(p, capacity) == Slot(q, capacity) && p <= q
    ensures p == q || p + capacity <= q
  {
    if p >= capacity {
      SameSlot(p - capacity, q - capacity, capacity);
    }
  }

  /** The index the code computes for the next ticket. */
  lemma {:induction false} NextSlot(p: nat, capacity: nat)
    requires capacity > 0
    ensures Slot(p + 1, capacity)
         == if Slot(p, capacity) + 1 == capacity then 0 else Slot(p, capacity) + 1
    ensures Slot(p + 1, capacity) == (Slot(p, capacity) + 1) % capacity
  {
    if p >= capacity {
      NextSlot(p - capacity, capacity);
    }
  }

  /** With two slots or more, neighbouring tickets use different slots.  With one slot they do not. */
  lemma NeighboursDiffer(p: nat, capacity: nat)
    requires capacity > 0
    ensures Slot(p, capacity) != Slot(p + 1, capacity) <==> capacity >= 2
  {
    if capacity >= 2 && Slot(p, capacity) == Slot(p + 1, capacity) {
      SameSlot(p, p + 1, capacity);
    }
  }
}
