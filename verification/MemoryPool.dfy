/** The fixed-slot memory pool: a stack of free slot numbers over one byte array. */
module MemoryPools {
  import opened BoundedFifo
  import ByteRanges

  /** `loaned` is a history: the slots handed out and not yet given back. */
  datatype Slots = Slots(count: nat, free: seq<nat>, loaned: set<nat>)

  datatype Op = Acquire | Release(slotId: nat)

  /** The effect of one locked operation; a release out of range throws and changes nothing. */
  ghost function Apply(p: Slots, op: Op): Slots {
    match op
    case Acquire =>
      if |p.free| == 0 then p
      else p.(free := p.free[..|p.free| - 1], loaned := p.loaned + {p.free[|p.free| - 1]})
    case Release(id) =>
      if id >= p.count then p else p.(free := p.free + [id], loaned := p.loaned - {id})
  }

  /** Every slot is free or loaned, never both, and listed as free at most once. */
  ghost predicate Partitioned(p: Slots) {
    && (forall k, j | 0 <= k < j < |p.free| :: p.free[k] != p.free[j])
    && (forall i: nat :: i in p.free || i in p.loaned <==> i < p.count)
    && (forall i: nat :: !(i in p.free && i in p.loaned))
  }

  lemma AcquireKeepsPartition(p: Slots)
    requires Partitioned(p)
    ensures Partitioned(Apply(p, Acquire))
    ensures |p.free| > 0 ==> p.free[|p.free| - 1] < p.count && p.free[|p.free| - 1] !in p.loaned
  {
    if |p.free| > 0 {
      var front, last := p.free[..|p.free| - 1], p.free[|p.free| - 1];
      InFrontOrLast(p.free);
      assert last in p.free && last !in front;
      assert forall i: nat :: i in front || i in p.loaned + {last} <==> i in p.free || i in p.loaned;
      assert forall i: nat :: !(i in front && i in p.loaned + {last});
    }
  }

  lemma InFrontOrLast(s: seq<nat>)
    requires |s| > 0
    ensures forall i: nat :: i in s <==> i in s[..|s| - 1] || i == s[|s| - 1]
  {
    assert s == s[..|s| - 1] + [s[|s| - 1]];
  }

  /** A release keeps the slots in order exactly when the slot was on loan (or the call throws):
      giving a slot back twice is what breaks the pool. */
  lemma ReleaseKeepsPartitionIff(p: Slots, id: nat)
    requires Partitioned(p)
    ensures Partitioned(Apply(p, Release(id))) <==> id in p.loaned || id >= p.count
  {
    if id < p.count {
      var p' := Apply(p, Release(id));
      if id in p.loaned {
        assert forall i: nat :: i in p'.free <==> i in p.free || i == id;
      } else {
        var k :| 0 <= k < |p.free| && p.free[k] == id;
        assert p'.free[k] == p'.free[|p.free|];
      }
    }
  }

  /** What users must do: release only what they hold (out of range is refused anyway). */
  ghost predicate Disciplined(p: Slots, ops: seq<Op>)
    decreases |ops|
  {
    |ops| == 0
    || ((ops[0].Release? ==> ops[0].slotId in p.loaned || ops[0].slotId >= p.count)
        && Disciplined(Apply(p, ops[0]), ops[1..]))
  }

  ghost function After(p: Slots, ops: seq<Op>): Slots
    decreases |ops|
  {
    if |ops| == 0 then p else After(Apply(p, ops[0]), ops[1..])
  }

  lemma {:induction false} DisciplineKeepsPartition(p: Slots, ops: seq<Op>)
    requires Partitioned(p) && Disciplined(p, ops)
    ensures Partitioned(After(p, ops)) && After(p, ops).count == p.count
    decreases |ops|
  {
    if |ops| > 0 {
      AcquireKeepsPartition(p);
      if ops[0].Release? {
        ReleaseKeepsPartitionIff(p, ops[0].slotId);
      }
      DisciplineKeepsPartition(Apply(p, ops[0]), ops[1..]);
    }
  }

  ghost function Acquires(n: nat): seq<Op> {
    if n == 0 then [] else [Acquire] + Acquires(n - 1)
  }

  lemma {:induction false} AfterAcquires(p: Slots, n: nat)
    requires n <= |p.free|
    ensures var q := After(p, Acquires(n));
      q.count == p.count && q.free == p.free[..|p.free| - n] && p.loaned <= q.loaned
    ensures n > 0 ==> p.free[|p.free| - 1] in After(p, Acquires(n)).loaned
    decreases n
  {
    if n > 0 {
      AfterAcquires(Apply(p, Acquire), n - 1);
      assert Acquires(n)[1..] == Acquires(n - 1);
    }
  }

  /** A fresh pool lends its slots in order, from 0 up. */
  lemma FreshPoolLendsInOrder(p: Slots, k: nat)
    requires k < p.count == |p.free| && forall i | 0 <= i < p.count :: p.free[i] == p.count - 1 - i
    ensures var q := After(p, Acquires(k)); |q.free| > 0 && q.free[|q.free| - 1] == k
  {
    AfterAcquires(p, k);
  }

  /** The slot released last is lent first. */
  lemma ReleasedSlotComesBackFirst(p: Slots, id: nat)
    requires Partitioned(p) && id in p.loaned
    ensures After(p, [Release(id), Acquire]) == p
  {
    var q := Apply(p, Release(id));
    assert [Release(id), Acquire][1..] == [Acquire] && [Acquire][1..] == [];
    assert q.free[..|p.free|] == p.free && p.loaned - {id} + {id} == p.loaned;
  }

  /** Two holders of one buffer: after the release of a slot nobody holds that slot is listed as free
      twice, and after the right number of acquires the next one hands it out although it is on loan. */
  lemma WrongReleaseLendsTwice(p: Slots, id: nat) returns (k: nat, n: nat)
    requires Partitioned(p) && id < p.count && id !in p.loaned
    ensures k < |p.free| && Apply(p, Release(id)).free[k] == Apply(p, Release(id)).free[|p.free|] == id
    ensures var q := After(Apply(p, Release(id)), Acquires(n));
      |q.free| > 0 && q.free[|q.free| - 1] == id && id in q.loaned
  {
    k :| 0 <= k < |p.free| && p.free[k] == id;
    n := |p.free| - k;
    AfterAcquires(Apply(p, Release(id)), n);
  }

  /** A loaned buffer: its slot and its byte range in the storage. */
  datatype Buffer = Buffer(slotId: nat, start: nat, capacity: nat)

  ghost function BufferOf(id: nat, slotSize: nat): Buffer {
    Buffer(id, ByteRanges.Offset(0, id, slotSize), slotSize)
  }

  /** Loaned buffers have the slot size, lie inside the storage, and no two of them share a byte. */
  lemma LoanedBuffersAreDisjoint(p: Slots, slotSize: nat, i: nat, j: nat)
    requires Partitioned(p) && i in p.loaned && j in p.loaned && i < j
    ensures var a, b := BufferOf(i, slotSize), BufferOf(j, slotSize);
      && a.slotId == i && b.slotId == j && a.capacity == b.capacity == slotSize
      && a.start + a.capacity <= b.start && b.start + b.capacity <= p.count * slotSize
  {
    ByteRanges.BlocksAreDisjoint(0, i, j, slotSize, p.count);
  }

  /** The 32-bit counter of the constructor's loop after `i` increments. */
  function Counter(i: nat): (c: nat)
    ensures c < 0x1_0000_0000
  {
    if i == 0 then 0 else (Counter(i - 1) + 1) % 0x1_0000_0000
  }

  ghost predicate LoopEnds(slotCount: nat) {
    exists i: nat :: Counter(i) >= slotCount
  }

  lemma {:induction false} CounterIsExact(i: nat)
    requires i < 0x1_0000_0000
    ensures Counter(i) == i
  {
    if i > 0 {
      CounterIsExact(i - 1);
    }
  }

  /** The constructor's loop ends exactly for fewer than 2^32 slots. */
  lemma LoopEndsIff(slotCount: nat)
    ensures LoopEnds(slotCount) <==> slotCount < 0x1_0000_0000
  {
    if slotCount < 0x1_0000_0000 {
      CounterIsExact(slotCount);
      assert Counter(slotCount) >= slotCount;
    }
  }

  class MemoryPool {
    const slotSize: nat
    const slotCount: nat
    const storage: array<int>
    var freeList: seq<nat>
    ghost var loaned: set<nat>

    ghost function Now(): Slots
      reads this
    {
      Slots(slotCount, freeList, loaned)
    }

    ghost predicate Laid()
      reads this
    {
      storage.Length == slotSize * slotCount
    }

    ghost predicate Valid()
      reads this
    {
      Laid() && Partitioned(Now())
    }

    /** The constructor after its checks.  The loop counter is 32 bits wide, so it ends only for
        fewer than 2^32 slots. */
    constructor (slotSize: nat, slotCount: nat)
      requires slotSize > 0 && 0 < slotCount < 0x1_0000_0000
      ensures Valid() && this.slotSize == slotSize && this.slotCount == slotCount
      ensures loaned == {} && |freeList| == slotCount
      ensures forall k | 0 <= k < slotCount :: freeList[k] == slotCount - 1 - k
    {
      this.slotSize, this.slotCount := slotSize, slotCount;
      storage := new int[slotSize * slotCount];
      var list: seq<nat> := [];
      var i := 0;
      while i < slotCount
        invariant 0 <= i <= slotCount && |list| == i
        invariant forall k | 0 <= k < i :: list[k] == slotCount - 1 - k
      {
        list := list + [slotCount - 1 - i];
        i := (i + 1) % 0x1_0000_0000;
      }
      freeList := list;
      loaned := {};
      new;
      forall id: nat ensures id in freeList <==> id < slotCount {
        if id < slotCount {
          assert freeList[slotCount - 1 - id] == id;
        }
      }
    }

    /** A pool, or nothing where the constructor throws; a throw comes before the loop, so only where
        there is none does the loop have to end. */
    static method Create(slotSize: nat, slotCount: nat) returns (pool: MemoryPool?)
      requires slotSize == 0 || LoopEnds(slotCount)
      ensures pool == null <==> slotSize == 0 || slotCount == 0
      ensures pool != null ==> fresh(pool) && pool.Valid() && pool.loaned == {}
      ensures pool != null ==> pool.slotSize == slotSize && pool.slotCount == slotCount
      ensures pool != null ==> |pool.freeList| == slotCount
      ensures pool != null ==> forall k | 0 <= k < slotCount :: pool.freeList[k] == slotCount - 1 - k
    {
      if slotSize == 0 || slotCount == 0 {
        return null;
      }
      LoopEndsIff(slotCount);
      pool := new MemoryPool(slotSize, slotCount);
    }

    /** Refused exactly when every slot is on loan; otherwise hands out a slot nobody holds. */
    method Acquire() returns (buffer: Option<Buffer>)
      requires Valid()
      modifies this
      ensures Valid() && Now() == Apply(old(Now()), Op.Acquire)
      ensures buffer.None? <==> forall id: nat | id < slotCount :: id in old(loaned)
      ensures buffer.Some? ==> buffer.value == BufferOf(buffer.value.slotId, slotSize)
      ensures buffer.Some? ==> buffer.value.slotId !in old(loaned)
      ensures buffer.Some? ==> loaned == old(loaned) + {buffer.value.slotId}
      ensures buffer.Some? ==> buffer.value.slotId == old(freeList)[|old(freeList)| - 1]
      ensures buffer.Some? ==> buffer.value.start == buffer.value.slotId * slotSize
      ensures buffer.Some? ==> buffer.value.capacity == slotSize
      ensures buffer.Some? ==> buffer.value.start + buffer.value.capacity <= storage.Length
      ensures buffer.Some? ==> forall i | i in old(loaned) ::
        var other := BufferOf(i, slotSize);
        || buffer.value.start + buffer.value.capacity <= other.start
        || other.start + other.capacity <= buffer.value.start
    {
      AcquireKeepsPartition(Now());
      if |freeList| == 0 {
        return None;
      }
      var slotId := freeList[|freeList| - 1];
      assert slotId in freeList;
      freeList := freeList[..|freeList| - 1];
      loaned := loaned + {slotId};
      ByteRanges.ProductMonotone(slotId + 1, slotCount, slotSize);
      forall i | i in old(loaned)
        ensures BufferOf(slotId, slotSize).start + slotSize <= BufferOf(i, slotSize).start
             || BufferOf(i, slotSize).start + slotSize <= BufferOf(slotId, slotSize).start
      {
        LoanedBuffersAreDisjoint(Now(), slotSize, if i < slotId then i else slotId, if i < slotId then slotId else i);
      }
      return Some(Buffer(slotId, slotId * slotSize, slotSize));
    }

    /** Throws (returns false) exactly for a slot number out of range.  Any other slot is taken back,
        and that keeps the pool valid exactly when the slot was on loan. */
    method Release(slotId: nat) returns (ok: bool)
      requires Laid()
      modifies this
      ensures Laid() && Now() == Apply(old(Now()), Op.Release(slotId))
      ensures old(Valid()) ==> (Valid() <==> !ok || slotId in old(loaned))
      ensures ok <==> slotId < slotCount
      ensures freeList == if ok then old(freeList) + [slotId] else old(freeList)
      ensures loaned == if ok then old(loaned) - {slotId} else old(loaned)
    {
      if Valid() {
        ReleaseKeepsPartitionIff(Now(), slotId);
      }
      if slotId >= slotCount {
        return false;
      }
      freeList := freeList + [slotId];
      loaned := loaned - {slotId};
      return true;
    }

    method FreeSlots() returns (n: nat)
      requires Valid()
      ensures n == |freeList| && n + |loaned| == slotCount
    {
      FreeAndLoanedAddUp(Now());
      n := |freeList|;
    }
  }

  ghost function Below(n: nat): (r: set<nat>)
    ensures |r| == n && forall i: nat :: i in r <==> i < n
  {
    if n == 0 then {} else Below(n - 1) + {n - 1}
  }

  ghost function Elements(s: seq<nat>): (r: set<nat>)
    requires forall k, j | 0 <= k < j < |s| :: s[k] != s[j]
    ensures |r| == |s| && forall i: nat :: i in r <==> i in s
  {
    if |s| == 0 then {}
    else
      var last := |s| - 1;
      assert s == s[..last] + [s[last]];
      Elements(s[..last]) + {s[last]}
  }

  /** Free and loaned slots always add up to the whole pool. */
  lemma FreeAndLoanedAddUp(p: Slots)
    requires Partitioned(p)
    ensures |p.free| + |p.loaned| == p.count
  {
    var free := Elements(p.free);
    assert Below(p.count) == free + p.loaned;
    assert free !! p.loaned;
    assert |free + p.loaned| == |free| + |p.loaned|;
  }
}
