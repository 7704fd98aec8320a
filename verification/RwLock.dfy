/** `AtomicRWLock` and its two guards in their own form: one 32-bit word updated in place.

    Each method performs the steps of the protocol as thread `t` while the others stand still
    wherever they are; `run` records the steps.  A weak exchange may fail spuriously, at most `weak`
    times in one call. */
module RwLock {
  import P = RwLockProtocol

  class AtomicRWLock {
    var state: nat
    ghost var run: P.Run<()>

    ghost predicate Linked()
      reads this
    {
      P.Legal(run) && P.Final(run).word == state
    }

    /** The word encodes the guards; one read guard too many ends that. */
    ghost predicate Valid()
      reads this
    {
      Linked() && P.Bounded(run) && P.Inv(P.Final(run))
    }

    ghost function Now(): P.State<()>
      reads this
      requires Linked()
    {
      P.Final(run)
    }

    ghost function ReaderGuards(): nat
      reads this
      requires Linked()
    {
      P.Readers(Now().threads)
    }

    ghost function WriterGuards(): nat
      reads this
      requires Linked()
    {
      P.Writers(Now().threads)
    }

    ghost predicate IsOutside(t: nat)
      reads this
      requires Linked()
    {
      t < |Now().threads| && Now().threads[t].Outside?
    }

    constructor (ghost threadCount: nat)
      ensures Valid() && ReaderGuards() == 0 && WriterGuards() == 0 && state == 0
      ensures |Now().threads| == threadCount && forall t | 0 <= t < threadCount :: IsOutside(t)
    {
      state := 0;
      new;
      ghost var threads := seq(threadCount, _ => P.Outside);
      run := P.Start(P.State(0, threads, [], []));
      P.NobodyInside(threads);
      P.RunKeepsInv(run);
    }

    ghost method Take(a: P.Action<()>)
      requires P.Legal(run) && P.Bounded(run) && P.Inv(P.Final(run)) && P.Enabled(P.Final(run), a)
      modifies this`run
      ensures run == P.Then(old(run), a) && P.Legal(run)
      ensures P.Final(run) == P.Apply(P.Final(old(run)), a)
      ensures P.Readers(P.Final(run).threads) < 0x8000_0000 <==> P.Bounded(run)
      ensures P.Bounded(run) ==> P.Inv(P.Final(run))
    {
      if P.Readers(P.Apply(P.Final(run), a).threads) < 0x8000_0000 {
        P.StepKeepsInv(P.Final(run), a);
      }
      run := P.Then(run, a);
    }

    /** Thread `t` now has the given guard, or none; nobody else is affected. */
    ghost predicate Moved(before: P.State<()>, t: nat, pc: P.Pc<()>)
      reads this
      requires Linked()
    {
      t < |before.threads| && Now().threads == before.threads[t := pc]
    }

    /** One weak exchange of `try_lock_read`; on failure `seen` becomes the present word. */
    method ExchangeOnce(ghost t: nat, seen: nat, mayFail: bool) returns (ok: bool, now: nat)
      requires Valid() && t < |Now().threads| && Now().threads[t] == P.Trying(seen)
      modifies this
      ensures Linked() && (Valid() <==> ReaderGuards() < 0x8000_0000)
      ensures ok ==> old(WriterGuards()) == 0 && Moved(old(Now()), t, P.Reading([]))
      ensures ok ==> state == ReaderGuards() == old(ReaderGuards()) + 1
      ensures !ok ==> Valid() && now == state == old(state) && (seen != now || mayFail)
      ensures !ok ==> ReaderGuards() == old(ReaderGuards()) && WriterGuards() == old(WriterGuards())
      ensures !ok ==> (P.HasWriteBit(now) <==> WriterGuards() != 0)
      ensures !ok ==> Now() == old(Now()).(threads := old(Now()).threads[t := P.AfterLoad(now)])
    {
      P.CountsAfterUpdate(Now().threads, t, P.Reading([]));
      P.CountsAfterUpdate(Now().threads, t, P.AfterLoad(state));
      P.WordIsBelow32Bits(Now());
      var spurious := *;
      spurious := spurious && mayFail;
      Take(P.ExchangeForRead(t, spurious));
      if state == seen && !spurious {
        state := (seen + 1) % P.TWO32;
        return true, state;
      }
      return false, state;
    }

    /** The exchange loop of `try_lock_read`, entered with any word the thread last saw. */
    method ExchangeLoop(ghost t: nat, seen: nat, weak: nat) returns (ok: bool)
      requires Valid() && t < |Now().threads| && Now().threads[t] == P.Trying(seen)
      modifies this
      ensures Linked() && (Valid() <==> ReaderGuards() < 0x8000_0000)
      ensures ok <==> P.Writers(old(Now()).threads) == 0
      ensures ok ==> state == ReaderGuards()
      ensures Moved(old(Now()), t, if ok then P.Reading([]) else P.Outside)
    {
      var current: nat, budget: nat := seen, weak;
      ghost var threads := Now().threads;
      while true
        invariant Valid() && Now().threads == threads[t := P.Trying(current)]
        invariant ReaderGuards() == old(ReaderGuards()) && WriterGuards() == old(WriterGuards())
        invariant state == old(state)
        decreases current != state, budget
      {
        var won, now := ExchangeOnce(t, current, budget > 0);
        if won {
          return true;
        }
        budget := if now == current then budget - 1 else budget;
        current := now;
        if P.HasWriteBit(current) {
          return false;
        }
      }
    }

    /** Succeeds exactly when no writer holds the lock.  The word then counts the readers, which keeps the
        lock valid exactly while there are fewer than 2^31 of them. */
    method TryLockRead(ghost t: nat, weak: nat) returns (ok: bool)
      requires Valid() && IsOutside(t)
      modifies this
      ensures Linked() && (Valid() <==> ReaderGuards() < 0x8000_0000)
      ensures ok <==> old(WriterGuards()) == 0
      ensures ok ==> state == ReaderGuards()
      ensures Moved(old(Now()), t, if ok then P.Reading([]) else P.Outside)
      ensures ReaderGuards() == old(ReaderGuards()) + (if ok then 1 else 0)
      ensures WriterGuards() == old(WriterGuards())
    {
      ghost var s := Now();
      P.WordIsBelow32Bits(s);
      P.CountsAfterUpdate(s.threads, t, P.Trying(state));
      P.CountsAfterUpdate(s.threads, t, P.Outside);
      P.CountsAfterUpdate(s.threads, t, P.Reading([]));
      var current := state;
      Take(P.LoadForRead(t));
      if P.HasWriteBit(current) {
        return false;
      }
      ok := ExchangeLoop(t, current, weak);
      assert s.threads[t := P.Trying(current)][t := P.Reading([])] == s.threads[t := P.Reading([])];
      assert s.threads[t := P.Trying(current)][t := P.Outside] == s.threads[t := P.Outside];
    }

    method UnlockRead(ghost t: nat)
      requires Valid() && t < |Now().threads| && Now().threads[t].Reading?
      modifies this
      ensures Valid() && Moved(old(Now()), t, P.Outside)
      ensures ReaderGuards() == old(ReaderGuards()) - 1 && WriterGuards() == old(WriterGuards())
    {
      P.CountsAfterUpdate(Now().threads, t, P.Outside);
      Take(P.UnlockRead(t));
      state := (state + P.TWO32 - 1) % P.TWO32;
    }

    /** Succeeds exactly when nobody holds the lock in either way. */
    method TryLockWrite(ghost t: nat) returns (ok: bool)
      requires Valid() && IsOutside(t)
      modifies this
      ensures Valid() && (ok <==> old(ReaderGuards()) == 0 && old(WriterGuards()) == 0)
      ensures Moved(old(Now()), t, if ok then P.Writing else P.Outside)
      ensures ReaderGuards() == old(ReaderGuards())
      ensures WriterGuards() == old(WriterGuards()) + (if ok then 1 else 0)
    {
      P.CountsAfterUpdate(Now().threads, t, P.Writing);
      Take(P.ExchangeForWrite(t));
      ok := state == 0;
      if ok {
        state := P.WRITE_LOCK_BIT;
      }
    }

    method UnlockWrite(ghost t: nat)
      requires Valid() && t < |Now().threads| && Now().threads[t].Writing?
      modifies this
      ensures Valid() && Moved(old(Now()), t, P.Outside)
      ensures ReaderGuards() == old(ReaderGuards()) == 0 && WriterGuards() == old(WriterGuards()) - 1
    {
      P.SomeoneInside(Now(), t);
      P.CountsAfterUpdate(Now().threads, t, P.Outside);
      Take(P.UnlockWrite(t));
      state := 0;
    }

    method IsWriteLocked() returns (locked: bool)
      requires Valid()
      ensures locked <==> WriterGuards() == 1
    {
      P.WordIsBelow32Bits(Now());
      locked := P.HasWriteBit(state);
    }

    method ReaderCount() returns (count: nat)
      requires Valid()
      ensures count == ReaderGuards()
    {
      P.WordIsBelow32Bits(Now());
      count := P.ReaderBits(state);
    }
  }

  /** Tries for a read lock when made; gives it back when destroyed, if it got it. */
  class ReadLockGuard {
    const lock: AtomicRWLock
    const locked: bool
    ghost const t: nat

    ghost predicate Valid()
      reads this, lock
    {
      && lock.Valid() && t < |lock.Now().threads|
      && (if locked then lock.Now().threads[t].Reading? else lock.Now().threads[t].Outside?)
    }

    constructor (lock: AtomicRWLock, ghost t: nat, weak: nat)
      requires lock.Valid() && lock.IsOutside(t)
      modifies lock
      ensures this.lock == lock && this.t == t
      ensures lock.Linked() && (Valid() <==> lock.ReaderGuards() < 0x8000_0000)
      ensures locked <==> old(lock.WriterGuards()) == 0
      ensures lock.ReaderGuards() == old(lock.ReaderGuards()) + (if locked then 1 else 0)
    {
      this.lock, this.t := lock, t;
      var ok := lock.TryLockRead(t, weak);
      locked := ok;
    }

    method Destroy()
      requires Valid()
      modifies lock
      ensures lock.Valid() && lock.Moved(old(lock.Now()), t, P.Outside)
      ensures lock.ReaderGuards() == old(lock.ReaderGuards()) - (if locked then 1 else 0)
      ensures lock.WriterGuards() == old(lock.WriterGuards())
    {
      if locked {
        lock.UnlockRead(t);
      }
    }
  }

  /** Tries for the write lock when made; gives it back when destroyed, if it got it. */
  class WriteLockGuard {
    const lock: AtomicRWLock
    const locked: bool
    ghost const t: nat

    ghost predicate Valid()
      reads this, lock
    {
      && lock.Valid() && t < |lock.Now().threads|
      && (if locked then lock.Now().threads[t].Writing? else lock.Now().threads[t].Outside?)
    }

    constructor (lock: AtomicRWLock, ghost t: nat)
      requires lock.Valid() && lock.IsOutside(t)
      modifies lock
      ensures Valid() && this.lock == lock && this.t == t
      ensures locked <==> old(lock.ReaderGuards()) == 0 && old(lock.WriterGuards()) == 0
      ensures locked ==> lock.WriterGuards() == 1
    {
      this.lock, this.t := lock, t;
      var ok := lock.TryLockWrite(t);
      locked := ok;
    }

    method Destroy()
      requires Valid()
      modifies lock
      ensures lock.Valid() && lock.Moved(old(lock.Now()), t, P.Outside)
      ensures lock.ReaderGuards() == old(lock.ReaderGuards())
      ensures lock.WriterGuards() == old(lock.WriterGuards()) - (if locked then 1 else 0)
    {
      if locked {
        lock.UnlockWrite(t);
      }
    }
  }
}
