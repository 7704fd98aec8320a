/** The one-word reader/writer lock as an interleaving of its atomic steps, together with clients
    that read and write a multi-word object under owned guards. */
module RwLockProtocol {

  const TWO32: nat := 0x1_0000_0000
  const WRITE_LOCK_BIT: nat := 0x8000_0000

  /** One word of the shared object, read under a guard. */
  datatype Read<V> = Read(index: nat, value: V)

  /** Where a thread is: outside, about to try the exchange with the word it last saw, or inside an
      owned guard.  A read guard remembers what was read under it. */
  datatype Pc<V> =
    | Outside
    | Trying(seen: nat)
    | Reading(log: seq<Read<V>>)
    | Writing

  /** `committed` is a history: the object as the last finished write section left it. */
  datatype State<V> = State(word: nat, threads: seq<Pc<V>>, words: seq<V>, committed: seq<V>)

  datatype Action<V> =
    | LoadForRead(t: nat) | ExchangeForRead(t: nat, spurious: bool) | UnlockRead(t: nat)
    | ExchangeForWrite(t: nat) | UnlockWrite(t: nat)
    | ReadWord(t: nat, index: nat) | WriteWord(t: nat, index: nat, value: V)

  /** `word & WRITE_LOCK_BIT` and `word & READER_MASK` of a 32-bit word, as arithmetic. */
  function HasWriteBit(word: nat): bool {
    word / WRITE_LOCK_BIT % 2 == 1
  }

  function ReaderBits(word: nat): nat {
    word % WRITE_LOCK_BIT
  }

  /** What the two tests say about every 32-bit word: from 2^31 up the top bit is set, and the reader bits
      are what is left without it. */
  lemma WordIsBitAndCount(word: nat)
    requires word < 0x1_0000_0000
    ensures word < 0x8000_0000 ==> !HasWriteBit(word) && ReaderBits(word) == word
    ensures word >= 0x8000_0000 ==> HasWriteBit(word) && ReaderBits(word) == word - 0x8000_0000
    ensures TWO32 == 0x1_0000_0000
  {
  }

  ghost predicate Enabled<V>(s: State<V>, a: Action<V>) {
    && a.t < |s.threads|
    && var pc := s.threads[a.t];
       match a
       case LoadForRead(_) => pc.Outside?
       case ExchangeForRead(_, _) => pc.Trying?
       case UnlockRead(_) => pc.Reading?
       case ExchangeForWrite(_) => pc.Outside?
       case UnlockWrite(_) => pc.Writing?
       case ReadWord(_, index) => pc.Reading? && index < |s.words|
       case WriteWord(_, index, _) => pc.Writing? && index < |s.words|
  }

  /** Having loaded `word`: give up if a writer holds it, else try the exchange. */
  ghost function AfterLoad<V>(word: nat): Pc<V> {
    if HasWriteBit(word) then Outside else Trying(word)
  }

  ghost function Apply<V>(s: State<V>, a: Action<V>): State<V>
    requires Enabled(s, a)
  {
    var t, pc := a.t, s.threads[a.t];
    match a
    case LoadForRead(_) => s.(threads := s.threads[t := AfterLoad(s.word)])
    case ExchangeForRead(_, spurious) =>
      if s.word == pc.seen && !spurious then
        s.(word := (pc.seen + 1) % TWO32, threads := s.threads[t := Reading([])])
      else s.(threads := s.threads[t := AfterLoad(s.word)])
    case UnlockRead(_) =>
      s.(word := (s.word + TWO32 - 1) % TWO32, threads := s.threads[t := Outside])
    case ExchangeForWrite(_) =>
      if s.word == 0 then s.(word := WRITE_LOCK_BIT, threads := s.threads[t := Writing]) else s
    case UnlockWrite(_) =>
      s.(word := 0, threads := s.threads[t := Outside], committed := s.words)
    case ReadWord(_, index) =>
      s.(threads := s.threads[t := Reading(pc.log + [Read(index, s.words[index])])])
    case WriteWord(_, index, value) => s.(words := s.words[index := value])
  }

  ghost predicate Init<V>(s: State<V>) {
    && s.word == 0 && s.committed == s.words
    && forall t | 0 <= t < |s.threads| :: s.threads[t].Outside?
  }

  // ---------------------------------------------------------------- counting guards

  ghost function Readers<V>(threads: seq<Pc<V>>): nat {
    if |threads| == 0 then 0
    else Readers(threads[..|threads| - 1]) + (if threads[|threads| - 1].Reading? then 1 else 0)
  }

  ghost function Writers<V>(threads: seq<Pc<V>>): nat {
    if |threads| == 0 then 0
    else Writers(threads[..|threads| - 1]) + (if threads[|threads| - 1].Writing? then 1 else 0)
  }

  lemma {:induction false} CountsAfterUpdate<V>(threads: seq<Pc<V>>, t: nat, pc: Pc<V>)
    requires t < |threads|
    ensures Readers(threads[t := pc]) + (if threads[t].Reading? then 1 else 0)
         == Readers(threads) + (if pc.Reading? then 1 else 0)
    ensures Writers(threads[t := pc]) + (if threads[t].Writing? then 1 else 0)
         == Writers(threads) + (if pc.Writing? then 1 else 0)
  {
    var n := |threads| - 1;
    if t == n {
      assert threads[t := pc][..n] == threads[..n];
    } else {
      CountsAfterUpdate(threads[..n], t, pc);
      assert threads[t := pc][..n] == threads[..n][t := pc];
    }
  }

  // ---------------------------------------------------------------- the invariant

  /** The word is exactly the write bit with one writer and no reader, or exactly the number of
      readers with no writer. */
  ghost predicate EncodingOk<V>(s: State<V>) {
    var r, w := Readers(s.threads), Writers(s.threads);
    || (s.word == 0x8000_0000 && w == 1 && r == 0)
    || (s.word == r < 0x8000_0000 && w == 0)
  }

  /** Outside write sections the object is what the last one left, and everything read under a
      guard is part of that. */
  ghost predicate SnapshotOk<V>(s: State<V>) {
    && |s.committed| == |s.words|
    && (Writers(s.threads) == 0 ==> s.words == s.committed)
    && forall t | 0 <= t < |s.threads| && s.threads[t].Reading? :: ReadsFrom(s.threads[t].log, s.committed)
  }

  ghost predicate ReadsFrom<V>(log: seq<Read<V>>, words: seq<V>) {
    forall k | 0 <= k < |log| :: log[k].index < |words| && log[k].value == words[log[k].index]
  }

  ghost predicate TryingOk<V>(s: State<V>) {
    forall t | 0 <= t < |s.threads| && s.threads[t].Trying? :: s.threads[t].seen < 0x8000_0000
  }

  ghost predicate Inv<V>(s: State<V>) {
    EncodingOk(s) && SnapshotOk(s) && TryingOk(s)
  }

  lemma SomeoneInside<V>(s: State<V>, t: nat)
    requires t < |s.threads|
    ensures s.threads[t].Reading? ==> Readers(s.threads) >= 1
    ensures s.threads[t].Writing? ==> Writers(s.threads) >= 1
  {
    CountsAfterUpdate(s.threads, t, Outside);
  }

  lemma WordIsBelow32Bits<V>(s: State<V>)
    requires EncodingOk(s)
    ensures s.word <= 0x8000_0000
    ensures HasWriteBit(s.word) <==> Writers(s.threads) == 1
    ensures ReaderBits(s.word) == Readers(s.threads)
  {
  }

  /** Winning a read guard keeps the encoding exactly when the count still fits below the write bit. */
  lemma ReadGuardKeepsEncodingIff<V>(s: State<V>, a: Action<V>)
    requires Inv(s) && Enabled(s, a) && a.ExchangeForRead? && Apply(s, a).threads[a.t].Reading?
    ensures EncodingOk(Apply(s, a)) <==> Readers(s.threads) + 1 < 0x8000_0000
    ensures Readers(Apply(s, a).threads) == Readers(s.threads) + 1
  {
    CountsAfterUpdate(s.threads, a.t, Reading([]));
  }

  lemma StepKeepsEncoding<V>(s: State<V>, a: Action<V>)
    requires Inv(s) && Enabled(s, a) && Readers(Apply(s, a).threads) < 0x8000_0000
    ensures EncodingOk(Apply(s, a))
  {
    var s' := Apply(s, a);
    CountsAfterUpdate(s.threads, a.t, s'.threads[a.t]);
    assert s'.threads == s.threads[a.t := s'.threads[a.t]];
  }

  lemma StepKeepsSnapshot<V>(s: State<V>, a: Action<V>)
    requires Inv(s) && Enabled(s, a)
    ensures SnapshotOk(Apply(s, a)) && TryingOk(Apply(s, a))
  {
    var s' := Apply(s, a);
    SomeoneInside(s, a.t);
    CountsAfterUpdate(s.threads, a.t, s'.threads[a.t]);
    assert s'.threads == s.threads[a.t := s'.threads[a.t]];
    forall u | 0 <= u < |s'.threads| && s'.threads[u].Reading?
      ensures ReadsFrom(s'.threads[u].log, s'.committed)
    {
      SomeoneInside(s, u);
    }
  }

  lemma StepKeepsInv<V>(s: State<V>, a: Action<V>)
    requires Inv(s) && Enabled(s, a) && Readers(Apply(s, a).threads) < 0x8000_0000
    ensures Inv(Apply(s, a))
  {
    StepKeepsEncoding(s, a);
    StepKeepsSnapshot(s, a);
  }

  // ---------------------------------------------------------------- runs

  /** A run: an initial state and the steps taken since, latest outermost. */
  datatype Run<V> = Start(s: State<V>) | Then(earlier: Run<V>, a: Action<V>)

  ghost function Final<V>(r: Run<V>): State<V>
    requires Legal(r)
    decreases r, 1
  {
    match r
    case Start(s) => s
    case Then(earlier, a) => Apply(Final(earlier), a)
  }

  ghost predicate Legal<V>(r: Run<V>)
    decreases r, 0
  {
    match r
    case Start(s) => Init(s)
    case Then(earlier, a) => Legal(earlier) && Enabled(Final(earlier), a)
  }

  /** At no moment were 2^31 read guards held. */
  ghost predicate Bounded<V>(r: Run<V>)
    requires Legal(r)
  {
    match r
    case Start(_) => true
    case Then(earlier, _) => Bounded(earlier) && Readers(Final(r).threads) < 0x8000_0000
  }

  lemma {:induction false} NobodyInside<V>(threads: seq<Pc<V>>)
    requires forall t | 0 <= t < |threads| :: threads[t].Outside?
    ensures Readers(threads) == 0 && Writers(threads) == 0
  {
    if |threads| > 0 { NobodyInside(threads[..|threads| - 1]); }
  }

  /** In every reachable state with fewer than 2^31 simultaneous readers the word encodes the guards
      exactly, and reads under a guard come from one committed object. */
  lemma {:induction false} RunKeepsInv<V>(r: Run<V>)
    requires Legal(r) && Bounded(r)
    ensures Inv(Final(r))
  {
    match r
    case Start(s) => NobodyInside(s.threads);
    case Then(earlier, a) =>
      RunKeepsInv(earlier);
      StepKeepsInv(Final(earlier), a);
  }

  /** At every moment of the run the word has encoded the guards. */
  ghost predicate EncodedThroughout<V>(r: Run<V>)
    requires Legal(r)
  {
    EncodingOk(Final(r)) && (r.Then? ==> EncodedThroughout(r.earlier))
  }

  /** The bound is exactly what the lock needs: a run keeps the encoding throughout if and only if it
      never has 2^31 readers inside at once. */
  lemma {:induction false} EncodedThroughoutIffBounded<V>(r: Run<V>)
    requires Legal(r)
    ensures EncodedThroughout(r) <==> Bounded(r)
  {
    match r
    case Start(_) =>
      RunKeepsInv(r);
    case Then(earlier, _) =>
      EncodedThroughoutIffBounded(earlier);
      if Bounded(r) {
        RunKeepsInv(r);
      }
  }

  /** A writer is alone: no other thread holds a guard of either kind. */
  lemma WriterIsAlone<V>(r: Run<V>, t: nat, u: nat)
    requires Legal(r) && Bounded(r)
    requires t < |Final(r).threads| && u < |Final(r).threads| && t != u && Final(r).threads[t].Writing?
    ensures !Final(r).threads[u].Writing? && !Final(r).threads[u].Reading?
  {
    RunKeepsInv(r);
    var s := Final(r);
    SomeoneInside(s, t);
    SomeoneInside(s, u);
    CountsAfterUpdate(s.threads, t, Outside);
    SomeoneInside(s.(threads := s.threads[t := Outside]), u);
  }

  /** So the store of 0 in `unlock_write` never erases a reader, and the queries tell the truth. */
  lemma UnlockWriteErasesNobody<V>(r: Run<V>, t: nat)
    requires Legal(r) && Bounded(r) && Enabled(Final(r), UnlockWrite(t))
    ensures Final(r).word == 0x8000_0000 && Readers(Final(r).threads) == 0
    ensures Writers(Apply(Final(r), UnlockWrite(t)).threads) == 0
    ensures Readers(Apply(Final(r), UnlockWrite(t)).threads) == 0
  {
    RunKeepsInv(r);
    SomeoneInside(Final(r), t);
    CountsAfterUpdate(Final(r).threads, t, Outside);
  }

  // ---------------------------------------------------------------- what clients get

  /** Writers restore `good` before they release, and it holds at the start. */
  ghost predicate Restores<V>(r: Run<V>, good: seq<V> -> bool)
    requires Legal(r)
  {
    match r
    case Start(s) => good(s.words)
    case Then(earlier, a) => Restores(earlier, good) && (a.UnlockWrite? ==> good(Final(earlier).words))
  }

  lemma {:induction false} CommittedIsGood<V>(r: Run<V>, good: seq<V> -> bool)
    requires Legal(r) && Restores(r, good)
    ensures good(Final(r).committed)
  {
    if r.Then? { CommittedIsGood(r.earlier, good); }
  }

  /** Everything read under one read guard comes from one and the same object value, which is the
      present one and which satisfies whatever every finished write section restores. */
  lemma GuardSeesOneGoodSnapshot<V>(r: Run<V>, good: seq<V> -> bool, t: nat)
    requires Legal(r) && Bounded(r) && Restores(r, good)
    requires t < |Final(r).threads| && Final(r).threads[t].Reading?
    ensures ReadsFrom(Final(r).threads[t].log, Final(r).words) && good(Final(r).words)
  {
    RunKeepsInv(r);
    CommittedIsGood(r, good);
    SomeoneInside(Final(r), t);
  }

  /** `m` is the run at a moment since which thread `t` has held its read guard. */
  ghost predicate HeldSince<V>(m: Run<V>, r: Run<V>, t: nat)
    requires Legal(r)
  {
    && t < |Final(r).threads| && Final(r).threads[t].Reading?
    && (m == r || (r.Then? && HeldSince(m, r.earlier, t)))
  }

  /** The object does not change while a read guard is held. */
  lemma {:induction false} ObjectFrozenWhileHeld<V>(m: Run<V>, r: Run<V>, t: nat)
    requires Legal(r) && Bounded(r) && HeldSince(m, r, t)
    ensures Legal(m) && Final(m).words == Final(r).words
    ensures t < |Final(m).threads| && Final(m).threads[t].Reading?
    ensures Final(m).threads[t].log <= Final(r).threads[t].log
  {
    if m != r {
      ObjectFrozenWhileHeld(m, r.earlier, t);
      if r.a.t != t && r.a.WriteWord? {
        WriterIsAlone(r.earlier, r.a.t, t);
      }
    }
  }

  // ---------------------------------------------------------------- why the bound is needed

  ghost function ManyReaders<V>(n: nat): (threads: seq<Pc<V>>)
    ensures |threads| == n && forall t | 0 <= t < n :: threads[t] == Reading([])
  {
    seq(n, _ => Reading([]))
  }

  lemma {:induction false} ManyReadersCount<V>(n: nat)
    ensures Readers(ManyReaders<V>(n)) == n && Writers(ManyReaders<V>(n)) == 0
  {
    if n > 0 {
      ManyReadersCount<V>(n - 1);
      assert ManyReaders<V>(n)[..n - 1] == ManyReaders<V>(n - 1);
    }
  }

  /** With 2^31 - 1 readers inside, the next one carries into the write bit: the lock then reports a
      writer although there is none, and reports no readers although there are 2^31. */
  lemma OneReaderTooMany<V>(words: seq<V>)
    ensures
      var n := 0x8000_0000 - 1;
      var s := State(n, ManyReaders<V>(n) + [Trying(n)], words, words);
      && Inv(s) && Enabled(s, ExchangeForRead(n, false))
      && HasWriteBit(Apply(s, ExchangeForRead(n, false)).word)
      && ReaderBits(Apply(s, ExchangeForRead(n, false)).word) == 0
      && Writers(Apply(s, ExchangeForRead(n, false)).threads) == 0
      && Readers(Apply(s, ExchangeForRead(n, false)).threads) == n + 1
  {
    var n := 0x8000_0000 - 1;
    var threads := ManyReaders<V>(n) + [Trying(n)];
    ManyReadersCount<V>(n);
    assert threads[..n] == ManyReaders<V>(n);
    CountsAfterUpdate(threads, n, Reading([]));
  }
}
