/** The multi-producer multi-consumer ring as an interleaving of its atomic steps.

    Any number of threads run `try_push`, `try_pop` and `size`/`empty` on one queue.  Each atomic
    load, compare-exchange and store, and each plain access to a cell's data, is a step of its own. */
module MpmcProtocol {
  import opened RingIndex

  datatype Cell<T> = Cell(sequence: nat, data: T)

  /** Where a thread is.  `At` holds a position, `Saw` has also loaded the cell's sequence,
      `Owns` has won the ticket, `Wrote`/`Read` has touched the data and must store the sequence. */
  datatype Pc<T> =
    | Idle
    | PushAt(pos: nat, v: T)
    | PushSaw(pos: nat, v: T, seen: nat)
    | PushOwns(pos: nat, v: T)
    | PushWrote(pos: nat, v: T)
    | PopAt(pos: nat)
    | PopSaw(pos: nat, seen: nat)
    | PopOwns(pos: nat)
    | PopRead(pos: nat, v: T)
    | SizeSaw(dequeue: nat)

  /** `start` and `retries` describe the current call: the first position it loaded and how many
      times it went round again because another thread had moved the position.
      `sent` and `received` list the values of its completed pushes and pops, in program order. */
  datatype Thread<T> = Thread(pc: Pc<T>, start: nat, retries: nat, sent: seq<T>, received: seq<T>)

  /** The push that won a ticket. */
  datatype Claim<T> = Claim(thread: nat, value: T)

  /** `claims[p]` is the push that won ticket `p`; `takers[p]` is the thread whose pop won it. */
  datatype State<T> = State(
    enqueuePos: nat, dequeuePos: nat, cells: seq<Cell<T>>,
    threads: seq<Thread<T>>, claims: seq<Claim<T>>, takers: seq<nat>)

  datatype Action<T> =
    | BeginPush(t: nat, v: T) | LoadPushSeq(t: nat) | ResolvePush(t: nat, spurious: bool)
    | WriteData(t: nat) | Publish(t: nat)
    | BeginPop(t: nat) | LoadPopSeq(t: nat) | ResolvePop(t: nat, spurious: bool)
    | ReadData(t: nat, residue: T) | Release(t: nat)
    | BeginSize(t: nat) | EndSize(t: nat)

  ghost predicate Enabled<T>(s: State<T>, a: Action<T>) {
    && |s.cells| > 0
    && a.t < |s.threads|
    && var pc := s.threads[a.t].pc;
       match a
       case BeginPush(_, _) => pc.Idle?
       case LoadPushSeq(_) => pc.PushAt?
       case ResolvePush(_, _) => pc.PushSaw?
       case WriteData(_) => pc.PushOwns?
       case Publish(_) => pc.PushWrote?
       case BeginPop(_) => pc.Idle?
       case LoadPopSeq(_) => pc.PopAt?
       case ResolvePop(_, _) => pc.PopSaw?
       case ReadData(_, _) => pc.PopOwns?
       case Release(_) => pc.PopRead?
       case BeginSize(_) => pc.Idle?
       case EndSize(_) => pc.SizeSaw?
  }

  ghost function CellAt<T>(s: State<T>, pos: nat): Cell<T>
    requires |s.cells| > 0
  {
    s.cells[Slot(pos, |s.cells|)]
  }

  ghost function SetCell<T>(s: State<T>, pos: nat, c: Cell<T>): seq<Cell<T>>
    requires |s.cells| > 0
  {
    s.cells[Slot(pos, |s.cells|) := c]
  }

  /** `diff == 0`, `diff < 0` and `diff > 0` of the push loop.  A failed weak compare-exchange,
      spurious or not, leaves the present enqueue position in `pos` and goes round again. */
  ghost function Resolved<T>(s: State<T>, th: Thread<T>, spurious: bool): Thread<T>
    requires th.pc.PushSaw?
  {
    var PushSaw(pos, v, seen) := th.pc;
    if seen == pos then
      if s.enqueuePos == pos && !spurious then th.(pc := PushOwns(pos, v))
      else th.(pc := PushAt(s.enqueuePos, v),
               retries := th.retries + if s.enqueuePos == pos then 0 else 1)
    else if seen < pos then th.(pc := Idle)
    else th.(pc := PushAt(s.enqueuePos, v), retries := th.retries + 1)
  }

  ghost function PopResolved<T>(s: State<T>, th: Thread<T>, spurious: bool): Thread<T>
    requires th.pc.PopSaw?
  {
    var PopSaw(pos, seen) := th.pc;
    if seen == pos + 1 then
      if s.dequeuePos == pos && !spurious then th.(pc := PopOwns(pos))
      else th.(pc := PopAt(s.dequeuePos),
               retries := th.retries + if s.dequeuePos == pos then 0 else 1)
    else if seen < pos + 1 then th.(pc := Idle)
    else th.(pc := PopAt(s.dequeuePos), retries := th.retries + 1)
  }

  ghost function Apply<T>(s: State<T>, a: Action<T>): State<T>
    requires Enabled(s, a)
  {
    var t, th := a.t, s.threads[a.t];
    match a
    case BeginPush(_, v) =>
      s.(threads := s.threads[t := th.(pc := PushAt(s.enqueuePos, v), start := s.enqueuePos, retries := 0)])
    case LoadPushSeq(_) =>
      s.(threads := s.threads[t := th.(pc := PushSaw(th.pc.pos, th.pc.v, CellAt(s, th.pc.pos).sequence))])
    case ResolvePush(_, spurious) =>
      var th' := Resolved(s, th, spurious);
      if th'.pc.PushOwns? then
        s.(threads := s.threads[t := th'], enqueuePos := s.enqueuePos + 1,
           claims := s.claims + [Claim(t, th.pc.v)])
      else s.(threads := s.threads[t := th'])
    case WriteData(_) =>
      s.(threads := s.threads[t := th.(pc := PushWrote(th.pc.pos, th.pc.v))],
         cells := SetCell(s, th.pc.pos, CellAt(s, th.pc.pos).(data := th.pc.v)))
    case Publish(_) =>
      s.(threads := s.threads[t := th.(pc := Idle, sent := th.sent + [th.pc.v])],
         cells := SetCell(s, th.pc.pos, CellAt(s, th.pc.pos).(sequence := th.pc.pos + 1)))
    case BeginPop(_) =>
      s.(threads := s.threads[t := th.(pc := PopAt(s.dequeuePos), start := s.dequeuePos, retries := 0)])
    case LoadPopSeq(_) =>
      s.(threads := s.threads[t := th.(pc := PopSaw(th.pc.pos, CellAt(s, th.pc.pos).sequence))])
    case ResolvePop(_, spurious) =>
      var th' := PopResolved(s, th, spurious);
      if th'.pc.PopOwns? then
        s.(threads := s.threads[t := th'], dequeuePos := s.dequeuePos + 1, takers := s.takers + [t])
      else s.(threads := s.threads[t := th'])
    case ReadData(_, residue) =>
      s.(threads := s.threads[t := th.(pc := PopRead(th.pc.pos, CellAt(s, th.pc.pos).data))],
         cells := SetCell(s, th.pc.pos, CellAt(s, th.pc.pos).(data := residue)))
    case Release(_) =>
      s.(threads := s.threads[t := th.(pc := Idle, received := th.received + [th.pc.v])],
         cells := SetCell(s, th.pc.pos, CellAt(s, th.pc.pos).(sequence := th.pc.pos + |s.cells|)))
    case BeginSize(_) => s.(threads := s.threads[t := th.(pc := SizeSaw(s.dequeuePos))])
    case EndSize(_) => s.(threads := s.threads[t := th.(pc := Idle)])
  }

  ghost predicate Init<T>(s: State<T>) {
    && |s.cells| > 0 && s.enqueuePos == 0 && s.dequeuePos == 0 && s.claims == [] && s.takers == []
    && (forall i | 0 <= i < |s.cells| :: s.cells[i].sequence == i)
    && (forall t | 0 <= t < |s.threads| ::
          s.threads[t].pc.Idle? && s.threads[t].sent == [] && s.threads[t].received == [])
  }

  // ---------------------------------------------------------------- the invariant

  ghost predicate Shape<T>(s: State<T>) {
    && |s.cells| >= 2
    && s.dequeuePos <= s.enqueuePos <= s.dequeuePos + |s.cells|
    && |s.claims| == s.enqueuePos && |s.takers| == s.dequeuePos
    && (forall p | 0 <= p < |s.claims| :: s.claims[p].thread < |s.threads|)
    && (forall p | 0 <= p < |s.takers| :: s.takers[p] < |s.threads|)
  }

  /** Thread `t` has won ticket `p` for pushing and has not published it yet. */
  ghost predicate Pushing<T>(s: State<T>, t: nat, p: nat)
    requires t < |s.threads|
  {
    var pc := s.threads[t].pc;
    (pc.PushOwns? || pc.PushWrote?) && pc.pos == p
  }

  /** Thread `t` has won ticket `p` for popping and has not released the cell yet. */
  ghost predicate Popping<T>(s: State<T>, t: nat, p: nat)
    requires t < |s.threads|
  {
    var pc := s.threads[t].pc;
    (pc.PopOwns? || pc.PopRead?) && pc.pos == p
  }

  /** A cell's sequence is `p` (free for ticket p) or `p + 1` (published by ticket p), where p is a
      ticket of that cell; in the windows between claim and store, the claimant is still at it. */
  ghost predicate CellOk<T>(s: State<T>, i: nat)
    requires Shape(s) && i < |s.cells|
  {
    var n, q := |s.cells|, s.cells[i].sequence;
    if Slot(q, n) == i then
      && s.dequeuePos <= q < s.dequeuePos + n
      && (q < s.enqueuePos ==> Pushing(s, s.claims[q].thread, q))
    else
      && q > 0 && Slot(q - 1, n) == i
      && q - 1 < s.enqueuePos <= q - 1 + n
      && (s.dequeuePos <= q - 1 ==> s.cells[i].data == s.claims[q - 1].value)
      && (q - 1 < s.dequeuePos ==> Popping(s, s.takers[q - 1], q - 1))
  }

  ghost predicate PcOk<T>(s: State<T>, t: nat)
    requires Shape(s) && t < |s.threads|
  {
    var th := s.threads[t];
    match th.pc
    case Idle => true
    case PushAt(pos, _) => th.start + th.retries <= pos <= s.enqueuePos
    case PushSaw(pos, _, seen) =>
      && th.start + th.retries <= pos <= s.enqueuePos
      && seen <= CellAt(s, pos).sequence && (seen > pos ==> pos < s.enqueuePos)
    case PushOwns(p, v) =>
      p < s.enqueuePos && s.claims[p] == Claim(t, v) && CellAt(s, p).sequence == p
    case PushWrote(p, v) =>
      p < s.enqueuePos && s.claims[p] == Claim(t, v) && CellAt(s, p) == Cell(p, v)
    case PopAt(pos) => th.start + th.retries <= pos <= s.dequeuePos
    case PopSaw(pos, seen) =>
      && th.start + th.retries <= pos <= s.dequeuePos
      && seen <= CellAt(s, pos).sequence && (seen > pos + 1 ==> pos < s.dequeuePos)
    case PopOwns(p) =>
      p < s.dequeuePos && s.takers[p] == t && CellAt(s, p) == Cell(p + 1, s.claims[p].value)
    case PopRead(p, v) =>
      p < s.dequeuePos && s.takers[p] == t && CellAt(s, p).sequence == p + 1 && v == s.claims[p].value
    case SizeSaw(d) => d <= s.dequeuePos
  }

  /** The values thread `t` pushed under the first `n` tickets, in ticket order. */
  ghost function SentBy<T>(claims: seq<Claim<T>>, t: nat, n: nat): seq<T>
    requires n <= |claims|
  {
    if n == 0 then []
    else SentBy(claims, t, n - 1) + (if claims[n - 1].thread == t then [claims[n - 1].value] else [])
  }

  /** The values of those of the first `n` tickets that thread `t` popped, in ticket order. */
  ghost function TakenBy<T>(claims: seq<Claim<T>>, takers: seq<nat>, t: nat, n: nat): seq<T>
    requires n <= |takers| <= |claims|
  {
    if n == 0 then []
    else TakenBy(claims, takers, t, n - 1) + (if takers[n - 1] == t then [claims[n - 1].value] else [])
  }

  ghost function BeingSent<T>(th: Thread<T>): seq<T> {
    if th.pc.PushOwns? || th.pc.PushWrote? then [th.pc.v] else []
  }

  ghost function BeingTaken<T>(s: State<T>, t: nat): seq<T>
    requires Shape(s) && t < |s.threads| && PcOk(s, t)
  {
    var pc := s.threads[t].pc;
    if pc.PopOwns? || pc.PopRead? then [s.claims[pc.pos].value] else []
  }

  /** A thread's completed calls, followed by the one in progress if it has won its ticket, are
      exactly its tickets in ticket order. */
  ghost predicate LogOk<T>(s: State<T>, t: nat)
    requires Shape(s) && t < |s.threads| && PcOk(s, t)
  {
    && SentBy(s.claims, t, s.enqueuePos) == s.threads[t].sent + BeingSent(s.threads[t])
    && TakenBy(s.claims, s.takers, t, s.dequeuePos) == s.threads[t].received + BeingTaken(s, t)
  }

  ghost predicate Inv<T>(s: State<T>) {
    && Shape(s)
    && (forall i | 0 <= i < |s.cells| :: CellOk(s, i))
    && (forall t | 0 <= t < |s.threads| :: PcOk(s, t))
    && (forall t | 0 <= t < |s.threads| :: LogOk(s, t))
  }

  // ---------------------------------------------------------------- what a sequence number tells

  /** What the sequence of the cell of `pos` says about a push position no later than the shared one. */
  lemma PushPositionFacts<T>(s: State<T>, pos: nat)
    requires Inv(s) && pos <= s.enqueuePos
    ensures var n, q := |s.cells|, CellAt(s, pos).sequence;
      && (q < pos ==> pos == s.enqueuePos && pos >= n && (q == pos - n || q == pos - n + 1))
      && (q > pos ==> pos < s.enqueuePos)
      && (q == pos ==> pos < s.dequeuePos + n)
  {
    var n, i := |s.cells|, Slot(pos, |s.cells|);
    var q := s.cells[i].sequence;
    assert CellOk(s, i);
    if Slot(q, n) == i {
      if q <= pos { SameSlot(q, pos, n); } else { SameSlot(pos, q, n); }
    } else {
      if q - 1 <= pos { SameSlot(q - 1, pos, n); } else { SameSlot(pos, q - 1, n); }
    }
  }

  /** The same for a pop position. */
  lemma PopPositionFacts<T>(s: State<T>, pos: nat)
    requires Inv(s) && pos <= s.dequeuePos
    ensures var n, q := |s.cells|, CellAt(s, pos).sequence;
      && (q < pos + 1 ==> pos == s.dequeuePos)
      && (q < pos + 1 ==> pos == s.enqueuePos || (q == pos && Pushing(s, s.claims[pos].thread, pos)))
      && (q > pos + 1 ==> pos < s.dequeuePos)
      && (q == pos + 1 ==> pos < s.enqueuePos && Slot(q, n) != Slot(pos, n))
  {
    var n, i := |s.cells|, Slot(pos, |s.cells|);
    var q := s.cells[i].sequence;
    assert CellOk(s, i);
    NeighboursDiffer(pos, n);
    if Slot(q, n) == i {
      if q <= pos { SameSlot(q, pos, n); } else { SameSlot(pos, q, n); }
    } else {
      if q - 1 <= pos { SameSlot(q - 1, pos, n); } else { SameSlot(pos, q - 1, n); }
    }
  }

  // ---------------------------------------------------------------- what every step keeps

  ghost predicate Owning<T>(pc: Pc<T>) {
    pc.PushOwns? || pc.PushWrote? || pc.PopOwns? || pc.PopRead?
  }

  /** Steps that change nothing but a thread that owns no ticket. */
  lemma QuietStepKeepsInv<T>(s: State<T>, t: nat, th: Thread<T>)
    requires Inv(s) && t < |s.threads| && !Owning(s.threads[t].pc) && !Owning(th.pc)
    requires th.sent == s.threads[t].sent && th.received == s.threads[t].received
    requires PcOk(s.(threads := s.threads[t := th]), t)
    ensures Inv(s.(threads := s.threads[t := th]))
  {
    var s' := s.(threads := s.threads[t := th]);
    forall i | 0 <= i < |s'.cells| ensures CellOk(s', i) {
      assert CellOk(s, i);
    }
    forall u | 0 <= u < |s'.threads| ensures PcOk(s', u) && LogOk(s', u) {
      assert PcOk(s, u) && LogOk(s, u);
    }
  }

  lemma PushBrowsingKeepsInv<T>(s: State<T>, a: Action<T>)
    requires Inv(s) && Enabled(s, a)
    requires a.BeginPush? || a.LoadPushSeq? || (a.ResolvePush? && Apply(s, a).enqueuePos == s.enqueuePos)
    ensures Inv(Apply(s, a))
  {
    assert PcOk(s, a.t);
    if a.LoadPushSeq? {
      PushPositionFacts(s, s.threads[a.t].pc.pos);
    }
    QuietStepKeepsInv(s, a.t, Apply(s, a).threads[a.t]);
  }

  lemma PopBrowsingKeepsInv<T>(s: State<T>, a: Action<T>)
    requires Inv(s) && Enabled(s, a)
    requires a.BeginPop? || a.LoadPopSeq? || (a.ResolvePop? && Apply(s, a).dequeuePos == s.dequeuePos)
          || a.BeginSize? || a.EndSize?
    ensures Inv(Apply(s, a))
  {
    assert PcOk(s, a.t);
    if a.LoadPopSeq? {
      PopPositionFacts(s, s.threads[a.t].pc.pos);
    }
    QuietStepKeepsInv(s, a.t, Apply(s, a).threads[a.t]);
  }

  lemma {:induction false} SentByAppend<T>(claims: seq<Claim<T>>, c: Claim<T>, t: nat, n: nat)
    requires n <= |claims|
    ensures SentBy(claims + [c], t, n) == SentBy(claims, t, n)
  {
    if n > 0 {
      SentByAppend(claims, c, t, n - 1);
    }
  }

  lemma {:induction false} TakenByAppend<T>(claims: seq<Claim<T>>, more: seq<Claim<T>>,
                                            takers: seq<nat>, others: seq<nat>, t: nat, n: nat)
    requires n <= |takers| && |takers| + |others| <= |claims| + |more| && |takers| <= |claims|
    ensures TakenBy(claims + more, takers + others, t, n) == TakenBy(claims, takers, t, n)
  {
    if n > 0 {
      TakenByAppend(claims, more, takers, others, t, n - 1);
    }
  }

  ghost predicate ClaimsForPush<T>(s: State<T>, a: Action<T>) {
    Enabled(s, a) && a.ResolvePush? && Resolved(s, s.threads[a.t], a.spurious).pc.PushOwns?
  }

  lemma PushClaimKeepsCell<T>(s: State<T>, a: Action<T>, i: nat)
    requires Inv(s) && ClaimsForPush(s, a) && i < |s.cells| && Shape(Apply(s, a))
    requires CellAt(s, s.enqueuePos).sequence == s.enqueuePos
    ensures CellOk(Apply(s, a), i)
  {
    var n, q := |s.cells|, s.cells[i].sequence;
    assert CellOk(s, i);
    if Slot(q, n) != i {
      assert Slot(q - 1 + n, n) == Slot(q - 1, n);
    }
  }

  lemma PushClaimKeepsCells<T>(s: State<T>, a: Action<T>)
    requires Inv(s) && ClaimsForPush(s, a)
    ensures Shape(Apply(s, a))
    ensures CellAt(s, s.enqueuePos).sequence == s.enqueuePos
    ensures forall i | 0 <= i < |s.cells| :: CellOk(Apply(s, a), i)
  {
    var s', n, p := Apply(s, a), |s.cells|, s.enqueuePos;
    assert PcOk(s, a.t);
    PushPositionFacts(s, p);
    assert CellAt(s, p).sequence == p;
    forall i | 0 <= i < n ensures CellOk(s', i) {
      PushClaimKeepsCell(s, a, i);
    }
  }

  lemma PushClaimKeepsLog<T>(s: State<T>, a: Action<T>, u: nat)
    requires Inv(s) && ClaimsForPush(s, a) && u < |s.threads|
    ensures Shape(Apply(s, a)) && PcOk(Apply(s, a), u) && LogOk(Apply(s, a), u)
  {
    var s' := Apply(s, a);
    PushClaimKeepsCells(s, a);
    assert LogOk(s, u) && PcOk(s, u);
    SentByAppend(s.claims, s'.claims[s.enqueuePos], u, s.enqueuePos);
    TakenByAppend(s.claims, [s'.claims[s.enqueuePos]], s.takers, [], u, s.dequeuePos);
    assert s.takers + [] == s.takers;
  }

  lemma PushClaimKeepsInv<T>(s: State<T>, a: Action<T>)
    requires Inv(s) && ClaimsForPush(s, a)
    ensures Inv(Apply(s, a))
  {
    var s' := Apply(s, a);
    PushClaimKeepsCells(s, a);
    forall u | 0 <= u < |s'.threads| ensures PcOk(s', u) && LogOk(s', u) {
      PushClaimKeepsLog(s, a, u);
    }
  }

  ghost predicate ClaimsForPop<T>(s: State<T>, a: Action<T>) {
    Enabled(s, a) && a.ResolvePop? && PopResolved(s, s.threads[a.t], a.spurious).pc.PopOwns?
  }

  lemma PopClaimFindsItsValue<T>(s: State<T>, a: Action<T>)
    requires Inv(s) && ClaimsForPop(s, a)
    ensures s.dequeuePos < s.enqueuePos
    ensures CellAt(s, s.dequeuePos) == Cell(s.dequeuePos + 1, s.claims[s.dequeuePos].value)
    ensures Slot(s.dequeuePos + 1, |s.cells|) != Slot(s.dequeuePos, |s.cells|)
  {
    assert PcOk(s, a.t);
    PopPositionFacts(s, s.dequeuePos);
    assert CellOk(s, Slot(s.dequeuePos, |s.cells|));
  }

  lemma PopClaimKeepsCell<T>(s: State<T>, a: Action<T>, i: nat)
    requires Inv(s) && ClaimsForPop(s, a) && i < |s.cells|
    ensures Shape(Apply(s, a)) && CellOk(Apply(s, a), i)
  {
    PopClaimFindsItsValue(s, a);
    assert CellOk(s, i);
  }

  lemma PopClaimKeepsLog<T>(s: State<T>, a: Action<T>, u: nat)
    requires Inv(s) && ClaimsForPop(s, a) && u < |s.threads|
    ensures Shape(Apply(s, a)) && PcOk(Apply(s, a), u) && LogOk(Apply(s, a), u)
  {
    PopClaimFindsItsValue(s, a);
    assert LogOk(s, u) && PcOk(s, u);
    TakenByAppend(s.claims, [], s.takers, [a.t], u, s.dequeuePos);
    assert s.claims + [] == s.claims;
  }

  lemma PopClaimKeepsInv<T>(s: State<T>, a: Action<T>)
    requires Inv(s) && ClaimsForPop(s, a)
    ensures Inv(Apply(s, a))
  {
    var s' := Apply(s, a);
    PopClaimFindsItsValue(s, a);
    forall i | 0 <= i < |s'.cells| ensures CellOk(s', i) {
      PopClaimKeepsCell(s, a, i);
    }
    forall u | 0 <= u < |s'.threads| ensures PcOk(s', u) && LogOk(s', u) {
      PopClaimKeepsLog(s, a, u);
    }
  }

  /** Owners of tickets of one cell are one thread: whoever else is inside a call is elsewhere. */
  lemma OwnersAreAlone<T>(s: State<T>, t: nat, u: nat)
    requires Inv(s) && t < |s.threads| && u < |s.threads| && t != u
    requires Owning(s.threads[t].pc) && Owning(s.threads[u].pc)
    ensures Slot(s.threads[t].pc.pos, |s.cells|) != Slot(s.threads[u].pc.pos, |s.cells|)
  {
    var n, p, q := |s.cells|, s.threads[t].pc.pos, s.threads[u].pc.pos;
    assert PcOk(s, t) && PcOk(s, u);
    NeighboursDiffer(p, n);
    NeighboursDiffer(q, n);
  }

  /** Steps of an owner inside its own cell, seen by every other thread. */
  lemma OwnerStepKeepsOthersPc<T>(s: State<T>, a: Action<T>, u: nat)
    requires Inv(s) && Enabled(s, a) && Owning(s.threads[a.t].pc)
    requires u < |s.threads| && u != a.t
    ensures Shape(Apply(s, a)) && PcOk(Apply(s, a), u)
  {
    assert PcOk(s, u) && PcOk(s, a.t);
    if Owning(s.threads[u].pc) {
      OwnersAreAlone(s, a.t, u);
    }
  }

  lemma OwnerStepKeepsOthers<T>(s: State<T>, a: Action<T>, u: nat)
    requires Inv(s) && Enabled(s, a) && Owning(s.threads[a.t].pc)
    requires u < |s.threads| && u != a.t
    ensures Shape(Apply(s, a)) && PcOk(Apply(s, a), u) && LogOk(Apply(s, a), u)
  {
    OwnerStepKeepsOthersPc(s, a, u);
    assert PcOk(s, u) && LogOk(s, u);
    assert Apply(s, a).threads[u] == s.threads[u];
  }

  lemma OwnerStepKeepsSelf<T>(s: State<T>, a: Action<T>)
    requires Inv(s) && Enabled(s, a) && Owning(s.threads[a.t].pc)
    ensures Shape(Apply(s, a)) && PcOk(Apply(s, a), a.t) && LogOk(Apply(s, a), a.t)
  {
    assert PcOk(s, a.t) && LogOk(s, a.t);
  }

  lemma OwnerStepKeepsOtherCells<T>(s: State<T>, a: Action<T>, i: nat)
    requires Inv(s) && Enabled(s, a) && Owning(s.threads[a.t].pc)
    requires i < |s.cells| && i != Slot(s.threads[a.t].pc.pos, |s.cells|)
    ensures Shape(Apply(s, a)) && CellOk(Apply(s, a), i)
  {
    var s' := Apply(s, a);
    assert CellOk(s, i);
    assert s'.cells[i] == s.cells[i] && s'.claims == s.claims && s'.takers == s.takers;
    assert forall u | 0 <= u < |s.threads| && u != a.t :: s'.threads[u] == s.threads[u];
  }

  lemma PushOwnerStepKeepsItsCell<T>(s: State<T>, a: Action<T>)
    requires Inv(s) && Enabled(s, a) && (a.WriteData? || a.Publish?)
    ensures Shape(Apply(s, a)) && CellOk(Apply(s, a), Slot(s.threads[a.t].pc.pos, |s.cells|))
  {
    var p := s.threads[a.t].pc.pos;
    assert PcOk(s, a.t) && CellOk(s, Slot(p, |s.cells|));
    NeighboursDiffer(p, |s.cells|);
  }

  lemma PopOwnerStepKeepsItsCell<T>(s: State<T>, a: Action<T>)
    requires Inv(s) && Enabled(s, a) && (a.ReadData? || a.Release?)
    ensures Shape(Apply(s, a)) && CellOk(Apply(s, a), Slot(s.threads[a.t].pc.pos, |s.cells|))
  {
    var p := s.threads[a.t].pc.pos;
    assert PcOk(s, a.t) && CellOk(s, Slot(p, |s.cells|));
    NeighboursDiffer(p, |s.cells|);
  }

  lemma OwnerStepKeepsInv<T>(s: State<T>, a: Action<T>)
    requires Inv(s) && Enabled(s, a) && Owning(s.threads[a.t].pc)
    ensures Inv(Apply(s, a))
  {
    var s' := Apply(s, a);
    OwnerStepKeepsSelf(s, a);
    forall u | 0 <= u < |s'.threads| ensures PcOk(s', u) && LogOk(s', u) {
      if u != a.t { OwnerStepKeepsOthers(s, a, u); }
    }
    forall i | 0 <= i < |s'.cells| ensures CellOk(s', i) {
      if i != Slot(s.threads[a.t].pc.pos, |s.cells|) {
        OwnerStepKeepsOtherCells(s, a, i);
      } else if a.WriteData? || a.Publish? {
        PushOwnerStepKeepsItsCell(s, a);
      } else {
        PopOwnerStepKeepsItsCell(s, a);
      }
    }
  }

  lemma StepKeepsInv<T>(s: State<T>, a: Action<T>)
    requires Inv(s) && Enabled(s, a)
    ensures Inv(Apply(s, a))
  {
    if Owning(s.threads[a.t].pc) {
      OwnerStepKeepsInv(s, a);
    } else if ClaimsForPush(s, a) {
      PushClaimKeepsInv(s, a);
    } else if ClaimsForPop(s, a) {
      PopClaimKeepsInv(s, a);
    } else if a.BeginPush? || a.LoadPushSeq? || a.ResolvePush? {
      PushBrowsingKeepsInv(s, a);
    } else {
      PopBrowsingKeepsInv(s, a);
    }
  }
}
