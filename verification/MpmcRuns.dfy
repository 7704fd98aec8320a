/** What the invariant of the many-thread ring means for whole runs: refinement of one FIFO,
    exclusive access, justified refusals, bounded retries and progress. */
module MpmcRuns {
  import opened RingIndex
  import opened BoundedFifo
  import opened MpmcProtocol

  /** A run: an initial state and the steps taken since, latest outermost. */
  datatype Run<T> = Start(s: State<T>) | Then(earlier: Run<T>, a: Action<T>)

  ghost function Final<T>(r: Run<T>): State<T>
    requires Possible(r)
    decreases r, 1
  {
    match r
    case Start(s) => s
    case Then(earlier, a) => Apply(Final(earlier), a)
  }

  /** A run of a queue of any capacity the code accepts. */
  ghost predicate Possible<T>(r: Run<T>)
    decreases r, 0
  {
    match r
    case Start(s) => Init(s)
    case Then(earlier, a) => Possible(earlier) && Enabled(Final(earlier), a)
  }

  ghost function Capacity<T>(r: Run<T>): nat {
    match r
    case Start(s) => |s.cells|
    case Then(earlier, _) => Capacity(earlier)
  }

  /** A run of a queue with at least the two cells its protocol needs. */
  ghost predicate Legal<T>(r: Run<T>) {
    Possible(r) && Capacity(r) >= 2
  }

  lemma {:induction false} SlotOfSmall(i: nat, n: nat)
    requires i < n
    ensures Slot(i, n) == i
  {
  }

  lemma InitMeetsInv<T>(s: State<T>)
    requires Init(s) && |s.cells| >= 2
    ensures Inv(s)
  {
    forall i | 0 <= i < |s.cells| ensures CellOk(s, i) {
      SlotOfSmall(i, |s.cells|);
    }
  }

  lemma {:induction false} RunKeepsInv<T>(r: Run<T>)
    requires Legal(r)
    ensures Inv(Final(r))
  {
    match r
    case Start(s) => InitMeetsInv(s);
    case Then(earlier, a) =>
      RunKeepsInv(earlier);
      StepKeepsInv(Final(earlier), a);
  }

  // ---------------------------------------------------------------- one FIFO

  ghost function Values<T>(claims: seq<Claim<T>>): (vs: seq<T>)
    ensures |vs| == |claims|
  {
    seq(|claims|, p requires 0 <= p < |claims| => claims[p].value)
  }

  lemma ValuesAppend<T>(claims: seq<Claim<T>>, c: Claim<T>)
    ensures Values(claims + [c]) == Values(claims) + [c.value]
  {
  }

  /** The queue a caller may think of: claimed by a push, not yet claimed by a pop. */
  ghost function Contents<T>(s: State<T>): seq<T>
    requires Shape(s)
  {
    Values(s.claims)[s.dequeuePos..]
  }

  /** The values of the tickets pops have won, in ticket order. */
  ghost function HandedOut<T>(s: State<T>): seq<T>
    requires Shape(s)
  {
    Values(s.claims)[..s.dequeuePos]
  }

  /** A push takes effect, and a pop chooses its value, at the successful compare-exchange. */
  ghost function EventOf<T>(s: State<T>, a: Action<T>): Event<T>
    requires Enabled(s, a)
  {
    if ClaimsForPush(s, a) then Pushed(s.threads[a.t].pc.v)
    else if ClaimsForPop(s, a) then Popped(CellAt(s, s.threads[a.t].pc.pos).data)
    else Silent
  }

  lemma StepRefinesFifo<T>(s: State<T>, a: Action<T>)
    requires Inv(s) && Enabled(s, a)
    ensures Inv(Apply(s, a)) && |Apply(s, a).cells| == |s.cells|
    ensures Next(|s.cells|, Contents(s), EventOf(s, a)) == Some(Contents(Apply(s, a)))
    ensures var e := EventOf(s, a);
      && Values(Apply(s, a).claims) == Values(s.claims) + (if e.Pushed? then [e.v] else [])
      && HandedOut(Apply(s, a)) == HandedOut(s) + (if e.Popped? then [e.v] else [])
  {
    StepKeepsInv(s, a);
    var s', d, vs := Apply(s, a), s.dequeuePos, Values(s.claims);
    if ClaimsForPush(s, a) {
      ValuesAppend(s.claims, Claim(a.t, s.threads[a.t].pc.v));
      assert Values(s'.claims)[d..] == vs[d..] + [s.threads[a.t].pc.v];
    } else if ClaimsForPop(s, a) {
      PopClaimFindsItsValue(s, a);
      assert vs[d..][1..] == vs[d + 1..] && vs[..d + 1] == vs[..d] + [vs[d]];
    }
  }

  ghost function EventsOf<T>(r: Run<T>): History<T>
    requires Possible(r)
  {
    match r
    case Start(_) => Empty
    case Then(earlier, a) => Snoc(EventsOf(earlier), EventOf(Final(earlier), a))
  }

  /** Every interleaving of any number of threads is a history of one FIFO queue bounded by the
      capacity. */
  lemma {:induction false} RunRefinesFifo<T>(r: Run<T>)
    requires Legal(r)
    ensures Inv(Final(r))
    ensures After(|Final(r).cells|, EventsOf(r)) == Some(Contents(Final(r)))
    ensures Inputs(EventsOf(r)) == Values(Final(r).claims) && Outputs(EventsOf(r)) == HandedOut(Final(r))
  {
    match r
    case Start(s) => InitMeetsInv(s);
    case Then(earlier, a) =>
      RunRefinesFifo(earlier);
      StepRefinesFifo(Final(earlier), a);
  }

  /** A pop holding ticket `p` returns the value pushed under ticket `p`, and that value is what
      the queue handed out at the pop's compare-exchange. */
  lemma PopReturnsItsTicketsValue<T>(r: Run<T>, t: nat)
    requires Legal(r) && t < |Final(r).threads| && Final(r).threads[t].pc.PopRead?
    ensures var s := Final(r); var pc := s.threads[t].pc;
      && pc.pos < |s.takers| <= |s.claims| && s.takers[pc.pos] == t && pc.v == s.claims[pc.pos].value
  {
    RunKeepsInv(r);
    assert PcOk(Final(r), t);
  }

  /** `m` is the run at some moment up to now. */
  ghost predicate Earlier<T>(m: Run<T>, r: Run<T>) {
    m == r || (r.Then? && Earlier(m, r.earlier))
  }

  /** A ticket never changes hands or value. */
  lemma {:induction false} TicketsAreForever<T>(m: Run<T>, r: Run<T>)
    requires Legal(r) && Earlier(m, r)
    ensures Legal(m) && |Final(m).cells| == |Final(r).cells|
    ensures Final(m).claims <= Final(r).claims && Final(m).takers <= Final(r).takers
  {
    if m != r {
      TicketsAreForever(m, r.earlier);
    }
  }

  /** Each thread's completed pushes are its tickets in order, so every producer's values keep
      their order; each thread's completed pops are its share of the tickets in ticket order. */
  lemma LogsFollowTickets<T>(r: Run<T>, t: nat)
    requires Legal(r) && t < |Final(r).threads|
    ensures Inv(Final(r))
    ensures var s := Final(r);
      && SentBy(s.claims, t, |s.claims|) == s.threads[t].sent + BeingSent(s.threads[t])
      && TakenBy(s.claims, s.takers, t, |s.takers|) == s.threads[t].received + BeingTaken(s, t)
  {
    RunKeepsInv(r);
    assert LogOk(Final(r), t);
  }

  // ---------------------------------------------------------------- nothing lost, nothing twice

  /** Everything threads 0..k-1 have received under the first n tickets. */
  ghost function TakenByAll<T>(s: State<T>, k: nat, n: nat): multiset<T>
    requires n <= |s.takers| <= |s.claims|
  {
    if k == 0 then multiset{} else TakenByAll(s, k - 1, n) + multiset(TakenBy(s.claims, s.takers, k - 1, n))
  }

  lemma TakenByStep<T>(s: State<T>, t: nat, n: nat)
    requires 0 < n <= |s.takers| <= |s.claims|
    ensures multiset(TakenBy(s.claims, s.takers, t, n))
         == multiset(TakenBy(s.claims, s.takers, t, n - 1))
          + (if s.takers[n - 1] == t then multiset{s.claims[n - 1].value} else multiset{})
  {
  }

  lemma {:induction false} TakenByAllStep<T>(s: State<T>, k: nat, n: nat)
    requires 0 < n <= |s.takers| <= |s.claims|
    ensures TakenByAll(s, k, n)
         == TakenByAll(s, k, n - 1) + (if s.takers[n - 1] < k then multiset{s.claims[n - 1].value} else multiset{})
  {
    if k > 0 {
      TakenByAllStep(s, k - 1, n);
      TakenByStep(s, k - 1, n);
    }
  }

  lemma {:induction false} TakenByAllIsEverything<T>(s: State<T>, n: nat)
    requires Shape(s) && n <= |s.takers|
    ensures TakenByAll(s, |s.threads|, n) == multiset(Values(s.claims)[..n])
  {
    if n == 0 {
      NothingTakenYet(s, |s.threads|);
    } else {
      TakenByAllIsEverything(s, n - 1);
      TakenByAllStep(s, |s.threads|, n);
      OneMoreElement(Values(s.claims), n);
      assert Values(s.claims)[n - 1] == s.claims[n - 1].value;
    }
  }

  lemma OneMoreElement<T>(vs: seq<T>, n: nat)
    requires 0 < n <= |vs|
    ensures multiset(vs[..n]) == multiset(vs[..n - 1]) + multiset{vs[n - 1]}
  {
    assert vs[..n] == vs[..n - 1] + [vs[n - 1]];
  }

  lemma {:induction false} NothingTakenYet<T>(s: State<T>, k: nat)
    requires Shape(s)
    ensures TakenByAll(s, k, 0) == multiset{}
  {
    if k > 0 { NothingTakenYet(s, k - 1); }
  }

  /** What the first k threads have received from completed pops. */
  ghost function ReceivedByAll<T>(s: State<T>, k: nat): multiset<T>
    requires k <= |s.threads|
  {
    if k == 0 then multiset{} else ReceivedByAll(s, k - 1) + multiset(s.threads[k - 1].received)
  }

  lemma {:induction false} ReceivedIsTaken<T>(s: State<T>, k: nat)
    requires Inv(s) && k <= |s.threads|
    requires forall t | 0 <= t < |s.threads| :: s.threads[t].pc.Idle?
    ensures ReceivedByAll(s, k) == TakenByAll(s, k, |s.takers|)
  {
    if k > 0 {
      ReceivedIsTaken(s, k - 1);
      assert LogOk(s, k - 1);
    }
  }

  lemma SplitMultiset<T>(vs: seq<T>, d: nat)
    requires d <= |vs|
    ensures multiset(vs) == multiset(vs[..d]) + multiset(vs[d..])
  {
    assert vs == vs[..d] + vs[d..];
  }

  /** With no call in progress, everything pushed has been received by exactly one thread or is
      still queued: nothing is lost, duplicated or invented. */
  lemma Conservation<T>(r: Run<T>)
    requires Legal(r)
    requires forall t | 0 <= t < |Final(r).threads| :: Final(r).threads[t].pc.Idle?
    ensures Inv(Final(r))
    ensures multiset(Values(Final(r).claims))
         == ReceivedByAll(Final(r), |Final(r).threads|) + multiset(Contents(Final(r)))
  {
    RunKeepsInv(r);
    var s := Final(r);
    ReceivedIsTaken(s, |s.threads|);
    TakenByAllIsEverything(s, s.dequeuePos);
    SplitMultiset(Values(s.claims), s.dequeuePos);
  }

  // ---------------------------------------------------------------- exclusive access

  /** No two threads are ever between winning a ticket and storing the sequence of one cell, so no
      two threads touch one cell's data at the same time; and every won ticket has one owner. */
  lemma CellDataIsExclusive<T>(r: Run<T>, t: nat, u: nat)
    requires Legal(r)
    requires t < |Final(r).threads| && u < |Final(r).threads| && t != u
    requires Owning(Final(r).threads[t].pc) && Owning(Final(r).threads[u].pc)
    ensures Slot(Final(r).threads[t].pc.pos, |Final(r).cells|)
         != Slot(Final(r).threads[u].pc.pos, |Final(r).cells|)
  {
    RunKeepsInv(r);
    OwnersAreAlone(Final(r), t, u);
  }

  /** A published value that no pop has won yet sits untouched in its cell. */
  lemma WaitingValueIsIntact<T>(r: Run<T>, p: nat)
    requires Legal(r) && Final(r).dequeuePos <= p && Published(Final(r), p)
    ensures p < |Final(r).claims| && CellAt(Final(r), p) == Cell(p + 1, Final(r).claims[p].value)
  {
    RunKeepsInv(r);
    var s := Final(r);
    var n, i := |s.cells|, Slot(p, |s.cells|);
    var q := s.cells[i].sequence;
    assert CellOk(s, i);
    var k := if Slot(q, n) == i then q else q - 1;
    SameSlot(if k <= p then k else p, if k <= p then p else k, n);
  }

  // ---------------------------------------------------------------- refusals

  /** Ticket `p` has been pushed, popped and its cell handed on to ticket `p + capacity`. */
  ghost predicate Released<T>(s: State<T>, p: nat) {
    && p < s.dequeuePos
    && forall t | 0 <= t < |s.threads| :: !Popping(s, t, p)
  }

  /** Ticket `p` has been claimed by a push and its value made visible to pops. */
  ghost predicate Published<T>(s: State<T>, p: nat) {
    && p < s.enqueuePos
    && forall t | 0 <= t < |s.threads| :: !Pushing(s, t, p)
  }

  lemma FullIsJustified<T>(s: State<T>, pos: nat)
    requires Inv(s) && pos <= s.enqueuePos && CellAt(s, pos).sequence < pos
    ensures pos == s.enqueuePos && pos >= |s.cells| && !Released(s, pos - |s.cells|)
  {
    PushPositionFacts(s, pos);
    var n := |s.cells|;
    var p := pos - n;
    assert Slot(p + n, n) == Slot(p, n);
    NeighboursDiffer(p, n);
    assert CellOk(s, Slot(pos, n));
  }

  lemma EmptyIsJustified<T>(s: State<T>, pos: nat)
    requires Inv(s) && pos <= s.dequeuePos && CellAt(s, pos).sequence < pos + 1
    ensures pos == s.dequeuePos && !Published(s, pos)
  {
    PopPositionFacts(s, pos);
  }

  /** The push's sequence test says "full" at the present position exactly when the ticket one lap
      earlier has not been released, and otherwise it says "free". */
  lemma FullIffUnreleased<T>(s: State<T>)
    requires Inv(s)
    ensures var n, p, q := |s.cells|, s.enqueuePos, CellAt(s, s.enqueuePos).sequence;
      && (q < p <==> p >= n && !Released(s, p - n))
      && (q == p <==> p < n || Released(s, p - n))
  {
    var n, p := |s.cells|, s.enqueuePos;
    PushPositionFacts(s, p);
    if CellAt(s, p).sequence < p {
      FullIsJustified(s, p);
    } else if p >= n && !Released(s, p - n) {
      UnreleasedIsFull(s, p - n);
    }
  }

  lemma UnreleasedIsFull<T>(s: State<T>, p: nat)
    requires Inv(s) && s.enqueuePos == p + |s.cells| && !Released(s, p)
    ensures CellAt(s, s.enqueuePos).sequence < s.enqueuePos
  {
    var n := |s.cells|;
    assert Slot(p + n, n) == Slot(p, n);
    if p < s.dequeuePos {
      var t :| 0 <= t < |s.threads| && Popping(s, t, p);
      assert PcOk(s, t);
    } else {
      PushPositionFacts(s, s.enqueuePos);
    }
  }

  /** The pop's sequence test says "empty" at the present position exactly when its ticket is not
      published, and otherwise it says "ready". */
  lemma EmptyIffUnpublished<T>(s: State<T>)
    requires Inv(s)
    ensures var p, q := s.dequeuePos, CellAt(s, s.dequeuePos).sequence;
      && (q < p + 1 <==> !Published(s, p))
      && (q == p + 1 <==> Published(s, p))
  {
    PopPositionFacts(s, s.dequeuePos);
    forall t | 0 <= t < |s.threads| && Pushing(s, t, s.dequeuePos)
      ensures CellAt(s, s.dequeuePos).sequence == s.dequeuePos
    {
      assert PcOk(s, t);
    }
  }

  /** Thread `t` is about to load a sequence at `pos`, which is the enqueue position, and the ticket one lap
      earlier has not been released. */
  ghost predicate FullHere<T>(s: State<T>, t: nat, pos: nat) {
    && t < |s.threads| && s.threads[t].pc.PushAt?
    && pos == s.enqueuePos && pos >= |s.cells| && !Released(s, pos - |s.cells|)
  }

  lemma FullLoadIsJustified<T>(s: State<T>, a: Action<T>)
    requires Inv(s) && Enabled(s, a)
    requires var pc := Apply(s, a).threads[a.t].pc; pc.PushSaw? && pc.seen < pc.pos
    ensures FullHere(s, a.t, Apply(s, a).threads[a.t].pc.pos)
  {
    assert PcOk(s, a.t);
    FullIsJustified(s, s.threads[a.t].pc.pos);
  }

  lemma EmptyLoadIsJustified<T>(s: State<T>, a: Action<T>)
    requires Inv(s) && Enabled(s, a)
    requires var pc := Apply(s, a).threads[a.t].pc; pc.PopSaw? && pc.seen < pc.pos + 1
    ensures var pos := Apply(s, a).threads[a.t].pc.pos;
      s.threads[a.t].pc.PopAt? && pos == s.dequeuePos && !Published(s, pos)
  {
    assert PcOk(s, a.t);
    EmptyIsJustified(s, s.threads[a.t].pc.pos);
  }

  /** The run just before the latest step of thread `t`. */
  ghost function BeforeLastStep<T>(r: Run<T>, t: nat): Run<T> {
    match r
    case Start(_) => r
    case Then(earlier, a) => if a.t == t then earlier else BeforeLastStep(earlier, t)
  }

  lemma OthersStay<T>(s: State<T>, a: Action<T>, t: nat)
    requires Enabled(s, a) && t != a.t
    ensures |Apply(s, a).threads| == |s.threads|
    ensures t < |s.threads| ==> Apply(s, a).threads[t] == s.threads[t]
  {
  }

  /** A thread about to return "full" from position `pos` loaded the sequence at a moment when the
      enqueue position really was `pos` and the ticket one lap earlier was not yet released. */
  lemma {:induction false} FullCallWasJustified<T>(r: Run<T>, t: nat)
    requires Legal(r) && t < |Final(r).threads|
    requires var pc := Final(r).threads[t].pc; pc.PushSaw? && pc.seen < pc.pos
    ensures Legal(BeforeLastStep(r, t))
    ensures FullHere(Final(BeforeLastStep(r, t)), t, Final(r).threads[t].pc.pos)
  {
    var s := Final(r.earlier);
    if r.a.t == t {
      RunKeepsInv(r.earlier);
      FullLoadIsJustified(s, r.a);
    } else {
      OthersStay(s, r.a, t);
      FullCallWasJustified(r.earlier, t);
    }
  }

  /** The same for "empty": the dequeue position was `pos` and ticket `pos` was not published. */
  lemma {:induction false} EmptyCallWasJustified<T>(r: Run<T>, t: nat)
    requires Legal(r) && t < |Final(r).threads|
    requires var pc := Final(r).threads[t].pc; pc.PopSaw? && pc.seen < pc.pos + 1
    ensures Legal(BeforeLastStep(r, t))
    ensures var s, pos := Final(BeforeLastStep(r, t)), Final(r).threads[t].pc.pos;
      && t < |s.threads| && s.threads[t].pc.PopAt?
      && pos == s.dequeuePos && !Published(s, pos)
  {
    var s := Final(r.earlier);
    if r.a.t == t {
      RunKeepsInv(r.earlier);
      EmptyLoadIsJustified(s, r.a);
    } else {
      OthersStay(s, r.a, t);
      EmptyCallWasJustified(r.earlier, t);
    }
  }

  /** No thread is between winning a ticket and finishing with it. */
  ghost predicate Quiet<T>(s: State<T>) {
    forall t | 0 <= t < |s.threads| :: !Owning(s.threads[t].pc)
  }

  /** With no ticket in flight the sequence test decides exactly "full" and "empty". */
  lemma QuietTestsAreExact<T>(s: State<T>)
    requires Inv(s)
    ensures Quiet(s) ==>
      (CellAt(s, s.enqueuePos).sequence == s.enqueuePos <==> |Contents(s)| < |s.cells|)
    ensures Quiet(s) ==>
      (CellAt(s, s.dequeuePos).sequence == s.dequeuePos + 1 <==> |Contents(s)| > 0)
  {
    PushPositionFacts(s, s.enqueuePos);
    PopPositionFacts(s, s.dequeuePos);
    assert CellOk(s, Slot(s.enqueuePos, |s.cells|));
    assert CellOk(s, Slot(s.dequeuePos, |s.cells|));
    if s.enqueuePos == s.dequeuePos + |s.cells| {
      assert Slot(s.dequeuePos + |s.cells|, |s.cells|) == Slot(s.dequeuePos, |s.cells|);
    }
  }

  // ---------------------------------------------------------------- retries and progress

  /** Going round again for any reason but a spurious failure moves a call to a later position. */
  lemma RetryRaisesPosition<T>(s: State<T>, a: Action<T>)
    requires Inv(s) && Enabled(s, a) && Apply(s, a).threads[a.t].retries > s.threads[a.t].retries
    ensures a.ResolvePush? || a.ResolvePop?
    ensures Apply(s, a).threads[a.t].pc.PushAt? || Apply(s, a).threads[a.t].pc.PopAt?
    ensures Apply(s, a).threads[a.t].pc.pos > s.threads[a.t].pc.pos
    ensures Apply(s, a).threads[a.t].retries == s.threads[a.t].retries + 1
  {
    assert PcOk(s, a.t);
  }

  /** What a compare-exchange or a look at a taken cell leaves behind when the call goes round again: the
      present position, one more retry exactly if that is a later one, and no move only after a spurious
      failure. */
  lemma GoingRoundAgain<T>(s: State<T>, a: Action<T>)
    requires Inv(s) && Enabled(s, a) && (a.ResolvePush? || a.ResolvePop?)
    requires Apply(s, a).threads[a.t].pc.PushAt? || Apply(s, a).threads[a.t].pc.PopAt?
    ensures var th, th' := s.threads[a.t], Apply(s, a).threads[a.t];
      && th'.pc.pos == (if a.ResolvePush? then s.enqueuePos else s.dequeuePos)
      && th'.pc.pos >= th.pc.pos
      && th'.retries == th.retries + (if th'.pc.pos > th.pc.pos then 1 else 0)
      && (th'.pc.pos == th.pc.pos ==> a.spurious)
  {
    assert PcOk(s, a.t);
  }

  /** The run just before thread `t` began its latest call. */
  ghost function BeforeCall<T>(r: Run<T>, t: nat): Run<T> {
    match r
    case Start(_) => r
    case Then(earlier, a) =>
      if a.t == t && (a.BeginPush? || a.BeginPop? || a.BeginSize?) then earlier else BeforeCall(earlier, t)
  }

  lemma {:induction false} StartIsFirstLoad<T>(r: Run<T>, t: nat)
    requires Legal(r) && t < |Final(r).threads|
    ensures Legal(BeforeCall(r, t))
    ensures var th, s := Final(r).threads[t], Final(BeforeCall(r, t));
      && (th.pc.PushAt? || th.pc.PushSaw? ==> th.start == s.enqueuePos)
      && (th.pc.PopAt? || th.pc.PopSaw? ==> th.start == s.dequeuePos)
  {
    if r.Then? {
      StartIsFirstLoad(r.earlier, t);
      StepKeepsStart(Final(r.earlier), r.a, t);
    }
  }

  lemma StepKeepsStart<T>(s: State<T>, a: Action<T>, t: nat)
    requires Enabled(s, a) && t < |s.threads|
    ensures |Apply(s, a).threads| == |s.threads|
    ensures var th, th' := s.threads[t], Apply(s, a).threads[t];
      && (a.t == t && a.BeginPush? ==> th'.start == s.enqueuePos)
      && (a.t == t && a.BeginPop? ==> th'.start == s.dequeuePos)
      && (!(a.t == t && (a.BeginPush? || a.BeginPop? || a.BeginSize?)) ==>
            && th'.start == th.start
            && (th'.pc.PushAt? || th'.pc.PushSaw? ==> th.pc.PushAt? || th.pc.PushSaw?)
            && (th'.pc.PopAt? || th'.pc.PopSaw? ==> th.pc.PopAt? || th.pc.PopSaw?))
  {
  }

  /** A call has retried at most as often as tickets were won since it loaded its first position. */
  lemma RetriesAreBounded<T>(r: Run<T>, t: nat)
    requires Legal(r) && t < |Final(r).threads|
    ensures Legal(BeforeCall(r, t))
    ensures var s, first, th := Final(r), Final(BeforeCall(r, t)), Final(r).threads[t];
      && (th.pc.PushAt? || th.pc.PushSaw? ==> th.retries <= s.enqueuePos - first.enqueuePos)
      && (th.pc.PopAt? || th.pc.PopSaw? ==> th.retries <= s.dequeuePos - first.dequeuePos)
  {
    RunKeepsInv(r);
    assert PcOk(Final(r), t);
    StartIsFirstLoad(r, t);
  }

  /** The next step of a call when its compare-exchange does not fail spuriously. */
  ghost function NextStep<T>(s: State<T>, t: nat, residue: T): Action<T>
    requires t < |s.threads| && !s.threads[t].pc.Idle?
  {
    match s.threads[t].pc
    case PushAt(_, _) => LoadPushSeq(t)
    case PushSaw(_, _, _) => ResolvePush(t, false)
    case PushOwns(_, _) => WriteData(t)
    case PushWrote(_, _) => Publish(t)
    case PopAt(_) => LoadPopSeq(t)
    case PopSaw(_, _) => ResolvePop(t, false)
    case PopOwns(_) => ReadData(t, residue)
    case PopRead(_, _) => Release(t)
    case SizeSaw(_) => EndSize(t)
  }

  /** How many steps of its own a call still needs if nobody else moves. */
  ghost function StepsLeft<T>(s: State<T>, t: nat): nat
    requires t < |s.threads|
  {
    match s.threads[t].pc
    case Idle => 0
    case PushAt(pos, _) => if pos == s.enqueuePos then 4 else 6
    case PushSaw(pos, _, _) => if pos == s.enqueuePos then 3 else 5
    case PushOwns(_, _) => 2
    case PushWrote(_, _) => 1
    case PopAt(pos) => if pos == s.dequeuePos then 4 else 6
    case PopSaw(pos, _) => if pos == s.dequeuePos then 3 else 5
    case PopOwns(_) => 2
    case PopRead(_, _) => 1
    case SizeSaw(_) => 1
  }

  lemma SoloStepProgresses<T>(s: State<T>, t: nat, residue: T)
    requires Inv(s) && t < |s.threads| && !s.threads[t].pc.Idle?
    ensures var a := NextStep(s, t, residue);
      && Enabled(s, a) && Inv(Apply(s, a)) && |Apply(s, a).threads| == |s.threads|
      && StepsLeft(Apply(s, a), t) < StepsLeft(s, t)
  {
    assert PcOk(s, t);
    StepKeepsInv(s, NextStep(s, t, residue));
  }

  /** `k` steps of thread `t` alone, fewer if its call ends. */
  ghost function Solo<T>(s: State<T>, t: nat, residue: T, k: nat): State<T>
    requires t < |s.threads|
    decreases k
  {
    if k == 0 || s.threads[t].pc.Idle? || !Enabled(s, NextStep(s, t, residue)) then s
    else Solo(Apply(s, NextStep(s, t, residue)), t, residue, k - 1)
  }

  /** The first of several steps alone. */
  lemma SoloStep<T>(s: State<T>, t: nat, residue: T, k: nat) returns (s': State<T>)
    requires Inv(s) && t < |s.threads| && !s.threads[t].pc.Idle? && k > 0
    ensures Inv(s') && t < |s'.threads| && StepsLeft(s', t) < StepsLeft(s, t)
    ensures Solo(s, t, residue, k) == Solo(s', t, residue, k - 1)
  {
    SoloStepProgresses(s, t, residue);
    s' := Apply(s, NextStep(s, t, residue));
  }

  /** Obstruction freedom: from any reachable state, wherever the other threads are stopped, a call
      left alone returns within `StepsLeft` of its own steps. */
  lemma {:induction false} SoloCallReturns<T>(s: State<T>, t: nat, residue: T, k: nat)
    requires Inv(s) && t < |s.threads| && StepsLeft(s, t) <= k
    ensures Inv(Solo(s, t, residue, k)) && t < |Solo(s, t, residue, k).threads|
    ensures Solo(s, t, residue, k).threads[t].pc.Idle?
    decreases k
  {
    if !s.threads[t].pc.Idle? {
      var s' := SoloStep(s, t, residue, k);
      SoloCallReturns(s', t, residue, k - 1);
    }
  }

  /** Six are always enough. */
  lemma SixStepsSuffice<T>(s: State<T>, t: nat, residue: T)
    requires Inv(s) && t < |s.threads|
    ensures Inv(Solo(s, t, residue, 6)) && t < |Solo(s, t, residue, 6).threads|
    ensures Solo(s, t, residue, 6).threads[t].pc.Idle?
  {
    SoloCallReturns(s, t, residue, 6);
  }

  // ---------------------------------------------------------------- empty and size

  /** `m` is the run at one of the moments from just before thread `t`'s latest step up to now. */
  ghost predicate SinceLastStep<T>(m: Run<T>, r: Run<T>, t: nat) {
    || m == r
    || (r.Then? && if r.a.t == t then m == r.earlier else SinceLastStep(m, r.earlier, t))
  }

  /** What `size` computes from its two loads. */
  function SizeResult(enqueue: nat, dequeue: nat): nat {
    if enqueue >= dequeue then enqueue - dequeue else 0
  }

  lemma {:induction false} PositionsOnlyGrow<T>(m: Run<T>, r: Run<T>, t: nat)
    requires Legal(r) && SinceLastStep(m, r, t)
    ensures Legal(m)
    ensures Final(m).enqueuePos <= Final(r).enqueuePos && Final(m).dequeuePos <= Final(r).dequeuePos
    ensures Final(m).claims <= Final(r).claims && Final(m).takers <= Final(r).takers
  {
    if m != r && r.a.t != t {
      PositionsOnlyGrow(m, r.earlier, t);
    }
  }

  lemma {:induction false} SizeSawThePast<T>(r: Run<T>, t: nat)
    requires Legal(r) && t < |Final(r).threads| && Final(r).threads[t].pc.SizeSaw?
    ensures SinceLastStep(BeforeLastStep(r, t), r, t) && Legal(BeforeLastStep(r, t))
    ensures Final(r).threads[t].pc.dequeue == Final(BeforeLastStep(r, t)).dequeuePos
  {
    if r.a.t != t {
      OthersStay(Final(r.earlier), r.a, t);
      SizeSawThePast(r.earlier, t);
    }
  }

  /** `size` never needs its fallback and never under-reports: neither the length at its first load
      nor the length at its second. */
  lemma SizeNeverUnderReports<T>(r: Run<T>, t: nat)
    requires Legal(r) && t < |Final(r).threads| && Final(r).threads[t].pc.SizeSaw?
    ensures Legal(BeforeLastStep(r, t))
    ensures var s, first, d := Final(r), Final(BeforeLastStep(r, t)), Final(r).threads[t].pc.dequeue;
      && s.enqueuePos >= d
      && SizeResult(s.enqueuePos, d) >= s.enqueuePos - s.dequeuePos
      && SizeResult(s.enqueuePos, d) >= first.enqueuePos - first.dequeuePos
  {
    RunKeepsInv(r);
    assert PcOk(Final(r), t);
    SizeSawThePast(r, t);
    PositionsOnlyGrow(BeforeLastStep(r, t), r, t);
  }

  /** If `empty` is about to answer true, every push claimed had been taken at every moment between
      its two loads. */
  lemma {:induction false} EmptyMeansEmptyThroughout<T>(r: Run<T>, t: nat, m: Run<T>)
    requires Legal(r) && t < |Final(r).threads| && Final(r).threads[t].pc.SizeSaw?
    requires Final(r).threads[t].pc.dequeue >= Final(r).enqueuePos
    requires SinceLastStep(m, r, t)
    ensures Legal(m)
    ensures Final(m).enqueuePos == Final(m).dequeuePos == Final(r).enqueuePos
    ensures Shape(Final(m)) && Contents(Final(m)) == []
  {
    SizeSawThePast(r, t);
    PositionsOnlyGrow(m, r, t);
    RunKeepsInv(m);
    StartOfCallIsOldest(m, r, t);
    PositionsOnlyGrow(BeforeLastStep(r, t), m, t);
  }

  lemma {:induction false} StartOfCallIsOldest<T>(m: Run<T>, r: Run<T>, t: nat)
    requires SinceLastStep(m, r, t)
    ensures SinceLastStep(BeforeLastStep(r, t), m, t)
  {
    if r.Then? && r.a.t != t {
      StartOfCallIsOldest(if m == r then r.earlier else m, r.earlier, t);
    }
  }

  // ---------------------------------------------------------------- machine integers

  /** `static_cast<intptr_t>` of a 64-bit size. */
  function AsSigned(x: nat): (y: int)
    requires x < 0x1_0000_0000_0000_0000
    ensures -0x8000_0000_0000_0000 <= y < 0x8000_0000_0000_0000
    ensures y == x || y == x - 0x1_0000_0000_0000_0000
  {
    if x < 0x8000_0000_0000_0000 then x else x - 0x1_0000_0000_0000_0000
  }

  lemma SequencesAreBounded<T>(s: State<T>, pos: nat)
    requires Inv(s)
    ensures CellAt(s, pos).sequence <= s.enqueuePos + |s.cells|
  {
    assert CellOk(s, Slot(pos, |s.cells|));
  }

  /** While positions stay below 2^63 the signed 64-bit difference in the code neither overflows nor
      differs from the difference of the unbounded positions used here. */
  lemma MachineDifferenceIsExact<T>(r: Run<T>, t: nat)
    requires Legal(r) && t < |Final(r).threads|
    requires Final(r).enqueuePos + |Final(r).cells| < 0x8000_0000_0000_0000
    requires Final(r).threads[t].pc.PushSaw? || Final(r).threads[t].pc.PopSaw?
    ensures var pc := Final(r).threads[t].pc;
      && pc.seen < 0x8000_0000_0000_0000 && pc.pos + 1 < 0x8000_0000_0000_0000
      && AsSigned(pc.seen) - AsSigned(pc.pos) == pc.seen - pc.pos
      && AsSigned(pc.seen) - AsSigned(pc.pos + 1) == pc.seen - (pc.pos + 1)
      && -0x8000_0000_0000_0000 <= pc.seen - (pc.pos + 1) && pc.seen - pc.pos < 0x8000_0000_0000_0000
  {
    RunKeepsInv(r);
    var s := Final(r);
    assert PcOk(s, t);
    SequencesAreBounded(s, s.threads[t].pc.pos);
  }

  // ---------------------------------------------------------------- why two cells are needed

  /** A queue of one cell and one thread. */
  ghost function OneCell<T>(enqueue: nat, dequeue: nat, c: Cell<T>, th: Thread<T>,
                            claims: seq<Claim<T>>): State<T>
  {
    State(enqueue, dequeue, [c], [th], claims, [])
  }

  lemma OneCellPushSucceeds<T>(p: nat, c: Cell<T>, th: Thread<T>, claims: seq<Claim<T>>, v: T)
    requires th.pc.Idle? && c.sequence == p
    ensures var s := OneCell(p, 0, c, th, claims);
      && Enabled(s, BeginPush(0, v))
      && Solo(Apply(s, BeginPush(0, v)), 0, c.data, 4)
      == OneCell(p + 1, 0, Cell(p + 1, v), Thread(Idle, p, 0, th.sent + [v], th.received),
                 claims + [Claim(0, v)])
  {
    var s := OneCell(p, 0, c, th, claims);
    assert Slot(p, 1) == 0;
    var s0 := Apply(s, BeginPush(0, v));
    var s1 := Apply(s0, LoadPushSeq(0));
    assert Solo(s0, 0, c.data, 4) == Solo(s1, 0, c.data, 3);
    var s2 := Apply(s1, ResolvePush(0, false));
    assert Solo(s1, 0, c.data, 3) == Solo(s2, 0, c.data, 2);
    var s3 := Apply(s2, WriteData(0));
    assert Solo(s2, 0, c.data, 2) == Solo(s3, 0, c.data, 1);
    assert Solo(s3, 0, c.data, 1) == Apply(s3, Publish(0));
  }

  lemma OneCellPopSpins<T>(c: Cell<T>, th: Thread<T>, claims: seq<Claim<T>>, k: nat)
    requires th.pc == PopAt(0) && c.sequence == 2
    ensures Solo(OneCell(2, 0, c, th, claims), 0, c.data, k + 2)
         == Solo(OneCell(2, 0, c, th.(retries := th.retries + 1), claims), 0, c.data, k)
  {
    var s := OneCell(2, 0, c, th, claims);
    assert Slot(0, 1) == 0;
    var s1 := Apply(s, LoadPopSeq(0));
    assert Solo(s, 0, c.data, k + 2) == Solo(s1, 0, c.data, k + 1);
    var s2 := Apply(s1, ResolvePop(0, false));
    assert Solo(s1, 0, c.data, k + 1) == Solo(s2, 0, c.data, k);
    assert s2.threads == [th.(retries := th.retries + 1)];
  }

  /** With one cell "published by p" and "free for p + 1" are the same number.  A second push onto
      the full queue is accepted and overwrites the first value, and from then on a pop only spins:
      two of its steps bring it back to where it was, with one more retry. */
  lemma CapacityOneLosesAValue<T>(x: T, v: T, w: T, k: nat)
    ensures
      var s0 := OneCell(0, 0, Cell(0, x), Thread(Idle, 0, 0, [], []), []);
      var s1 := OneCell(1, 0, Cell(1, v), Thread(Idle, 0, 0, [v], []), [Claim(0, v)]);
      var s2 := OneCell(2, 0, Cell(2, w), Thread(Idle, 1, 0, [v, w], []), [Claim(0, v), Claim(0, w)]);
      && Enabled(s0, BeginPush(0, v)) && Solo(Apply(s0, BeginPush(0, v)), 0, x, 4) == s1
      && Enabled(s1, BeginPush(0, w)) && Solo(Apply(s1, BeginPush(0, w)), 0, v, 4) == s2
      && Enabled(s2, BeginPop(0))
      && Solo(Apply(s2, BeginPop(0)), 0, w, 2 * k)
      == OneCell(2, 0, Cell(2, w), Thread(PopAt(0), 0, k, [v, w], []), [Claim(0, v), Claim(0, w)])
  {
    FirstPushIntoOneCell(x, v);
    SecondPushIntoOneCell(v, w);
    PopSpinsForever(v, w, 0, k);
  }

  lemma FirstPushIntoOneCell<T>(x: T, v: T)
    ensures
      var s0 := OneCell(0, 0, Cell(0, x), Thread(Idle, 0, 0, [], []), []);
      && Enabled(s0, BeginPush(0, v))
      && Solo(Apply(s0, BeginPush(0, v)), 0, x, 4)
      == OneCell(1, 0, Cell(1, v), Thread(Idle, 0, 0, [v], []), [Claim(0, v)])
  {
    OneCellPushSucceeds(0, Cell(0, x), Thread(Idle, 0, 0, [], []), [], v);
    assert [] + [v] == [v] && [] + [Claim(0, v)] == [Claim(0, v)];
  }

  lemma SecondPushIntoOneCell<T>(v: T, w: T)
    ensures
      var s1 := OneCell(1, 0, Cell(1, v), Thread(Idle, 0, 0, [v], []), [Claim(0, v)]);
      && Enabled(s1, BeginPush(0, w))
      && Solo(Apply(s1, BeginPush(0, w)), 0, v, 4)
      == OneCell(2, 0, Cell(2, w), Thread(Idle, 1, 0, [v, w], []), [Claim(0, v), Claim(0, w)])
  {
    OneCellPushSucceeds(1, Cell(1, v), Thread(Idle, 0, 0, [v], []), [Claim(0, v)], w);
    assert [v] + [w] == [v, w] && [Claim(0, v)] + [Claim(0, w)] == [Claim(0, v), Claim(0, w)];
  }

  /** The stuck queue, with the pop's retry counter at `j`. */
  ghost function Stuck<T>(v: T, w: T, j: nat): State<T> {
    OneCell(2, 0, Cell(2, w), Thread(PopAt(0), 0, j, [v, w], []), [Claim(0, v), Claim(0, w)])
  }

  lemma {:induction false} PopSpinsForever<T>(v: T, w: T, j: nat, k: nat)
    ensures Solo(Stuck(v, w, j), 0, w, 2 * k) == Stuck(v, w, j + k)
    decreases k
  {
    if k > 0 {
      OneCellPopSpins(Cell(2, w), Thread(PopAt(0), 0, j, [v, w], []), [Claim(0, v), Claim(0, w)], 2 * k - 2);
      assert Solo(Stuck(v, w, j), 0, w, 2 * k) == Solo(Stuck(v, w, j + 1), 0, w, 2 * (k - 1));
      PopSpinsForever(v, w, j + 1, k - 1);
    }
  }

  // ---------------------------------------------------------------- and why two are enough

  /** Every run of a queue of that capacity is a history of a FIFO queue of that bound. */
  ghost predicate KeepsFifo<T(!new)>(capacity: nat) {
    forall r: Run<T> :: Possible(r) && Capacity(r) == capacity ==> After(capacity, EventsOf(r)).Some?
  }

  lemma {:induction false} CapacityStays<T>(r: Run<T>)
    requires Possible(r)
    ensures |Final(r).cells| == Capacity(r)
  {
    if r.Then? {
      CapacityStays(r.earlier);
    }
  }

  lemma OneMoreStep<T>(r: Run<T>, a: Action<T>, bound: nat)
    requires Possible(r) && Enabled(Final(r), a)
    ensures Possible(Then(r, a)) && Capacity(Then(r, a)) == Capacity(r)
    ensures Final(Then(r, a)) == Apply(Final(r), a)
    ensures After(bound, EventsOf(Then(r, a)))
         == match After(bound, EventsOf(r)) case None => None case Some(q) => Next(bound, q, EventOf(Final(r), a))
  {
  }

  /** One undisturbed push by thread 0. */
  ghost function PushRun<T>(r: Run<T>, v: T): Run<T> {
    Then(Then(Then(Then(Then(r, BeginPush(0, v)), LoadPushSeq(0)), ResolvePush(0, false)), WriteData(0)), Publish(0))
  }

  /** Into a single cell it always goes through, full or not. */
  lemma PushRunIntoOneCell<T>(r: Run<T>, v: T, p: nat, c: Cell<T>, th: Thread<T>, claims: seq<Claim<T>>)
    requires Possible(r) && Final(r) == OneCell(p, 0, c, th, claims) && th.pc.Idle? && c.sequence == p
    ensures Possible(PushRun(r, v)) && Capacity(PushRun(r, v)) == Capacity(r)
    ensures Final(PushRun(r, v))
         == OneCell(p + 1, 0, Cell(p + 1, v), Thread(Idle, p, 0, th.sent + [v], th.received), claims + [Claim(0, v)])
    ensures After(1, EventsOf(PushRun(r, v)))
         == match After(1, EventsOf(r)) case None => None case Some(q) => Next(1, q, Pushed(v))
  {
    assert Slot(p, 1) == 0;
    var r1 := Then(r, BeginPush(0, v));
    OneMoreStep(r, BeginPush(0, v), 1);
    var r2 := Then(r1, LoadPushSeq(0));
    OneMoreStep(r1, LoadPushSeq(0), 1);
    assert Final(r2).threads == [th.(pc := PushSaw(p, v, p), start := p, retries := 0)];
    var r3 := Then(r2, ResolvePush(0, false));
    OneMoreStep(r2, ResolvePush(0, false), 1);
    var r4 := Then(r3, WriteData(0));
    OneMoreStep(r3, WriteData(0), 1);
    OneMoreStep(r4, Publish(0), 1);
  }

  /** The protocol implements a FIFO queue of its capacity exactly when it has two cells or more. */
  lemma FifoIffTwoCells<T(!new)>(capacity: nat, v: T)
    requires capacity > 0
    ensures KeepsFifo<T>(capacity) <==> capacity >= 2
  {
    if capacity >= 2 {
      forall r: Run<T> | Possible(r) && Capacity(r) == capacity
        ensures After(capacity, EventsOf(r)).Some?
      {
        RunRefinesFifo(r);
        CapacityStays(r);
      }
    } else {
      var th, c := Thread<T>.Thread(Idle, 0, 0, [], []), Cell(0, v);
      var r := Start(OneCell(0, 0, c, th, []));
      PushRunIntoOneCell(r, v, 0, c, th, []);
      var full := PushRun(r, v);
      PushRunIntoOneCell(full, v, 1, Cell(1, v), Thread(Idle, 0, 0, [] + [v], []), [] + [Claim(0, v)]);
      assert After(1, EventsOf(r)) == Some([]) && [] + [v] == [v];
    }
  }
}
