/** The single-producer single-consumer ring as an interleaving of its atomic steps.

    One producer and one consumer run `try_push` and `try_pop`; every load, buffer access and
    store is a step of its own and the two sides interleave freely. */
module SpscProtocol {
  import opened RingIndex
  import opened BoundedFifo

  /** Where the producer is inside `try_push`. */
  datatype Producer<T> =
    | PIdle
    | PHasHead(head: nat, v: T)    // head loaded, tail not yet
    | PMayWrite(head: nat, v: T)   // saw room, slot not yet written
    | PWrote(head: nat, v: T)      // slot written, head not yet stored

  /** Where the consumer is inside `try_pop`. */
  datatype Consumer<T> =
    | CIdle
    | CHasTail(tail: nat)          // tail loaded, head not yet
    | CMayRead(tail: nat)          // saw an element, slot not yet read
    | CRead(tail: nat, v: T)       // slot moved out of, tail not yet stored

  /** `pushed` and `popped` are histories: the values of completed pushes and pops, in order. */
  datatype State<T> = State(
    buffer: seq<T>, head: nat, tail: nat,
    producer: Producer<T>, consumer: Consumer<T>,
    pushed: seq<T>, popped: seq<T>)

  datatype Action<T> =
    | BeginPush(v: T) | CheckFull | WriteSlot | StoreHead
    | BeginPop | CheckEmpty | ReadSlot(residue: T) | StoreTail

  function Increment(index: nat, capacity: nat): nat
    requires capacity > 0
  {
    (index + 1) % capacity
  }

  /** The step is the thread's next one and touches the buffer inside its bounds. */
  ghost predicate Enabled<T>(s: State<T>, a: Action<T>) {
    && |s.buffer| > 0
    && match a
       case BeginPush(_) => s.producer.PIdle?
       case CheckFull => s.producer.PHasHead?
       case WriteSlot => s.producer.PMayWrite? && s.producer.head < |s.buffer|
       case StoreHead => s.producer.PWrote?
       case BeginPop => s.consumer.CIdle?
       case CheckEmpty => s.consumer.CHasTail?
       case ReadSlot(_) => s.consumer.CMayRead? && s.consumer.tail < |s.buffer|
       case StoreTail => s.consumer.CRead?
  }

  /** The effect of one step.  `residue` is whatever a move leaves behind in the slot. */
  ghost function Apply<T>(s: State<T>, a: Action<T>): State<T>
    requires Enabled(s, a)
  {
    match a
    case BeginPush(v) => s.(producer := PHasHead(s.head, v))
    case CheckFull =>
      if Increment(s.producer.head, |s.buffer|) == s.tail then s.(producer := PIdle)
      else s.(producer := PMayWrite(s.producer.head, s.producer.v))
    case WriteSlot =>
      s.(buffer := s.buffer[s.producer.head := s.producer.v],
         producer := PWrote(s.producer.head, s.producer.v))
    case StoreHead =>
      s.(head := Increment(s.producer.head, |s.buffer|), producer := PIdle,
         pushed := s.pushed + [s.producer.v])
    case BeginPop => s.(consumer := CHasTail(s.tail))
    case CheckEmpty =>
      if s.consumer.tail == s.head then s.(consumer := CIdle)
      else s.(consumer := CMayRead(s.consumer.tail))
    case ReadSlot(residue) =>
      s.(buffer := s.buffer[s.consumer.tail := residue],
         consumer := CRead(s.consumer.tail, s.buffer[s.consumer.tail]))
    case StoreTail =>
      s.(tail := Increment(s.consumer.tail, |s.buffer|), consumer := CIdle,
         popped := s.popped + [s.consumer.v])
  }

  ghost predicate Init<T>(s: State<T>) {
    && |s.buffer| >= 2 && s.head == 0 && s.tail == 0
    && s.producer.PIdle? && s.consumer.CIdle? && s.pushed == [] && s.popped == []
  }

  ghost predicate IndicesOk<T>(s: State<T>) {
    var h, t, n := |s.pushed|, |s.popped|, |s.buffer|;
    && n >= 2 && t <= h < t + n
    && s.head == Slot(h, n) && s.tail == Slot(t, n)
    && s.popped == s.pushed[..t]
  }

  ghost predicate ProducerOk<T>(s: State<T>)
    requires IndicesOk(s)
  {
    match s.producer
    case PIdle => true
    case PHasHead(head, _) => head == s.head
    case PMayWrite(head, _) => head == s.head && |s.pushed| + 1 < |s.popped| + |s.buffer|
    case PWrote(head, v) =>
      head == s.head && |s.pushed| + 1 < |s.popped| + |s.buffer| && s.buffer[head] == v
  }

  ghost predicate ConsumerOk<T>(s: State<T>)
    requires IndicesOk(s)
  {
    match s.consumer
    case CIdle => true
    case CHasTail(tail) => tail == s.tail
    case CMayRead(tail) => tail == s.tail && |s.popped| < |s.pushed|
    case CRead(tail, v) => tail == s.tail && |s.popped| < |s.pushed| && v == s.pushed[|s.popped|]
  }

  /** Every element still queued sits in its slot; the one just moved out of is the exception. */
  ghost predicate ContentsOk<T>(s: State<T>)
    requires IndicesOk(s)
  {
    forall k | |s.popped| <= k < |s.pushed| && !(k == |s.popped| && s.consumer.CRead?) ::
      s.buffer[Slot(k, |s.buffer|)] == s.pushed[k]
  }

  ghost predicate Inv<T>(s: State<T>) {
    IndicesOk(s) && ProducerOk(s) && ConsumerOk(s) && ContentsOk(s)
  }

  // ---------------------------------------------------------------- what every step keeps

  /** Queued elements do not sit in the slot the producer fills. */
  lemma HeadSlotIsFree<T>(s: State<T>)
    requires IndicesOk(s)
    ensures forall k | |s.popped| <= k < |s.pushed| :: Slot(k, |s.buffer|) != s.head
  {
    forall k | |s.popped| <= k < |s.pushed|
      ensures Slot(k, |s.buffer|) != s.head
    {
      if Slot(k, |s.buffer|) == s.head {
        SameSlot(k, |s.pushed|, |s.buffer|);
      }
    }
  }

  lemma WritingKeepsInv<T>(s: State<T>)
    requires Inv(s) && Enabled(s, WriteSlot)
    ensures Inv(Apply(s, WriteSlot))
  {
    HeadSlotIsFree(s);
  }

  lemma ProducerStepKeepsInv<T>(s: State<T>, a: Action<T>)
    requires Inv(s) && Enabled(s, a)
    requires a.BeginPush? || a.CheckFull? || a.StoreHead?
    ensures Inv(Apply(s, a))
  {
    var h, t, n := |s.pushed|, |s.popped|, |s.buffer|;
    NextSlot(h, n);
    if h + 1 == t + n {
      assert Slot(t + n, n) == Slot(t, n);
    }
  }

  lemma ConsumerStepKeepsInv<T>(s: State<T>, a: Action<T>)
    requires Inv(s) && Enabled(s, a)
    requires a.BeginPop? || a.CheckEmpty? || a.ReadSlot? || a.StoreTail?
    ensures Inv(Apply(s, a))
  {
    var h, t, n := |s.pushed|, |s.popped|, |s.buffer|;
    NextSlot(t, n);
    if a.ReadSlot? {
      forall k | t < k <= h
        ensures Slot(k, n) != s.tail
      {
        if Slot(k, n) == s.tail {
          SameSlot(t, k, n);
        }
      }
    }
  }

  lemma StepKeepsInv<T>(s: State<T>, a: Action<T>)
    requires Inv(s) && Enabled(s, a)
    ensures Inv(Apply(s, a))
  {
    if a.WriteSlot? {
      WritingKeepsInv(s);
    } else if a.BeginPush? || a.CheckFull? || a.StoreHead? {
      ProducerStepKeepsInv(s, a);
    } else {
      ConsumerStepKeepsInv(s, a);
    }
  }

  // ---------------------------------------------------------------- runs

  /** A run: an initial state and the steps taken since, latest outermost. */
  datatype Run<T> = Start(s: State<T>) | Then(earlier: Run<T>, a: Action<T>)

  ghost function Final<T>(r: Run<T>): State<T>
    requires Legal(r)
    decreases r, 1
  {
    match r
    case Start(s) => s
    case Then(earlier, a) => Apply(Final(earlier), a)
  }

  ghost predicate Legal<T>(r: Run<T>)
    decreases r, 0
  {
    match r
    case Start(s) => Init(s)
    case Then(earlier, a) => Legal(earlier) && Enabled(Final(earlier), a)
  }

  lemma {:induction false} RunKeepsInv<T>(r: Run<T>)
    requires Legal(r)
    ensures Inv(Final(r))
  {
    if r.Then? {
      RunKeepsInv(r.earlier);
      StepKeepsInv(Final(r.earlier), r.a);
    }
  }

  // ---------------------------------------------------------------- refinement of a bounded queue

  ghost function Contents<T>(s: State<T>): seq<T> {
    if |s.popped| <= |s.pushed| then s.pushed[|s.popped|..] else []
  }

  /** What a step means to a caller.  A push takes effect at its head store and is refused at its
      tail load; a pop takes effect at its tail store and is refused at its head load. */
  ghost function EventOf<T>(s: State<T>, a: Action<T>): Event<T>
    requires Enabled(s, a)
  {
    match a
    case CheckFull => if Apply(s, a).producer.PIdle? then PushRefused else Silent
    case StoreHead => Pushed(s.producer.v)
    case CheckEmpty => if Apply(s, a).consumer.CIdle? then PopRefused else Silent
    case StoreTail => Popped(s.consumer.v)
    case _ => Silent
  }

  lemma FullExactlyWhenNextMeetsTail<T>(s: State<T>)
    requires Inv(s)
    ensures Increment(s.head, |s.buffer|) == s.tail <==> |Contents(s)| == |s.buffer| - 1
    ensures s.tail == s.head <==> |Contents(s)| == 0
  {
    var h, t, n := |s.pushed|, |s.popped|, |s.buffer|;
    NextSlot(h, n);
    if Slot(h + 1, n) == s.tail {
      SameSlot(t, h + 1, n);
    }
    if h + 1 == t + n {
      assert Slot(t + n, n) == Slot(t, n);
    }
    if s.head == s.tail {
      SameSlot(t, h, n);
    }
  }

  lemma QueueAppend<T>(pushed: seq<T>, t: nat, v: T)
    requires t <= |pushed|
    ensures (pushed + [v])[t..] == pushed[t..] + [v]
  {
  }

  lemma QueueTail<T>(pushed: seq<T>, t: nat)
    requires t < |pushed|
    ensures pushed[t..][0] == pushed[t] && pushed[t..][1..] == pushed[t + 1..]
  {
  }

  lemma ProducerStepRefinesFifo<T>(s: State<T>, a: Action<T>)
    requires Inv(s) && Enabled(s, a) && (a.BeginPush? || a.CheckFull? || a.WriteSlot? || a.StoreHead?)
    ensures |Apply(s, a).buffer| == |s.buffer|
    ensures Next(|s.buffer| - 1, Contents(s), EventOf(s, a)) == Some(Contents(Apply(s, a)))
  {
    FullExactlyWhenNextMeetsTail(s);
    if a.StoreHead? {
      QueueAppend(s.pushed, |s.popped|, s.producer.v);
    }
  }

  lemma ConsumerStepRefinesFifo<T>(s: State<T>, a: Action<T>)
    requires Inv(s) && Enabled(s, a) && (a.BeginPop? || a.CheckEmpty? || a.ReadSlot? || a.StoreTail?)
    ensures |Apply(s, a).buffer| == |s.buffer|
    ensures Next(|s.buffer| - 1, Contents(s), EventOf(s, a)) == Some(Contents(Apply(s, a)))
  {
    FullExactlyWhenNextMeetsTail(s);
    if a.StoreTail? {
      QueueTail(s.pushed, |s.popped|);
    }
  }

  lemma StepLogsItsEvent<T>(s: State<T>, a: Action<T>)
    requires Enabled(s, a)
    ensures var e := EventOf(s, a);
      && Apply(s, a).pushed == s.pushed + (if e.Pushed? then [e.v] else [])
      && Apply(s, a).popped == s.popped + (if e.Popped? then [e.v] else [])
  {
  }

  lemma StepRefinesFifo<T>(s: State<T>, a: Action<T>)
    requires Inv(s) && Enabled(s, a)
    ensures Inv(Apply(s, a))
    ensures |Apply(s, a).buffer| == |s.buffer|
    ensures Next(|s.buffer| - 1, Contents(s), EventOf(s, a)) == Some(Contents(Apply(s, a)))
    ensures var e := EventOf(s, a);
      && Apply(s, a).pushed == s.pushed + (if e.Pushed? then [e.v] else [])
      && Apply(s, a).popped == s.popped + (if e.Popped? then [e.v] else [])
  {
    StepKeepsInv(s, a);
    StepLogsItsEvent(s, a);
    if a.BeginPush? || a.CheckFull? || a.WriteSlot? || a.StoreHead? {
      ProducerStepRefinesFifo(s, a);
    } else {
      ConsumerStepRefinesFifo(s, a);
    }
  }

  ghost function EventsOf<T>(r: Run<T>): History<T>
    requires Legal(r)
  {
    match r
    case Start(_) => Empty
    case Then(earlier, a) => Snoc(EventsOf(earlier), EventOf(Final(earlier), a))
  }

  /** Every interleaving is a history of a FIFO queue of `Capacity - 1` elements, refusals included:
      a push is refused only when that many elements are queued at its tail load, a pop only when
      none is queued at its head load. */
  lemma {:induction false} RunRefinesFifo<T>(r: Run<T>)
    requires Legal(r)
    ensures Inv(Final(r))
    ensures After(|Final(r).buffer| - 1, EventsOf(r)) == Some(Contents(Final(r)))
    ensures Final(r).pushed == Inputs(EventsOf(r)) && Final(r).popped == Outputs(EventsOf(r))
  {
    match r
    case Start(_) =>
    case Then(earlier, a) =>
      RunRefinesFifo(earlier);
      var s := Final(earlier);
      StepRefinesFifo(s, a);
      assert Final(r) == Apply(s, a);
  }

  /** While the producer may be writing its slot and the consumer may be reading its own, the two
      slots differ. */
  lemma SidesNeverShareASlot<T>(s: State<T>)
    requires Inv(s)
    requires s.producer.PMayWrite? || s.producer.PWrote?
    requires s.consumer.CMayRead? || s.consumer.CRead?
    ensures s.producer.head != s.consumer.tail
  {
    if s.head == s.tail {
      SameSlot(|s.popped|, |s.pushed|, |s.buffer|);
    }
  }

  /** What either side needs to know about indices before a call. */
  lemma IndexFacts<T>(r: Run<T>)
    requires Legal(r)
    ensures var s := Final(r);
      && |s.buffer| >= 2 && s.head < |s.buffer| && s.tail < |s.buffer|
      && |s.popped| <= |s.pushed| && |Contents(s)| <= |s.buffer| - 1
      && (Increment(s.head, |s.buffer|) == s.tail <==> |Contents(s)| == |s.buffer| - 1)
      && (s.tail == s.head <==> |Contents(s)| == 0)
      && (|Contents(s)| > 0 && !s.consumer.CRead? ==> s.buffer[s.tail] == Contents(s)[0])
  {
    RunKeepsInv(r);
    FullExactlyWhenNextMeetsTail(Final(r));
  }

  /** The steps of a push that succeeds, and of one that is refused. */
  ghost function PushRun<T>(r: Run<T>, v: T): Run<T> {
    Then(Then(Then(Then(r, BeginPush(v)), CheckFull), WriteSlot), StoreHead)
  }

  ghost function RefusedPushRun<T>(r: Run<T>, v: T): Run<T> {
    Then(Then(r, BeginPush(v)), CheckFull)
  }
}
