/** What one publisher and one consumer can rely on in every interleaving of a channel. */
module ShmRuns {
  import opened RingIndex
  import opened BoundedFifo
  import opened Bytes
  import opened ShmProtocol

  ghost predicate Init(s: State) {
    && |s.slots| > 0 && s.head == 0 && s.tail == 0
    && s.sent == 0 && s.received == 0 && s.dropped == 0 && s.localSequence == 0
    && s.publisher.PIdle? && s.consumer.CIdle?
    && s.accepted == [] && s.consumed == 0 && s.delivered == [] && s.attempts == 0 && s.base == 0
    && forall i | 0 <= i < |s.slots| :: s.slots[i].state.Empty? && |s.slots[i].payload| == s.payloadMax
  }

  /** A run: an initial state and the steps taken since, latest outermost. */
  datatype Run = Start(s: State) | Then(earlier: Run, a: Action)

  ghost function Final(r: Run): State
    requires Legal(r)
    decreases r, 1
  {
    match r
    case Start(s) => s
    case Then(earlier, a) => Apply(Final(earlier), a)
  }

  ghost predicate Legal(r: Run)
    decreases r, 0
  {
    match r
    case Start(s) => Init(s)
    case Then(earlier, a) => Legal(earlier) && Enabled(Final(earlier), a)
  }

  lemma {:induction false} RunKeepsInv(r: Run)
    requires Legal(r)
    ensures Inv(Final(r))
  {
    match r
    case Start(_) =>
    case Then(earlier, a) =>
      RunKeepsInv(earlier);
      StepKeepsInv(Final(earlier), a);
  }

  /** The views of messages `first`, `first + 1`, ... in order. */
  ghost function ViewsOf(ms: seq<Message>, first: nat): (views: seq<View>)
    ensures |views| == |ms|
  {
    if |ms| == 0 then []
    else ViewsOf(ms[..|ms| - 1], first) + [ViewFor(first + |ms| - 1, ms[|ms| - 1])]
  }

  lemma {:induction false} ViewsOfMeans(ms: seq<Message>, first: nat)
    ensures forall k | 0 <= k < |ms| :: ViewsOf(ms, first)[k] == ViewFor(first + k, ms[k])
  {
    if |ms| > 0 {
      ViewsOfMeans(ms[..|ms| - 1], first);
    }
  }

  /** The views are those of the first messages of a list that starts with message `first`. */
  ghost predicate ShowFirst(views: seq<View>, ms: seq<Message>, first: nat) {
    |views| <= |ms| && forall k | 0 <= k < |views| :: views[k] == ViewFor(first + k, ms[k])
  }

  lemma OneMoreView(views: seq<View>, more: seq<View>, ms: seq<Message>, first: nat, k: nat)
    requires ShowFirst(views, ms, first) && k == first + |views| < first + |ms|
    requires more == [ViewFor(k, ms[|views|])]
    ensures ShowFirst(views + more, ms, first)
  {
  }

  /** Views field by field. */
  lemma ViewsAreFaithful(ms: seq<Message>, first: nat)
    ensures forall k | 0 <= k < |ms| ::
      var view := ViewsOf(ms, first)[k];
      && view.header.sequence == first + k + 1 && view.header.timestamp == ms[k].timestamp
      && view.header.payloadLen == |view.payload| == |ms[k].data| % 0x1_0000_0000
      && view.header.topicId == view.header.crc32 == view.header.flags == 0
      && view.payload <= ms[k].data
  {
    ViewsOfMeans(ms, first);
  }

  lemma AllShown(views: seq<View>, ms: seq<Message>, first: nat)
    requires ShowFirst(views, ms, first) && |views| == |ms|
    ensures views == ViewsOf(ms, first)
  {
    ViewsOfMeans(ms, first);
  }

  // ---------------------------------------------------------------- delivery

  /** The callbacks have seen exactly a prefix of the accepted messages, in order, numbered
      1, 2, 3, ...; payloads come whole unless their length does not fit the 32-bit length field. */
  lemma CallbacksSeeAPrefix(r: Run, k: nat)
    requires Legal(r) && k < |Final(r).delivered|
    ensures var s := Final(r);
      && |s.delivered| <= |s.accepted|
      && s.delivered[k] == ViewFor(k, s.accepted[k])
      && s.delivered[k].header.sequence == k + 1
      && s.delivered[k].header.timestamp == s.accepted[k].timestamp
      && s.delivered[k].header.payloadLen == |s.delivered[k].payload| == |s.accepted[k].data| % 0x1_0000_0000
      && s.delivered[k].header.topicId == s.delivered[k].header.crc32 == s.delivered[k].header.flags == 0
      && s.delivered[k].payload <= s.accepted[k].data
      && (s.delivered[k].payload == s.accepted[k].data <==> |s.accepted[k].data| < 0x1_0000_0000)
  {
    RunKeepsInv(r);
    CutIsWhole(Final(r).accepted[k].data);
  }

  /** At every moment of a callback, looking through the view shows the delivered message. */
  lemma ViewIsStableDuringCallback(r: Run)
    requires Legal(r) && Final(r).consumer.CViewing?
    ensures var s := Final(r);
      && s.consumer.tail < |s.slots| && |s.delivered| > 0
      && s.slots[s.consumer.tail].header.payloadLen <= |s.slots[s.consumer.tail].payload|
      && LiveView(s.slots[s.consumer.tail]) == s.delivered[|s.delivered| - 1]
      && s.consumer.header == s.delivered[|s.delivered| - 1].header
  {
    RunKeepsInv(r);
    OldestIsInItsSlot(Final(r));
  }

  /** From the moment the consumer has seen a message until it frees the slot, no publisher step
      touches that slot in any way. */
  lemma PublisherLeavesConsumersSlot(s: State, a: Action)
    requires Inv(s) && Enabled(s, a) && !ByConsumer(a)
    requires !(s.consumer.CIdle? || s.consumer.CTop? || s.consumer.CHasTail? || s.consumer.CEmptied?)
    ensures s.consumer.tail < |s.slots| == |Apply(s, a).slots|
    ensures Apply(s, a).slots[s.consumer.tail] == s.slots[s.consumer.tail]
  {
    if s.consumer.CMoved? {
      assert Slot(s.consumed - 1 + |s.slots|, |s.slots|) == Slot(s.consumed - 1, |s.slots|);
      PublisherTouchesOneSlot(s, a, s.consumed + |s.slots| - 1);
    } else {
      PublisherTouchesOneSlot(s, a, s.consumed);
    }
  }

  /** And while the publisher fills a slot, no consumer step touches it. */
  lemma ConsumerLeavesPublishersSlot(s: State, a: Action)
    requires Inv(s) && Enabled(s, a) && ByConsumer(a)
    requires s.publisher.PSawRoom? || Filling(s.publisher) || s.publisher.PReady?
    ensures s.publisher.head < |s.slots| == |Apply(s, a).slots|
    ensures Apply(s, a).slots[s.publisher.head] == s.slots[s.publisher.head]
  {
    ConsumerTouchesOneSlot(s, a, |s.accepted|);
  }

  // ---------------------------------------------------------------- the branches never taken

  /** The EMPTY-to-WRITING exchange never fails: the reserved slot keeps a slot that is still being
      freed out of reach, even when the publisher's tail is stale. */
  lemma ClaimNeverFails(r: Run)
    requires Legal(r) && Final(r).publisher.PSawRoom?
    ensures Enabled(Final(r), ClaimSlot)
    ensures Final(r).slots[Final(r).publisher.head].state.Empty?
  {
    RunKeepsInv(r);
    ClaimSucceeds(Final(r));
  }

  /** The "message not ready" break never fires. */
  lemma NotReadyNeverFires(r: Run)
    requires Legal(r) && Final(r).consumer.CSawMessage?
    ensures Enabled(Final(r), LoadState)
    ensures Final(r).slots[Final(r).consumer.tail].state.Ready?
  {
    RunKeepsInv(r);
    ReadySucceeds(Final(r));
  }

  /** The view about to be handed to the callback is the oldest unconsumed message. */
  lemma NextViewIsOldest(r: Run)
    requires Legal(r) && Final(r).consumer.CHasSequence?
    ensures Enabled(Final(r), CallBack)
    ensures var s := Final(r);
      && s.consumed < |s.accepted|
      && LiveView(s.slots[s.consumer.tail]) == ViewFor(s.consumed, s.accepted[s.consumed])
  {
    RunKeepsInv(r);
    OldestIsInItsSlot(Final(r));
  }

  /** No step is ever blocked by an index or a length.  Together with `ClaimNeverFails` and
      `NotReadyNeverFires` these are all the steps that use one. */
  lemma AccessesStayInBounds(r: Run)
    requires Legal(r)
    ensures var s := Final(r);
      && (s.publisher.PClaimed? ==> forall timestamp :: Enabled(s, WriteHeader(timestamp)))
      && (s.publisher.PHeader? ==> Enabled(s, WritePayload))
      && (s.publisher.PPayload? ==> Enabled(s, StoreSequence))
      && (s.publisher.PSequence? ==> Enabled(s, StoreReady))
      && (s.consumer.CHasSequence? ==> Enabled(s, CallBack))
      && (s.consumer.CViewed? ==> Enabled(s, StoreReading))
      && (s.consumer.CMoved? ==> Enabled(s, StoreEmpty))
  {
    RunKeepsInv(r);
    if Final(r).consumer.CHasSequence? {
      OldestIsInItsSlot(Final(r));
    }
  }

  lemma LoadingTailDropsWhenFull(s: State)
    requires IndicesOk(s) && PublisherOk(s) && Enabled(s, LoadTail)
    ensures Apply(s, LoadTail).publisher.PDropping? <==> |s.accepted| - s.consumed == |s.slots| - 1
  {
    FullExactly(s);
  }

  /** The facts a caller of either operation needs about indices and the backlog. */
  lemma IndexFacts(r: Run)
    requires Legal(r)
    ensures var s := Final(r);
      && s.head < |s.slots| && s.tail < |s.slots|
      && s.consumed <= |s.accepted| && |Backlog(s)| <= |s.slots| - 1
      && (forall i | 0 <= i < |s.slots| :: |s.slots[i].payload| == s.payloadMax)
      && (NextIndex(s.head, |s.slots|) == s.tail <==> |Backlog(s)| == |s.slots| - 1)
      && (s.head == s.tail <==> |Backlog(s)| == 0)
      && (s.publisher.PIdle? ==> s.localSequence == |s.accepted|)
  {
    RunKeepsInv(r);
    FullExactly(Final(r));
  }

  /** A size-valid publish on an initialized channel drops exactly when `buffer_size - 1` messages
      were outstanding at its tail load; no later step of it can drop. */
  lemma DropsExactlyWhenFull(r: Run, a: Action)
    requires Legal(r) && Enabled(Final(r), a) && !Final(r).publisher.PDropping?
    ensures var s := Final(r);
      Apply(s, a).publisher.PDropping? <==> a.LoadTail? && |s.accepted| - s.consumed == |s.slots| - 1
  {
    var s := Final(r);
    if a.LoadTail? {
      RunKeepsInv(r);
      LoadingTailDropsWhenFull(s);
    } else if a.ClaimSlot? {
      ClaimNeverFails(r);
    }
  }

  // ---------------------------------------------------------------- a queue of buffer_size - 1

  ghost function Backlog(s: State): seq<Message> {
    if s.consumed <= |s.accepted| then s.accepted[s.consumed..] else []
  }

  ghost function EventOf(s: State, a: Action): Event<Message>
    requires Enabled(s, a)
  {
    match a
    case LoadTail => if Apply(s, a).publisher.PDropping? then PushRefused else Silent
    case StoreHead => Pushed(Message(s.publisher.data, s.publisher.timestamp))
    case LoadHead => if Apply(s, a).consumer.CIdle? then PopRefused else Silent
    case StoreTail => if s.consumed < |s.accepted| then Popped(s.accepted[s.consumed]) else Silent
    case _ => Silent
  }

  lemma PublisherStepRefinesFifo(s: State, a: Action)
    requires IndicesOk(s) && PublisherOk(s) && Enabled(s, a) && !ByConsumer(a)
    ensures Apply(s, a).consumed <= |Apply(s, a).accepted|
    ensures Next(|s.slots| - 1, Backlog(s), EventOf(s, a)) == Some(Backlog(Apply(s, a)))
  {
    var t := s.consumed;
    if a.LoadTail? {
      LoadingTailDropsWhenFull(s);
    } else if a.StoreHead? {
      var m := Message(s.publisher.data, s.publisher.timestamp);
      assert (s.accepted + [m])[t..] == s.accepted[t..] + [m];
    }
  }

  lemma ConsumerStepRefinesFifo(s: State, a: Action)
    requires IndicesOk(s) && ConsumerOk(s) && FlagsOk(s) && Enabled(s, a) && ByConsumer(a)
    ensures Apply(s, a).consumed <= |Apply(s, a).accepted|
    ensures Next(|s.slots| - 1, Backlog(s), EventOf(s, a)) == Some(Backlog(Apply(s, a)))
  {
    var t := s.consumed;
    if a.LoadHead? {
      FullExactly(s);
    } else if a.StoreTail? {
      assert s.accepted[t..][1..] == s.accepted[t + 1..];
    }
  }

  lemma StepRefinesFifo(s: State, a: Action)
    requires Inv(s) && Enabled(s, a)
    ensures IndicesOk(Apply(s, a)) && |Apply(s, a).slots| == |s.slots|
    ensures Next(|s.slots| - 1, Backlog(s), EventOf(s, a)) == Some(Backlog(Apply(s, a)))
  {
    if ByConsumer(a) {
      ConsumerKeepsIndices(s, a);
      ConsumerStepRefinesFifo(s, a);
    } else {
      PublisherKeepsIndices(s, a);
      PublisherStepRefinesFifo(s, a);
    }
  }

  ghost function EventsOf(r: Run): History<Message>
    requires Legal(r)
  {
    match r
    case Start(_) => History.Empty
    case Then(earlier, a) => Snoc(EventsOf(earlier), EventOf(Final(earlier), a))
  }

  /** The messages that have been taken out. */
  ghost function Taken(s: State): seq<Message> {
    if s.consumed <= |s.accepted| then s.accepted[..s.consumed] else []
  }

  lemma PrefixOfAppend<T>(xs: seq<T>, x: T, k: nat)
    requires k <= |xs|
    ensures (xs + [x])[..k] == xs[..k]
  {
  }

  lemma OneMoreTaken<T>(xs: seq<T>, k: nat)
    requires k < |xs|
    ensures xs[..k + 1] == xs[..k] + [xs[k]]
  {
  }

  lemma PublisherFollowsEvents(s: State, a: Action)
    requires IndicesOk(s) && Enabled(s, a) && !ByConsumer(a)
    ensures var e := EventOf(s, a);
      && Apply(s, a).accepted == s.accepted + (if e.Pushed? then [e.v] else [])
      && Taken(Apply(s, a)) == Taken(s) + (if e.Popped? then [e.v] else [])
  {
    if a.StoreHead? {
      PrefixOfAppend(s.accepted, Message(s.publisher.data, s.publisher.timestamp), s.consumed);
    } else {
      assert Apply(s, a).accepted == s.accepted && Apply(s, a).consumed == s.consumed;
    }
  }

  lemma ConsumerFollowsEvents(s: State, a: Action)
    requires IndicesOk(s) && ConsumerOk(s) && Enabled(s, a) && ByConsumer(a)
    ensures var e := EventOf(s, a);
      && Apply(s, a).accepted == s.accepted + (if e.Pushed? then [e.v] else [])
      && Taken(Apply(s, a)) == Taken(s) + (if e.Popped? then [e.v] else [])
  {
    if a.StoreTail? {
      OneMoreTaken(s.accepted, s.consumed);
    } else {
      assert Apply(s, a).accepted == s.accepted && Apply(s, a).consumed == s.consumed;
    }
  }

  lemma StepFollowsEvents(s: State, a: Action)
    requires IndicesOk(s) && ConsumerOk(s) && Enabled(s, a)
    ensures var e := EventOf(s, a);
      && Apply(s, a).accepted == s.accepted + (if e.Pushed? then [e.v] else [])
      && Taken(Apply(s, a)) == Taken(s) + (if e.Popped? then [e.v] else [])
  {
    if ByConsumer(a) {
      ConsumerFollowsEvents(s, a);
    } else {
      PublisherFollowsEvents(s, a);
    }
  }

  /** The accepted messages are what went in, and the consumed ones what came out. */
  lemma {:induction false} HistoryIsComplete(r: Run)
    requires Legal(r)
    ensures Inputs(EventsOf(r)) == Final(r).accepted && Outputs(EventsOf(r)) == Taken(Final(r))
  {
    if r.Then? {
      HistoryIsComplete(r.earlier);
      RunKeepsInv(r.earlier);
      StepFollowsEvents(Final(r.earlier), r.a);
    }
  }

  lemma LastStepRefinesFifo(r: Run)
    requires Legal(r) && r.Then?
    ensures |Final(r).slots| == |Final(r.earlier).slots| > 0
    ensures var s := Final(r.earlier);
      Next(|s.slots| - 1, Backlog(s), EventOf(s, r.a)) == Some(Backlog(Final(r)))
  {
    var s := Final(r.earlier);
    assert Final(r) == Apply(s, r.a);
    RunKeepsInv(r.earlier);
    StepRefinesFifo(s, r.a);
  }

  /** Every interleaving is a history of a FIFO of `buffer_size - 1` messages: drops happen only
      when it is full, and `consume` stops only when it is empty. */
  lemma {:induction false} RunRefinesFifo(r: Run)
    requires Legal(r)
    ensures |Final(r).slots| > 0
    ensures After(|Final(r).slots| - 1, EventsOf(r)) == Some(Backlog(Final(r)))
  {
    if r.Then? {
      RunRefinesFifo(r.earlier);
      LastStepRefinesFifo(r);
    }
  }

  // ---------------------------------------------------------------- counters

  /** The counters lag the ring by at most one step. */
  lemma CountersLagByOne(r: Run)
    requires Legal(r)
    ensures var s := Final(r); var h, t := |s.accepted|, s.consumed;
      && h - 1 <= s.sent <= h && t - 1 <= s.received <= t
      && s.received <= s.sent + 1
      && s.sent + s.dropped <= s.attempts <= s.sent + s.dropped + 1
  {
    RunKeepsInv(r);
  }

  /** At rest they are exact, and `consume` has returned the number of callbacks it made. */
  lemma CountersAtRest(r: Run)
    requires Legal(r)
    ensures var s := Final(r);
      && s.consumed <= |s.accepted|
      && (s.publisher.PIdle? && s.consumer.CIdle? ==>
            && s.sent - s.received == |Backlog(s)| && s.received == |s.delivered|
            && s.sent + s.dropped == s.attempts)
      && (s.consumer.CHasTail? ==> s.consumer.count == |s.delivered| - s.base)
  {
    RunKeepsInv(r);
  }
}
