/** `publish` and `consume` on one shared-memory channel as an interleaving of their atomic steps.

    One publisher and one consumer.  The consumer moves `tail` before it frees the slot, and its
    callback reads the slot in place; both are visible to the publisher as they happen. */
module ShmProtocol {
  import opened RingIndex
  import opened Bytes

  datatype SlotState = Empty | Writing | Ready | Reading

  datatype Header = Header(topicId: nat, sequence: nat, timestamp: nat, payloadLen: nat, crc32: nat, flags: nat)

  /** A message slot; `payload` is the whole payload area, longer than most payloads. */
  datatype MsgSlot = MsgSlot(sequence: nat, state: SlotState, header: Header, payload: seq<Byte>)

  /** What a callback is handed. */
  datatype View = View(header: Header, payload: seq<Byte>)

  datatype Message = Message(data: seq<Byte>, timestamp: nat)

  /** Where the publisher is; each name says what has just been done. */
  datatype Publisher =
    | PIdle
    | PHasHead(data: seq<Byte>, head: nat)
    | PDropping
    | PSawRoom(data: seq<Byte>, head: nat)
    | PClaimed(data: seq<Byte>, head: nat)
    | PHeader(data: seq<Byte>, head: nat, timestamp: nat)
    | PPayload(data: seq<Byte>, head: nat, timestamp: nat)
    | PSequence(data: seq<Byte>, head: nat, timestamp: nat)
    | PReady(data: seq<Byte>, head: nat, timestamp: nat)
    | PCounting

  /** Where the consumer is inside its loop; `count` is the value `consume` will return. */
  datatype Consumer =
    | CIdle
    | CTop(count: nat)
    | CHasTail(count: nat, tail: nat)
    | CSawMessage(count: nat, tail: nat)
    | CSawReady(count: nat, tail: nat)
    | CHasSequence(count: nat, tail: nat)
    | CViewing(count: nat, tail: nat, header: Header)
    | CViewed(count: nat, tail: nat)
    | CReading(count: nat, tail: nat)
    | CMoved(count: nat, tail: nat)
    | CEmptied(count: nat)

  /** `accepted`, `consumed`, `delivered`, `attempts` and `base` are histories: messages published
      (counted at the head store), messages consumed (counted at the tail store), views handed to
      callbacks, size-valid publish calls on an initialized channel, and the value of `consumed`
      when the present `consume` call began. */
  datatype State = State(
    initialized: bool, slots: seq<MsgSlot>, payloadMax: nat,
    head: nat, tail: nat, sent: nat, received: nat, dropped: nat, localSequence: nat,
    publisher: Publisher, consumer: Consumer,
    accepted: seq<Message>, consumed: nat, delivered: seq<View>, attempts: nat, base: nat)

  datatype Action =
    | BeginPublish(data: seq<Byte>) | LoadTail | CountDrop | ClaimSlot | WriteHeader(timestamp: nat)
    | WritePayload | StoreSequence | StoreReady | StoreHead | CountSent
    | BeginConsume | ReloadTail | LoadHead | LoadState | LoadSequence | CallBack | EndCallBack
    | StoreReading | StoreTail | StoreEmpty | CountReceived

  function HeaderFor(k: nat, m: Message): Header {
    Header(0, k + 1, m.timestamp, |m.data| % TWO32, 0, 0)
  }

  /** What a callback should see for the k-th accepted message. */
  function ViewFor(k: nat, m: Message): View {
    View(HeaderFor(k, m), Cut(m.data))
  }

  function NextIndex(index: nat, size: nat): nat
    requires size > 0
  {
    (index + 1) % size
  }

  ghost predicate Enabled(s: State, a: Action) {
    && |s.slots| > 0
    && match a
       case BeginPublish(_) => s.publisher.PIdle?
       case LoadTail => s.publisher.PHasHead?
       case CountDrop => s.publisher.PDropping?
       case ClaimSlot => s.publisher.PSawRoom? && s.publisher.head < |s.slots|
       case WriteHeader(_) => s.publisher.PClaimed? && s.publisher.head < |s.slots|
       case WritePayload => && s.publisher.PHeader? && s.publisher.head < |s.slots|
                            && |s.publisher.data| <= |s.slots[s.publisher.head].payload|
       case StoreSequence => s.publisher.PPayload? && s.publisher.head < |s.slots|
       case StoreReady => s.publisher.PSequence? && s.publisher.head < |s.slots|
       case StoreHead => s.publisher.PReady?
       case CountSent => s.publisher.PCounting?
       case BeginConsume => s.consumer.CIdle?
       case ReloadTail => s.consumer.CTop?
       case LoadHead => s.consumer.CHasTail?
       case LoadState => s.consumer.CSawMessage? && s.consumer.tail < |s.slots|
       case LoadSequence => s.consumer.CSawReady?
       case CallBack => && s.consumer.CHasSequence? && s.consumer.tail < |s.slots|
                        && s.slots[s.consumer.tail].header.payloadLen <= |s.slots[s.consumer.tail].payload|
       case EndCallBack => s.consumer.CViewing?
       case StoreReading => s.consumer.CViewed? && s.consumer.tail < |s.slots|
       case StoreTail => s.consumer.CReading?
       case StoreEmpty => s.consumer.CMoved? && s.consumer.tail < |s.slots|
       case CountReceived => s.consumer.CEmptied?
  }

  ghost function PublisherStep(s: State, a: Action): State
    requires Enabled(s, a) && !ByConsumer(a)
  {
    var p := s.publisher;
    match a
    case BeginPublish(data) =>
      if !s.initialized || |data| > s.payloadMax then s
      else s.(publisher := PHasHead(data, s.head), attempts := s.attempts + 1)
    case LoadTail =>
      s.(publisher := if NextIndex(p.head, |s.slots|) == s.tail then PDropping else PSawRoom(p.data, p.head))
    case CountDrop => s.(publisher := PIdle, dropped := s.dropped + 1)
    case ClaimSlot =>
      if s.slots[p.head].state.Empty? then
        s.(publisher := PClaimed(p.data, p.head), slots := s.slots[p.head := s.slots[p.head].(state := Writing)])
      else s.(publisher := PDropping)
    case WriteHeader(timestamp) =>
      s.(publisher := PHeader(p.data, p.head, timestamp), localSequence := s.localSequence + 1,
         slots := s.slots[p.head := s.slots[p.head].(header :=
           Header(0, s.localSequence + 1, timestamp, |p.data| % TWO32, 0, 0))])
    case WritePayload =>
      s.(publisher := PPayload(p.data, p.head, p.timestamp),
         slots := s.slots[p.head := s.slots[p.head].(payload := p.data + s.slots[p.head].payload[|p.data|..])])
    case StoreSequence =>
      s.(publisher := PSequence(p.data, p.head, p.timestamp),
         slots := s.slots[p.head := s.slots[p.head].(sequence := s.localSequence)])
    case StoreReady =>
      s.(publisher := PReady(p.data, p.head, p.timestamp),
         slots := s.slots[p.head := s.slots[p.head].(state := Ready)])
    case StoreHead =>
      s.(publisher := PCounting, head := NextIndex(p.head, |s.slots|),
         accepted := s.accepted + [Message(p.data, p.timestamp)])
    case CountSent => s.(publisher := PIdle, sent := s.sent + 1)
  }

  ghost predicate ByConsumer(a: Action) {
    a.BeginConsume? || a.ReloadTail? || a.LoadHead? || a.LoadState? || a.LoadSequence? || a.CallBack?
    || a.EndCallBack? || a.StoreReading? || a.StoreTail? || a.StoreEmpty? || a.CountReceived?
  }

  ghost function ConsumerStep(s: State, a: Action): State
    requires Enabled(s, a) && ByConsumer(a)
  {
    var c := s.consumer;
    match a
    case BeginConsume => if !s.initialized then s else s.(consumer := CTop(0), base := s.consumed)
    case ReloadTail => s.(consumer := CHasTail(c.count, s.tail))
    case LoadHead => s.(consumer := if c.tail == s.head then CIdle else CSawMessage(c.count, c.tail))
    case LoadState =>
      s.(consumer := if s.slots[c.tail].state.Ready? then CSawReady(c.count, c.tail) else CIdle)
    case LoadSequence => s.(consumer := CHasSequence(c.count, c.tail))
    case CallBack =>
      s.(consumer := CViewing(c.count, c.tail, s.slots[c.tail].header),
         delivered := s.delivered + [LiveView(s.slots[c.tail])])
    case EndCallBack => s.(consumer := CViewed(c.count, c.tail))
    case StoreReading =>
      s.(consumer := CReading(c.count, c.tail), slots := s.slots[c.tail := s.slots[c.tail].(state := Reading)])
    case StoreTail =>
      s.(consumer := CMoved(c.count, c.tail), tail := NextIndex(c.tail, |s.slots|), consumed := s.consumed + 1)
    case StoreEmpty =>
      s.(consumer := CEmptied(c.count), slots := s.slots[c.tail := s.slots[c.tail].(state := SlotState.Empty)])
    case CountReceived => s.(consumer := CTop(c.count + 1), received := s.received + 1)
  }

  /** What someone looking at a slot through a view sees at this moment. */
  function LiveView(slot: MsgSlot): View
    requires slot.header.payloadLen <= |slot.payload|
  {
    View(slot.header, slot.payload[..slot.header.payloadLen])
  }

  ghost function Apply(s: State, a: Action): State
    requires Enabled(s, a)
  {
    if ByConsumer(a) then ConsumerStep(s, a) else PublisherStep(s, a)
  }

  // ---------------------------------------------------------------- the invariant

  ghost predicate IndicesOk(s: State) {
    var n, h, t := |s.slots|, |s.accepted|, s.consumed;
    && n > 0 && t <= h < t + n
    && s.head == Slot(h, n) && s.tail == Slot(t, n)
    && (forall i | 0 <= i < n :: |s.slots[i].payload| == s.payloadMax)
  }

  ghost predicate Filling(p: Publisher) {
    p.PClaimed? || p.PHeader? || p.PPayload? || p.PSequence?
  }

  /** The state flag of the slot of ticket `k`, for the lap that starts at the consumer. */
  ghost function Flag(s: State, k: nat): SlotState {
    var n, h, t := |s.slots|, |s.accepted|, s.consumed;
    if k < h then (if k == t && s.consumer.CReading? then Reading else Ready)
    else if k == h && Filling(s.publisher) then Writing
    else if k == h && s.publisher.PReady? then Ready
    else if k == t + n - 1 && s.consumer.CMoved? then Reading
    else SlotState.Empty
  }

  ghost predicate FlagsOk(s: State)
    requires IndicesOk(s)
  {
    forall k | s.consumed <= k < s.consumed + |s.slots| :: s.slots[Slot(k, |s.slots|)].state == Flag(s, k)
  }

  /** The slot holds message `m` as the k-th. */
  ghost predicate Holds(slot: MsgSlot, k: nat, m: Message) {
    && slot.sequence == k + 1 && slot.header == HeaderFor(k, m)
    && |m.data| <= |slot.payload| && slot.payload[..|m.data|] == m.data
  }

  ghost predicate ContentOk(s: State)
    requires IndicesOk(s)
  {
    forall k | s.consumed <= k < |s.accepted| ::
      Holds(s.slots[Slot(k, |s.slots|)], k, s.accepted[k])
  }

  ghost predicate PublisherOk(s: State)
    requires IndicesOk(s)
  {
    var n, h, t, p, slot := |s.slots|, |s.accepted|, s.consumed, s.publisher, s.slots[s.head];
    && (p.PIdle? || p.PDropping? || p.PCounting? || (p.head == s.head && |p.data| <= s.payloadMax))
    && (Filling(p) || p.PReady? || p.PSawRoom? ==> h + 1 < t + n)
    && s.localSequence == h + (if p.PHeader? || p.PPayload? || p.PSequence? || p.PReady? then 1 else 0)
    && (p.PHeader? || p.PPayload? || p.PSequence? || p.PReady? ==>
          slot.header == HeaderFor(h, Message(p.data, p.timestamp)))
    && (p.PPayload? || p.PSequence? || p.PReady? ==> slot.payload[..|p.data|] == p.data)
    && (p.PSequence? || p.PReady? ==> slot.sequence == h + 1)
  }

  /** The callback of the oldest unconsumed message has been started. */
  ghost predicate Shown(c: Consumer) {
    c.CViewing? || c.CViewed? || c.CReading?
  }

  ghost predicate ConsumerOk(s: State)
    requires IndicesOk(s)
  {
    var h, t, c := |s.accepted|, s.consumed, s.consumer;
    && (c.CHasTail? ==> c.tail == s.tail)
    && (c.CSawMessage? || c.CSawReady? || c.CHasSequence? || Shown(c) ==> c.tail == s.tail && t < h)
    && (c.CViewing? ==> c.header == s.slots[c.tail].header)
    && (c.CMoved? ==> t > 0 && c.tail == Slot(t - 1, |s.slots|))
    && (c.CIdle? || t == s.base + c.count + (if c.CMoved? || c.CEmptied? then 1 else 0))
  }

  ghost predicate DeliveredOk(s: State)
    requires IndicesOk(s)
  {
    && |s.delivered| == s.consumed + (if Shown(s.consumer) then 1 else 0) <= |s.accepted|
    && forall k | 0 <= k < |s.delivered| :: s.delivered[k] == ViewFor(k, s.accepted[k])
  }

  ghost predicate CountersOk(s: State) {
    && s.sent + (if s.publisher.PCounting? then 1 else 0) == |s.accepted|
    && s.received + (if s.consumer.CMoved? || s.consumer.CEmptied? then 1 else 0) == s.consumed
    && s.attempts == s.sent + s.dropped + (if s.publisher.PIdle? then 0 else 1)
  }

  ghost predicate Inv(s: State) {
    && IndicesOk(s) && FlagsOk(s) && ContentOk(s) && PublisherOk(s) && ConsumerOk(s)
    && DeliveredOk(s) && CountersOk(s)
  }

  // ---------------------------------------------------------------- what every step keeps

  /** Tickets of one lap use different slots. */
  lemma LapIsInjective(s: State, k: nat, j: nat)
    requires IndicesOk(s) && s.consumed <= k < s.consumed + |s.slots| && s.consumed <= j < s.consumed + |s.slots|
    ensures Slot(k, |s.slots|) == Slot(j, |s.slots|) <==> k == j
  {
    if Slot(k, |s.slots|) == Slot(j, |s.slots|) {
      SameSlot(if k <= j then k else j, if k <= j then j else k, |s.slots|);
    }
  }

  /** A full ring, and nothing else, makes the next head meet the tail. */
  lemma FullExactly(s: State)
    requires IndicesOk(s)
    ensures NextIndex(s.head, |s.slots|) == s.tail <==> |s.accepted| - s.consumed == |s.slots| - 1
    ensures s.head == s.tail <==> |s.accepted| == s.consumed
  {
    var n, h, t := |s.slots|, |s.accepted|, s.consumed;
    NextSlot(h, n);
    assert Slot(t + n, n) == Slot(t, n);
    if Slot(h + 1, n) == s.tail {
      SameSlot(t, h + 1, n);
    }
    if s.head == s.tail {
      SameSlot(t, h, n);
    }
  }

  /** The publisher's slot is free when it comes to claim it. */
  lemma ClaimSucceeds(s: State)
    requires IndicesOk(s) && FlagsOk(s) && PublisherOk(s) && s.publisher.PSawRoom?
    ensures Enabled(s, ClaimSlot) && Apply(s, ClaimSlot).publisher.PClaimed?
  {
    var h := |s.accepted|;
    assert s.slots[Slot(h, |s.slots|)].state == Flag(s, h);
  }

  /** The consumer's slot is ready when it comes to read its flag. */
  lemma ReadySucceeds(s: State)
    requires IndicesOk(s) && FlagsOk(s) && ConsumerOk(s) && s.consumer.CSawMessage?
    ensures Enabled(s, LoadState) && Apply(s, LoadState).consumer.CSawReady?
  {
    var t := s.consumed;
    assert s.slots[Slot(t, |s.slots|)].state == Flag(s, t);
  }

  lemma PublisherKeepsIndices(s: State, a: Action)
    requires IndicesOk(s) && PublisherOk(s) && Enabled(s, a) && !ByConsumer(a)
    ensures IndicesOk(Apply(s, a)) && |Apply(s, a).slots| == |s.slots|
  {
    NextSlot(|s.accepted|, |s.slots|);
  }

  lemma ConsumerKeepsIndices(s: State, a: Action)
    requires IndicesOk(s) && ConsumerOk(s) && Enabled(s, a) && ByConsumer(a)
    ensures IndicesOk(Apply(s, a)) && |Apply(s, a).slots| == |s.slots|
  {
    NextSlot(s.consumed, |s.slots|);
  }

  /** The slot of every other ticket of the lap is left alone by the publisher. */
  lemma PublisherTouchesOneSlot(s: State, a: Action, k: nat)
    requires IndicesOk(s) && PublisherOk(s) && Enabled(s, a) && !ByConsumer(a)
    requires s.consumed <= k < s.consumed + |s.slots|
    ensures |Apply(s, a).slots| == |s.slots|
    ensures k != |s.accepted| ==> Apply(s, a).slots[Slot(k, |s.slots|)] == s.slots[Slot(k, |s.slots|)]
    ensures !Filling(s.publisher) && !s.publisher.PSawRoom? ==> Apply(s, a).slots == s.slots
  {
    LapIsInjective(s, k, |s.accepted|);
  }

  /** The same for the consumer: it touches the slot it views, or the one it has just left. */
  lemma ConsumerTouchesOneSlot(s: State, a: Action, k: nat)
    requires IndicesOk(s) && ConsumerOk(s) && Enabled(s, a) && ByConsumer(a)
    requires s.consumed <= k < s.consumed + |s.slots|
    ensures |Apply(s, a).slots| == |s.slots|
    ensures !(k == s.consumed && a.StoreReading?) && !(k == s.consumed + |s.slots| - 1 && a.StoreEmpty?) ==>
              Apply(s, a).slots[Slot(k, |s.slots|)] == s.slots[Slot(k, |s.slots|)]
  {
    if a.StoreReading? {
      LapIsInjective(s, k, s.consumed);
    } else if a.StoreEmpty? {
      assert Slot(s.consumed - 1 + |s.slots|, |s.slots|) == Slot(s.consumed - 1, |s.slots|);
      LapIsInjective(s, k, s.consumed + |s.slots| - 1);
    }
  }

  /** Flags of the other tickets do not depend on where the publisher is. */
  lemma PublisherKeepsOtherFlag(s: State, a: Action, k: nat)
    requires IndicesOk(s) && FlagsOk(s) && PublisherOk(s) && Enabled(s, a) && !ByConsumer(a)
    requires s.consumed <= k < s.consumed + |s.slots| && k != |s.accepted|
    ensures |Apply(s, a).slots| == |s.slots| && Apply(s, a).slots[Slot(k, |s.slots|)].state == Flag(Apply(s, a), k)
  {
    assert s.slots[Slot(k, |s.slots|)].state == Flag(s, k);
    PublisherTouchesOneSlot(s, a, k);
  }

  lemma PublisherKeepsItsFlag(s: State, a: Action)
    requires IndicesOk(s) && FlagsOk(s) && PublisherOk(s) && ConsumerOk(s) && Enabled(s, a) && !ByConsumer(a)
    ensures |Apply(s, a).slots| == |s.slots| && Apply(s, a).slots[s.head].state == Flag(Apply(s, a), |s.accepted|)
  {
    var h := |s.accepted|;
    assert s.slots[Slot(h, |s.slots|)].state == Flag(s, h);
    if a.ClaimSlot? {
      ClaimSucceeds(s);
    }
  }

  lemma PublisherKeepsContent(s: State, a: Action, k: nat)
    requires IndicesOk(s) && PublisherOk(s) && ContentOk(s) && Enabled(s, a) && !ByConsumer(a)
    requires s.consumed <= k < |Apply(s, a).accepted|
    ensures k < s.consumed + |s.slots|
    ensures |Apply(s, a).slots| == |s.slots|
    ensures Holds(Apply(s, a).slots[Slot(k, |s.slots|)], k, Apply(s, a).accepted[k])
  {
    PublisherKeepsIndices(s, a);
    PublisherTouchesOneSlot(s, a, k);
    if k < |s.accepted| {
      assert Holds(s.slots[Slot(k, |s.slots|)], k, s.accepted[k]);
    }
  }

  lemma PublisherKeepsItself(s: State, a: Action)
    requires IndicesOk(s) && FlagsOk(s) && PublisherOk(s) && CountersOk(s) && Enabled(s, a) && !ByConsumer(a)
    ensures IndicesOk(Apply(s, a)) && PublisherOk(Apply(s, a)) && CountersOk(Apply(s, a))
  {
    PublisherKeepsIndices(s, a);
    FullExactly(s);
    if a.ClaimSlot? {
      ClaimSucceeds(s);
    }
  }

  lemma PublisherKeepsConsumer(s: State, a: Action)
    requires IndicesOk(s) && PublisherOk(s) && ConsumerOk(s) && DeliveredOk(s) && Enabled(s, a) && !ByConsumer(a)
    ensures IndicesOk(Apply(s, a)) && ConsumerOk(Apply(s, a)) && DeliveredOk(Apply(s, a))
  {
    PublisherKeepsIndices(s, a);
    PublisherTouchesOneSlot(s, a, s.consumed);
  }

  /** Flags do not depend on where the consumer is, except around its stores. */
  lemma ConsumerKeepsFlag(s: State, a: Action, k: nat)
    requires IndicesOk(s) && FlagsOk(s) && Enabled(s, a) && ByConsumer(a)
    requires s.consumed <= k < s.consumed + |s.slots|
    requires !a.StoreReading? && !a.StoreTail? && !a.StoreEmpty?
    ensures |Apply(s, a).slots| == |s.slots| && Apply(s, a).slots[Slot(k, |s.slots|)].state == Flag(Apply(s, a), k)
  {
    assert s.slots[Slot(k, |s.slots|)].state == Flag(s, k);
  }

  lemma StoreReadingKeepsFlag(s: State, k: nat)
    requires IndicesOk(s) && FlagsOk(s) && ConsumerOk(s) && Enabled(s, StoreReading)
    requires s.consumed <= k < s.consumed + |s.slots|
    ensures |Apply(s, StoreReading).slots| == |s.slots|
    ensures Apply(s, StoreReading).slots[Slot(k, |s.slots|)].state == Flag(Apply(s, StoreReading), k)
  {
    assert s.slots[Slot(k, |s.slots|)].state == Flag(s, k);
    ConsumerTouchesOneSlot(s, StoreReading, k);
  }

  lemma StoreEmptyKeepsFlag(s: State, k: nat)
    requires IndicesOk(s) && FlagsOk(s) && PublisherOk(s) && ConsumerOk(s) && Enabled(s, StoreEmpty)
    requires s.consumed <= k < s.consumed + |s.slots|
    ensures |Apply(s, StoreEmpty).slots| == |s.slots|
    ensures Apply(s, StoreEmpty).slots[Slot(k, |s.slots|)].state == Flag(Apply(s, StoreEmpty), k)
  {
    var t, n := s.consumed, |s.slots|;
    assert s.slots[Slot(k, n)].state == Flag(s, k);
    ConsumerTouchesOneSlot(s, StoreEmpty, k);
    assert Slot(t - 1 + n, n) == Slot(t - 1, n);
  }

  /** Moving the tail turns the slot just read into the last one of the next lap, still flagged as
      being read. */
  lemma MovingTailKeepsFlag(s: State, k: nat)
    requires IndicesOk(s) && FlagsOk(s) && PublisherOk(s) && ConsumerOk(s) && Enabled(s, StoreTail)
    requires s.consumed < k <= s.consumed + |s.slots|
    ensures |Apply(s, StoreTail).slots| == |s.slots|
    ensures Apply(s, StoreTail).slots[Slot(k, |s.slots|)].state == Flag(Apply(s, StoreTail), k)
  {
    var t, n := s.consumed, |s.slots|;
    var j := if k == t + n then t else k;
    assert Slot(t + n, n) == Slot(t, n);
    assert s.slots[Slot(j, n)].state == Flag(s, j);
  }

  lemma ConsumerKeepsContent(s: State, a: Action, k: nat)
    requires IndicesOk(s) && ConsumerOk(s) && ContentOk(s) && Enabled(s, a) && ByConsumer(a)
    requires Apply(s, a).consumed <= k < |s.accepted|
    ensures |Apply(s, a).slots| == |s.slots|
    ensures Holds(Apply(s, a).slots[Slot(k, |s.slots|)], k, s.accepted[k])
  {
    assert Holds(s.slots[Slot(k, |s.slots|)], k, s.accepted[k]);
    ConsumerTouchesOneSlot(s, a, k);
  }

  lemma ConsumerKeepsItself(s: State, a: Action)
    requires IndicesOk(s) && FlagsOk(s) && ConsumerOk(s) && CountersOk(s) && Enabled(s, a) && ByConsumer(a)
    ensures IndicesOk(Apply(s, a)) && ConsumerOk(Apply(s, a)) && CountersOk(Apply(s, a))
  {
    ConsumerKeepsIndices(s, a);
    FullExactly(s);
    if a.LoadState? {
      ReadySucceeds(s);
    }
  }

  lemma ConsumerKeepsDelivered(s: State, a: Action)
    requires IndicesOk(s) && ConsumerOk(s) && ContentOk(s) && DeliveredOk(s) && Enabled(s, a) && ByConsumer(a)
    ensures IndicesOk(Apply(s, a)) && DeliveredOk(Apply(s, a))
  {
    ConsumerKeepsIndices(s, a);
    if a.CallBack? {
      OldestIsInItsSlot(s);
    }
  }

  /** While a message is waiting, a view of the consumer's slot shows exactly that message. */
  lemma OldestIsInItsSlot(s: State)
    requires IndicesOk(s) && ContentOk(s) && s.consumed < |s.accepted|
    ensures s.slots[s.tail].header.payloadLen <= |s.slots[s.tail].payload|
    ensures LiveView(s.slots[s.tail]) == ViewFor(s.consumed, s.accepted[s.consumed])
  {
    var m, slot := s.accepted[s.consumed], s.slots[s.tail];
    assert Holds(slot, s.consumed, m);
    assert slot.payload[..|m.data| % TWO32] == slot.payload[..|m.data|][..|m.data| % TWO32];
  }

  lemma ConsumerKeepsPublisher(s: State, a: Action)
    requires IndicesOk(s) && ConsumerOk(s) && PublisherOk(s) && Enabled(s, a) && ByConsumer(a)
    ensures IndicesOk(Apply(s, a)) && PublisherOk(Apply(s, a))
  {
    ConsumerKeepsIndices(s, a);
    ConsumerTouchesOneSlot(s, a, |s.accepted|);
  }

  lemma PublisherKeepsFlags(s: State, a: Action)
    requires IndicesOk(s) && FlagsOk(s) && PublisherOk(s) && ConsumerOk(s) && Enabled(s, a) && !ByConsumer(a)
    ensures IndicesOk(Apply(s, a)) && FlagsOk(Apply(s, a))
  {
    var s' := Apply(s, a);
    PublisherKeepsIndices(s, a);
    forall k | s'.consumed <= k < s'.consumed + |s'.slots|
      ensures s'.slots[Slot(k, |s'.slots|)].state == Flag(s', k)
    {
      if k != |s.accepted| { PublisherKeepsOtherFlag(s, a, k); } else { PublisherKeepsItsFlag(s, a); }
    }
  }

  lemma PublisherStepKeepsInv(s: State, a: Action)
    requires Inv(s) && Enabled(s, a) && !ByConsumer(a)
    ensures Inv(Apply(s, a))
  {
    var s' := Apply(s, a);
    PublisherKeepsItself(s, a);
    PublisherKeepsConsumer(s, a);
    PublisherKeepsFlags(s, a);
    forall k | s'.consumed <= k < |s'.accepted|
      ensures Holds(s'.slots[Slot(k, |s'.slots|)], k, s'.accepted[k])
    {
      PublisherKeepsContent(s, a, k);
    }
  }

  lemma ConsumerKeepsFlags(s: State, a: Action)
    requires IndicesOk(s) && FlagsOk(s) && PublisherOk(s) && ConsumerOk(s) && Enabled(s, a) && ByConsumer(a)
    requires !a.StoreReading? && !a.StoreTail? && !a.StoreEmpty?
    ensures IndicesOk(Apply(s, a)) && FlagsOk(Apply(s, a))
  {
    var s' := Apply(s, a);
    ConsumerKeepsIndices(s, a);
    forall k | s'.consumed <= k < s'.consumed + |s'.slots|
      ensures s'.slots[Slot(k, |s'.slots|)].state == Flag(s', k)
    {
      ConsumerKeepsFlag(s, a, k);
    }
  }

  lemma StoringKeepsFlags(s: State, a: Action)
    requires IndicesOk(s) && FlagsOk(s) && PublisherOk(s) && ConsumerOk(s) && Enabled(s, a)
    requires a.StoreReading? || a.StoreTail? || a.StoreEmpty?
    ensures IndicesOk(Apply(s, a)) && FlagsOk(Apply(s, a))
  {
    var s' := Apply(s, a);
    ConsumerKeepsIndices(s, a);
    forall k | s'.consumed <= k < s'.consumed + |s'.slots|
      ensures s'.slots[Slot(k, |s'.slots|)].state == Flag(s', k)
    {
      if a.StoreReading? {
        StoreReadingKeepsFlag(s, k);
      } else if a.StoreTail? {
        MovingTailKeepsFlag(s, k);
      } else {
        StoreEmptyKeepsFlag(s, k);
      }
    }
  }

  lemma ConsumerStepKeepsInv(s: State, a: Action)
    requires Inv(s) && Enabled(s, a) && ByConsumer(a)
    ensures Inv(Apply(s, a))
  {
    var s' := Apply(s, a);
    ConsumerKeepsItself(s, a);
    ConsumerKeepsDelivered(s, a);
    ConsumerKeepsPublisher(s, a);
    if a.StoreReading? || a.StoreTail? || a.StoreEmpty? {
      StoringKeepsFlags(s, a);
    } else {
      ConsumerKeepsFlags(s, a);
    }
    forall k | s'.consumed <= k < |s'.accepted|
      ensures Holds(s'.slots[Slot(k, |s'.slots|)], k, s'.accepted[k])
    {
      ConsumerKeepsContent(s, a, k);
    }
  }

  lemma StepKeepsInv(s: State, a: Action)
    requires Inv(s) && Enabled(s, a)
    ensures Inv(Apply(s, a))
  {
    if ByConsumer(a) {
      ConsumerStepKeepsInv(s, a);
    } else {
      PublisherStepKeepsInv(s, a);
    }
  }
}
