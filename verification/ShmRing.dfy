/** `ShmChannel` in its own form: a control block and an array of slots updated in place.

    `Publish` and `Consume` perform the steps of the protocol while the other side stands still
    wherever it happens to be; `run` records the steps. */
module ShmRing {
  import opened Bytes
  import opened ShmProtocol
  import ByteRanges
  import R = ShmRuns

  // ---------------------------------------------------------------- the segment

  /** `control` and `slotHeader` are the sizes of the control block and of a slot without its payload. */
  function SlotSize(slotHeader: nat, payloadMax: nat): nat {
    slotHeader + payloadMax
  }

  function TotalSize(control: nat, bufferSize: nat, slotSize: nat): nat {
    control + bufferSize * slotSize
  }

  /** `get_slot`: where slot `index` starts in the segment. */
  function SlotAt(control: nat, index: nat, slotSize: nat): nat {
    ByteRanges.Offset(control, index, slotSize)
  }

  /** Slots lie behind the control block, inside the segment the creator asked for, and do not overlap,
      whatever the sizes; the payload area of a slot ends where the slot does. */
  lemma SlotsLieInTheSegment(control: nat, slotHeader: nat, payloadMax: nat, bufferSize: nat, i: nat, j: nat)
    requires i < bufferSize && j < bufferSize
    ensures var size := SlotSize(slotHeader, payloadMax);
      && size == slotHeader + payloadMax
      && SlotAt(control, i, size) == control + i * (slotHeader + payloadMax)
      && TotalSize(control, bufferSize, size) == control + bufferSize * (slotHeader + payloadMax)
      && SlotAt(control, i, size) + slotHeader + payloadMax <= TotalSize(control, bufferSize, size)
      && (i < j ==> SlotAt(control, i, size) + slotHeader + payloadMax <= SlotAt(control, j, size))
  {
    var size := SlotSize(slotHeader, payloadMax);
    ByteRanges.ProductMonotone(i + 1, bufferSize, size);
    if i < j {
      ByteRanges.BlocksAreDisjoint(control, i, j, size, bufferSize);
    }
  }

  predicate Aligned(address: nat) {
    address % 8 == 0
  }

  lemma SumIsAligned(a: nat, b: nat)
    requires Aligned(a)
    ensures Aligned(a + b) <==> Aligned(b)
  {
  }

  lemma {:induction false} SlotIsAligned(control: nat, index: nat, slotSize: nat)
    requires Aligned(control) && Aligned(slotSize)
    ensures Aligned(SlotAt(control, index, slotSize))
  {
    if index > 0 {
      SlotIsAligned(control, index - 1, slotSize);
      assert SlotAt(control, index, slotSize) == SlotAt(control, index - 1, slotSize) + slotSize;
      SumIsAligned(SlotAt(control, index - 1, slotSize), slotSize);
    }
  }

  /** Slots begin with a 64-bit atomic.  With the two headers aligned, all of them are aligned exactly when
      the payload size is: `payload_max` is used as it is, so any other value puts slot 1 askew. */
  lemma SlotsAreAlignedIff(control: nat, slotHeader: nat, payloadMax: nat, bufferSize: nat)
    requires control % 8 == 0 && slotHeader % 8 == 0 && bufferSize >= 2
    ensures (forall i | 0 <= i < bufferSize :: SlotAt(control, i, SlotSize(slotHeader, payloadMax)) % 8 == 0)
      <==> payloadMax % 8 == 0
  {
    var size := SlotSize(slotHeader, payloadMax);
    SumIsAligned(slotHeader, payloadMax);
    if Aligned(size) {
      forall i | 0 <= i < bufferSize ensures Aligned(SlotAt(control, i, size)) {
        SlotIsAligned(control, i, size);
      }
    } else {
      assert SlotAt(control, 1, size) == control + size;
      SumIsAligned(control, size);
      assert !Aligned(SlotAt(control, 1, size));
    }
  }

  class ShmChannel {
    const slots: array<MsgSlot>
    const payloadMax: nat
    var initialized: bool
    var head: nat
    var tail: nat
    var messagesSent: nat
    var messagesReceived: nat
    var messagesDropped: nat
    var localSequence: nat
    ghost var run: R.Run

    ghost predicate Valid()
      reads this, slots
    {
      && R.Legal(run)
      && var s := R.Final(run);
      && s.slots == slots[..] && s.payloadMax == payloadMax && s.initialized == initialized
      && s.head == head && s.tail == tail && s.localSequence == localSequence
      && s.sent == messagesSent && s.received == messagesReceived && s.dropped == messagesDropped
    }

    ghost function Now(): State
      reads this, slots
      requires Valid()
    {
      R.Final(run)
    }

    ghost function Backlog(): seq<Message>
      reads this, slots
      requires Valid()
    {
      R.Backlog(Now())
    }

    ghost method Take(a: Action)
      requires R.Legal(run) && Enabled(R.Final(run), a)
      modifies this`run
      ensures run == R.Then(old(run), a) && R.Legal(run)
      ensures R.Final(run) == Apply(R.Final(old(run)), a)
    {
      run := R.Then(run, a);
    }

    /** `initializeCreator` over freshly mapped memory whose slots hold `raw`. */
    constructor (bufferSize: nat, payloadMax: nat, raw: seq<MsgSlot>)
      requires 0 < bufferSize == |raw|
      requires forall i | 0 <= i < bufferSize :: |raw[i].payload| == payloadMax
      ensures Valid() && fresh(slots) && slots.Length == bufferSize && this.payloadMax == payloadMax
      ensures initialized && Backlog() == [] && Now().publisher.PIdle? && Now().consumer.CIdle?
      ensures messagesSent == messagesReceived == messagesDropped == 0
    {
      slots := new MsgSlot[bufferSize](i requires 0 <= i < |raw| => raw[i]);
      this.payloadMax := payloadMax;
      initialized := false;
      head, tail, messagesSent, messagesReceived, messagesDropped, localSequence := 0, 0, 0, 0, 0, 0;
      new;
      EmptyAllSlots();
      initialized := true;
      run := R.Start(State(true, slots[..], payloadMax, 0, 0, 0, 0, 0, 0, PIdle, CIdle, [], 0, [], 0, 0));
    }

    method EmptyAllSlots()
      modifies slots
      ensures forall i | 0 <= i < slots.Length ::
                slots[i] == old(slots[i]).(sequence := 0, state := SlotState.Empty)
    {
      var i := 0;
      while i < slots.Length
        invariant 0 <= i <= slots.Length
        invariant forall k | 0 <= k < i ::
                    slots[k] == old(slots[k]).(sequence := 0, state := SlotState.Empty)
        invariant forall k | i <= k < slots.Length :: slots[k] == old(slots[k])
      {
        slots[i] := slots[i].(sequence := 0, state := SlotState.Empty);
        i := i + 1;
      }
    }

    /** The header, straight into the claimed slot. */
    method FillHeader(data: seq<Byte>, timestamp: nat)
      requires Valid() && Now().publisher == PClaimed(data, head) && head < slots.Length
      modifies slots, this`localSequence, this`run
      ensures Valid() && Now().publisher == PHeader(data, head, timestamp)
      ensures localSequence == old(localSequence) + 1 && slots[head].payload == old(slots[head]).payload
      ensures Now() == old(Now()).(publisher := Now().publisher, slots := Now().slots,
                                   localSequence := localSequence)
    {
      localSequence := localSequence + 1;
      slots[head] := slots[head].(header := Header(0, localSequence, timestamp, |data| % TWO32, 0, 0));
      Take(WriteHeader(timestamp));
    }

    /** The payload, straight after it. */
    method FillPayload(data: seq<Byte>, timestamp: nat)
      requires Valid() && Now().publisher == PHeader(data, head, timestamp)
      requires head < slots.Length && |data| <= |slots[head].payload|
      modifies slots, this`run
      ensures Valid() && Now().publisher == PPayload(data, head, timestamp)
      ensures Now() == old(Now()).(publisher := Now().publisher, slots := Now().slots)
    {
      slots[head] := slots[head].(payload := data + slots[head].payload[|data|..]);
      Take(WritePayload);
    }

    /** The slot's sequence number, then its flag. */
    method MarkReady(data: seq<Byte>, timestamp: nat)
      requires Valid() && Now().publisher == PPayload(data, head, timestamp) && head < slots.Length
      modifies slots, this`run
      ensures Valid() && Now().publisher == PReady(data, head, timestamp)
      ensures Now() == old(Now()).(publisher := Now().publisher, slots := Now().slots)
    {
      slots[head] := slots[head].(sequence := localSequence);
      Take(StoreSequence);
      slots[head] := slots[head].(state := Ready);
      Take(StoreReady);
    }

    /** The head, which makes the message visible, then the counter. */
    method MoveHead(data: seq<Byte>, timestamp: nat, nextHead: nat)
      requires Valid() && Now().publisher == PReady(data, head, timestamp) && slots.Length > 0
      requires nextHead == NextIndex(head, slots.Length)
      modifies this`head, this`messagesSent, this`run
      ensures Valid()
      ensures Now() == old(Now()).(publisher := PIdle, head := nextHead, sent := messagesSent,
                                   accepted := old(Now()).accepted + [Message(data, timestamp)])
      ensures messagesSent == old(messagesSent) + 1
    {
      head := nextHead;
      Take(StoreHead);
      messagesSent := messagesSent + 1;
      Take(CountSent);
    }

    /** The loads and the exchange that open a publish: either a drop is counted, or the slot at
        `head` is claimed. */
    method ClaimOrDrop(data: seq<Byte>, nextHead: nat) returns (claimed: bool)
      requires Valid() && Now().publisher == PHasHead(data, head) && slots.Length > 0
      requires nextHead == NextIndex(head, slots.Length)
      modifies slots, this`messagesDropped, this`run
      ensures Valid() && (claimed <==> nextHead != tail)
      ensures claimed ==> head < slots.Length && Now().publisher == PClaimed(data, head)
      ensures claimed ==> slots[head].payload == old(slots[head]).payload
      ensures claimed ==> Now() == old(Now()).(publisher := Now().publisher, slots := Now().slots)
      ensures !claimed ==> Now() == old(Now()).(publisher := PIdle, dropped := old(messagesDropped) + 1)
    {
      Take(LoadTail);
      if nextHead == tail {
        messagesDropped := messagesDropped + 1;
        Take(CountDrop);
        return false;
      }
      R.ClaimNeverFails(run);
      Take(ClaimSlot);
      if !slots[head].state.Empty? {
        assert false;
      }
      slots[head] := slots[head].(state := Writing);
      return true;
    }

    /** The rest of a publish whose slot has been claimed. */
    method SendClaimed(data: seq<Byte>, timestamp: nat, nextHead: nat) returns (sequence: nat)
      requires Valid() && Now().publisher == PClaimed(data, head)
      requires head < slots.Length && |data| <= |slots[head].payload|
      requires nextHead == NextIndex(head, slots.Length)
      modifies this, slots
      ensures Valid() && sequence == localSequence == old(localSequence) + 1
      ensures Now() == old(Now()).(publisher := PIdle, slots := Now().slots, head := nextHead,
                                   localSequence := sequence, sent := old(messagesSent) + 1,
                                   accepted := old(Now()).accepted + [Message(data, timestamp)])
    {
      FillHeader(data, timestamp);
      sequence := localSequence;
      FillPayload(data, timestamp);
      MarkReady(data, timestamp);
      MoveHead(data, timestamp, nextHead);
    }

    /** Refuses an uninitialized channel or an oversized payload without a trace; otherwise drops
        exactly when `buffer_size - 1` messages are waiting, and else appends the message. */
    method Publish(data: seq<Byte>, timestamp: nat) returns (ok: bool, sequence: nat)
      requires Valid() && Now().publisher.PIdle?
      modifies this, slots
      ensures Valid() && Now().publisher.PIdle? && Now().consumer == old(Now()).consumer
      ensures ok <==> initialized && |data| <= payloadMax && |old(Backlog())| < slots.Length - 1
      ensures Backlog() == old(Backlog()) + (if ok then [Message(data, timestamp)] else [])
      ensures ok ==> sequence == |Now().accepted|
      ensures messagesSent == old(messagesSent) + (if ok then 1 else 0)
      ensures messagesDropped == old(messagesDropped)
                               + (if !ok && initialized && |data| <= payloadMax then 1 else 0)
      ensures messagesReceived == old(messagesReceived) && initialized == old(initialized)
    {
      sequence := 0;
      R.IndexFacts(run);
      Take(BeginPublish(data));
      if !initialized {
        return false, sequence;
      }
      if |data| > payloadMax {
        return false, sequence;
      }
      var nextHead := NextIndex(head, slots.Length);
      ok := ClaimOrDrop(data, nextHead);
      if ok {
        sequence := SendClaimed(data, timestamp, nextHead);
      }
    }

    /** The two loads that admit a message: head, then the slot's flag. */
    method SeeMessage(count: nat)
      requires Valid() && Now().consumer == CHasTail(count, tail) && tail != head && tail < slots.Length
      modifies this`run
      ensures Valid() && Now() == old(Now()).(consumer := CSawReady(count, tail))
    {
      Take(LoadHead);
      R.NotReadyNeverFires(run);
      Take(LoadState);
      if !slots[tail].state.Ready? {
        assert false;
      }
    }

    /** The view handed to the callback, and the callback itself. */
    method ShowMessage(count: nat) returns (view: View)
      requires Valid() && Now().consumer == CSawReady(count, tail) && tail < slots.Length
      modifies this`run
      ensures Valid() && Now().consumed < |Now().accepted|
      ensures Now() == old(Now()).(consumer := CViewed(count, tail), delivered := old(Now()).delivered + [view])
      ensures view == ViewFor(Now().consumed, Now().accepted[Now().consumed])
    {
      Take(LoadSequence);
      R.NextViewIsOldest(run);
      view := LiveView(slots[tail]);
      Take(CallBack);
      Take(EndCallBack);
    }

    /** After the callback: the slot is flagged as being read and the tail moves past it. */
    method MoveTail(count: nat, nextTail: nat)
      requires Valid() && Now().consumer == CViewed(count, tail) && tail < slots.Length
      requires nextTail == NextIndex(tail, slots.Length)
      modifies slots, this`tail, this`run
      ensures Valid()
      ensures Now() == old(Now()).(consumer := CMoved(count, old(tail)), slots := Now().slots,
                                   tail := nextTail, consumed := old(Now()).consumed + 1)
    {
      slots[tail] := slots[tail].(state := Reading);
      Take(StoreReading);
      tail := nextTail;
      Take(StoreTail);
    }

    /** Only now is the slot freed, and the message counted. */
    method FreeSlot(count: nat, index: nat)
      requires Valid() && Now().consumer == CMoved(count, index) && index < slots.Length
      modifies slots, this`messagesReceived, this`run
      ensures Valid() && messagesReceived == old(messagesReceived) + 1
      ensures Now() == old(Now()).(consumer := CTop(count + 1), slots := Now().slots, received := messagesReceived)
    {
      slots[index] := slots[index].(state := SlotState.Empty);
      Take(StoreEmpty);
      messagesReceived := messagesReceived + 1;
      Take(CountReceived);
    }

    /** One turn of the loop of `consume` for a message that is there. */
    method ConsumeNext(count: nat) returns (view: View)
      requires Valid() && Now().consumer == CHasTail(count, tail) && tail != head
      modifies this, slots
      ensures Valid() && Now().consumed == old(Now()).consumed + 1 <= |Now().accepted|
      ensures view == ViewFor(old(Now()).consumed, Now().accepted[old(Now()).consumed])
      ensures messagesReceived == old(messagesReceived) + 1
      ensures Now() == old(Now()).(consumer := CTop(count + 1), slots := Now().slots, tail := tail,
                                   received := messagesReceived, consumed := Now().consumed,
                                   delivered := old(Now()).delivered + [view])
    {
      R.IndexFacts(run);
      var index := tail;
      SeeMessage(count);
      view := ShowMessage(count);
      MoveTail(count, NextIndex(index, slots.Length));
      FreeSlot(count, index);
    }

    /** The two loads at the top of the loop. */
    method MessageWaiting(count: nat) returns (waiting: bool)
      requires Valid() && Now().consumer == CTop(count)
      modifies this`run
      ensures Valid() && (waiting <==> Backlog() != []) && (waiting <==> tail != head)
      ensures Now() == old(Now()).(consumer := if waiting then CHasTail(count, tail) else CIdle)
    {
      R.IndexFacts(run);
      Take(ReloadTail);
      waiting := tail != head;
      if !waiting {
        Take(LoadHead);
      }
    }

    /** One turn of the loop: the oldest waiting message, or the end. */
    method Turn(count: nat) returns (views: seq<View>)
      requires Valid() && Now().consumer == CTop(count)
      modifies this, slots
      ensures Valid() && initialized == old(initialized)
      ensures Now().accepted == old(Now()).accepted && Now().publisher == old(Now()).publisher
      ensures old(Now()).consumed <= |Now().accepted|
      ensures views == if old(Now()).consumed < |Now().accepted|
                       then [ViewFor(old(Now()).consumed, Now().accepted[old(Now()).consumed])] else []
      ensures Now().consumer == if views == [] then CIdle else CTop(count + 1)
      ensures Now().consumed == old(Now()).consumed + |views|
      ensures messagesReceived == old(messagesReceived) + |views|
    {
      R.IndexFacts(run);
      var waiting := MessageWaiting(count);
      if !waiting {
        return [];
      }
      var view := ConsumeNext(count);
      return [view];
    }

    /** Hands every waiting message to the callback, oldest first, and returns how many there were. */
    method Consume() returns (count: nat, views: seq<View>)
      requires Valid() && Now().consumer.CIdle?
      modifies this, slots
      ensures Valid() && Now().consumer.CIdle? && Now().publisher == old(Now()).publisher
      ensures !initialized ==> Now() == old(Now()) && views == []
      ensures initialized ==> Backlog() == []
      ensures initialized ==> views == R.ViewsOf(old(Backlog()), old(Now()).consumed)
      ensures initialized ==> |views| == |old(Backlog())|
      ensures initialized ==> forall k | 0 <= k < |views| ::
        && views[k].header.sequence == old(Now()).consumed + k + 1
        && views[k].header.timestamp == old(Backlog())[k].timestamp
        && views[k].header.payloadLen == |views[k].payload| == |old(Backlog())[k].data| % 0x1_0000_0000
        && views[k].header.topicId == views[k].header.crc32 == views[k].header.flags == 0
        && views[k].payload <= old(Backlog())[k].data
      ensures count == |views| && messagesReceived == old(messagesReceived) + count
      ensures Now().accepted == old(Now()).accepted && initialized == old(initialized)
    {
      count, views := 0, [];
      R.IndexFacts(run);
      ghost var backlog, first := Backlog(), Now().consumed;
      Take(BeginConsume);
      if !initialized {
        return;
      }
      while true
        invariant Valid() && Now().consumer == CTop(count) && initialized
        invariant Now().accepted == old(Now()).accepted && Now().publisher == old(Now()).publisher
        invariant Now().consumed == first + count <= |Now().accepted| && count == |views|
        invariant messagesReceived == old(messagesReceived) + count
        invariant R.ShowFirst(views, backlog, first)
        decreases |backlog| - count
      {
        ghost var k := Now().consumed;
        var more := Turn(count);
        if more == [] {
          R.AllShown(views, backlog, first);
          R.ViewsAreFaithful(backlog, first);
          return;
        }
        R.OneMoreView(views, more, backlog, first, k);
        count, views := count + 1, views + more;
      }
    }
  }
}
