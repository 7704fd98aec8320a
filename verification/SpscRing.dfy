/** `SpscRingBuffer` in its own form: an array and two indices updated in place.

    Each method performs, line by line, the steps of the protocol; `run` records them.  The other
    side may be suspended anywhere inside its own call. */
module SpscRing {
  import opened BoundedFifo
  import P = SpscProtocol

  class SpscRingBuffer<T(0)> {
    const buffer: array<T>
    var head: nat
    var tail: nat
    ghost var run: P.Run<T>

    ghost predicate Valid()
      reads this, buffer
    {
      && P.Legal(run)
      && var s := P.Final(run);
         s.buffer == buffer[..] && s.head == head && s.tail == tail
    }

    ghost function Now(): P.State<T>
      reads this, buffer
      requires Valid()
    {
      P.Final(run)
    }

    ghost function Contents(): seq<T>
      reads this, buffer
      requires Valid()
    {
      P.Contents(Now())
    }

    constructor (capacity: nat)
      requires capacity >= 2
      ensures Valid() && fresh(buffer) && buffer.Length == capacity
      ensures Contents() == [] && Now().producer.PIdle? && Now().consumer.CIdle?
    {
      buffer := new T[capacity];
      head, tail := 0, 0;
      new;
      run := P.Start(P.State(buffer[..], 0, 0, P.PIdle, P.CIdle, [], []));
    }

    /** Records one step of the protocol; the statement beside each call makes the fields follow. */
    ghost method Take(a: P.Action<T>)
      requires P.Legal(run) && P.Enabled(P.Final(run), a)
      modifies this`run
      ensures run == P.Then(old(run), a) && P.Legal(run)
      ensures P.Final(run) == P.Apply(P.Final(old(run)), a)
    {
      run := P.Then(run, a);
    }

    /** Refused exactly when `Capacity - 1` elements are queued; otherwise appends. */
    method TryPush(value: T) returns (ok: bool)
      requires Valid() && Now().producer.PIdle?
      modifies this, buffer
      ensures Valid()
      ensures ok <==> |old(Contents())| < buffer.Length - 1
      ensures Contents() == if ok then old(Contents()) + [value] else old(Contents())
      ensures run == if ok then P.PushRun(old(run), value) else P.RefusedPushRun(old(run), value)
      ensures Now().producer.PIdle? && Now().consumer == old(Now()).consumer
    {
      P.IndexFacts(run);
      var h := head;
      Take(P.BeginPush(value));
      var next := P.Increment(h, buffer.Length);
      Take(P.CheckFull);
      if next == tail {
        return false;
      }
      buffer[h] := value;
      Take(P.WriteSlot);
      head := next;
      Take(P.StoreHead);
      return true;
    }

    /** Refused exactly when nothing is queued; otherwise removes and returns the oldest element. */
    method TryPop() returns (result: Option<T>)
      requires Valid() && Now().consumer.CIdle?
      modifies this, buffer
      ensures Valid()
      ensures result == if |old(Contents())| == 0 then None else Some(old(Contents())[0])
      ensures Contents() == if result.None? then old(Contents()) else old(Contents())[1..]
      ensures Now().consumer.CIdle? && Now().producer == old(Now()).producer
    {
      P.IndexFacts(run);
      var t := tail;
      Take(P.BeginPop);
      Take(P.CheckEmpty);
      if t == head {
        return None;
      }
      var value := buffer[t];
      buffer[t] := *;
      Take(P.ReadSlot(buffer[t]));
      tail := P.Increment(t, buffer.Length);
      Take(P.StoreTail);
      return Some(value);
    }

    method Empty() returns (empty: bool)
      requires Valid()
      ensures empty <==> Contents() == []
    {
      P.IndexFacts(run);
      empty := head == tail;
    }
  }
}
