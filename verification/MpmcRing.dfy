/** `MpmcRingBuffer` in its own form: an array of cells and two positions updated in place by
    retry loops.

    Each method performs the steps of the protocol as thread `t`, while the other threads stand
    still wherever they happen to be, possibly in the middle of their own calls; `run` records the
    steps.  A weak compare-exchange may fail spuriously, at most `weak` times in one call. */
module MpmcRing {
  import opened RingIndex
  import opened BoundedFifo
  import P = MpmcProtocol
  import R = MpmcRuns

  /** How one turn of a retry loop ends. */
  datatype Turn = Won | Refused | Again

  class MpmcRingBuffer<T(0)> {
    const cells: array<P.Cell<T>>
    var enqueuePos: nat
    var dequeuePos: nat
    ghost var run: R.Run<T>

    ghost predicate Valid()
      reads this, cells
    {
      && R.Legal(run)
      && var s := R.Final(run);
         s.cells == cells[..] && s.enqueuePos == enqueuePos && s.dequeuePos == dequeuePos && P.Inv(s)
    }

    ghost function Now(): P.State<T>
      reads this, cells
      requires Valid()
    {
      R.Final(run)
    }

    ghost function Contents(): seq<T>
      reads this, cells
      requires Valid()
    {
      R.Contents(Now())
    }

    ghost method Take(a: P.Action<T>)
      requires R.Legal(run) && P.Inv(R.Final(run)) && P.Enabled(R.Final(run), a)
      modifies this`run
      ensures run == R.Then(old(run), a) && R.Legal(run)
      ensures R.Final(run) == P.Apply(R.Final(old(run)), a) && P.Inv(R.Final(run))
    {
      P.StepKeepsInv(R.Final(run), a);
      run := R.Then(run, a);
    }

    constructor (capacity: nat, ghost threadCount: nat)
      requires capacity >= 2
      ensures Valid() && fresh(cells) && cells.Length == capacity
      ensures Contents() == [] && R.Quiet(Now()) && |Now().threads| == threadCount
      ensures forall u | 0 <= u < threadCount :: Now().threads[u].pc.Idle?
    {
      cells := new P.Cell<T>[capacity];
      enqueuePos, dequeuePos := 0, 0;
      new;
      InitializeSequences();
      ghost var idle := seq(threadCount, u => P.Thread<T>.Thread(P.Idle, 0, 0, [], []));
      run := R.Start(P.State(0, 0, cells[..], idle, [], []));
      R.RunKeepsInv(run);
    }

    method InitializeSequences()
      modifies cells
      ensures forall i | 0 <= i < cells.Length :: cells[i] == old(cells[i]).(sequence := i)
    {
      var i := 0;
      while i < cells.Length
        invariant 0 <= i <= cells.Length
        invariant forall k | 0 <= k < i :: cells[k] == old(cells[k]).(sequence := k)
        invariant forall k | i <= k < cells.Length :: cells[k] == old(cells[k])
      {
        cells[i] := cells[i].(sequence := i);
        i := i + 1;
      }
    }

    /** The steps after a push has won ticket `pos`: fill the cell, then make it visible. */
    method FillCell(ghost t: nat, i: nat, pos: nat, value: T)
      requires Valid() && t < |Now().threads| && Now().threads[t].pc == P.PushOwns(pos, value)
      requires i == pos % cells.Length
      modifies cells, this`run
      ensures Valid() && Now().claims == old(Now()).claims && Now().takers == old(Now()).takers
      ensures Now().threads == old(Now()).threads[t :=
                old(Now()).threads[t].(pc := P.Idle, sent := old(Now()).threads[t].sent + [value])]
      ensures cells[..] == old(cells[..])[i := P.Cell(pos + 1, value)]
    {
      SlotIsRemainder(pos, cells.Length);
      cells[i] := cells[i].(data := value);
      Take(P.WriteData(t));
      cells[i] := cells[i].(sequence := pos + 1);
      Take(P.Publish(t));
    }

    /** Only thread `t` has moved since `s`. */
    ghost predicate OnlyMoved(s: P.State<T>, t: nat)
      reads this, cells
      requires Valid()
    {
      && t < |s.threads| == |Now().threads|
      && Now() == s.(threads := s.threads[t := Now().threads[t]])
    }

    /** One turn of the loop of `try_push`. */
    method PushTurn(ghost t: nat, pos: nat, value: T, mayFail: bool) returns (turn: Turn, next: nat)
      requires Valid() && t < |Now().threads| && Now().threads[t].pc == P.PushAt(pos, value)
      modifies this
      ensures Valid() && pos <= old(enqueuePos)
      ensures turn.Again? ==> OnlyMoved(old(Now()), t) && Now().threads[t].pc == P.PushAt(next, value)
      ensures turn.Again? ==> next == enqueuePos && (pos < next || mayFail)
      ensures turn.Refused? ==> OnlyMoved(old(Now()), t) && Now().threads[t].pc.Idle?
      ensures turn.Refused? ==> P.CellAt(Now(), enqueuePos).sequence < enqueuePos
      ensures turn.Won? ==> pos == old(enqueuePos) && P.CellAt(old(Now()), pos).sequence == pos
      ensures turn.Won? ==>
        && t < |Now().threads| && Now().threads[t].pc == P.PushOwns(pos, value)
        && Now() == old(Now()).(enqueuePos := pos + 1, claims := old(Now()).claims + [P.Claim(t, value)],
                                threads := old(Now()).threads[t := Now().threads[t]])
    {
      assert P.PcOk(Now(), t);
      P.PushPositionFacts(Now(), pos);
      SlotIsRemainder(pos, cells.Length);
      next := pos;
      var seen := cells[pos % cells.Length].sequence;
      Take(P.LoadPushSeq(t));
      var diff := seen - pos;
      if diff == 0 {
        var spurious := *;
        spurious := spurious && mayFail;
        Take(P.ResolvePush(t, spurious));
        if enqueuePos == pos && !spurious {
          enqueuePos := pos + 1;
          return Won, pos;
        }
        return Again, enqueuePos;
      } else if diff < 0 {
        Take(P.ResolvePush(t, false));
        return Refused, pos;
      } else {
        Take(P.ResolvePush(t, false));
        return Again, enqueuePos;
      }
    }

    /** The retry loop of `try_push`, entered with any position the thread may be holding, however
        stale.  It succeeds exactly when the cell of the present enqueue position is free for it. */
    method PushFrom(ghost t: nat, position: nat, value: T, weak: nat) returns (ok: bool)
      requires Valid() && t < |Now().threads| && Now().threads[t].pc == P.PushAt(position, value)
      modifies this, cells
      ensures Valid()
      ensures ok <==> P.CellAt(old(Now()), old(enqueuePos)).sequence == old(enqueuePos)
      ensures !ok ==> OnlyMoved(old(Now()), t) && P.CellAt(Now(), enqueuePos).sequence < enqueuePos
      ensures |Now().threads| == |old(Now()).threads|
      ensures Now().claims == old(Now()).claims + (if ok then [P.Claim(t, value)] else [])
      ensures Now().takers == old(Now()).takers
      ensures Now().threads == old(Now()).threads[t := Now().threads[t]] && Now().threads[t].pc.Idle?
    {
      var pos: nat, budget: nat := position, weak;
      ghost var s := Now();
      assert P.PcOk(s, t);
      while true
        invariant Valid() && OnlyMoved(s, t) && Now().threads[t].pc == P.PushAt(pos, value)
        invariant pos <= enqueuePos
        decreases enqueuePos - pos, budget
      {
        var turn, next := PushTurn(t, pos, value, budget > 0);
        match turn
        case Won =>
          FillCell(t, pos % cells.Length, pos, value);
          return true;
        case Refused =>
          return false;
        case Again =>
          budget := if pos == next then budget - 1 else budget;
          pos := next;
      }
    }

    /** Appends `value`, or is refused exactly because the ticket one lap earlier has not been released,
        whatever else is in flight.  With nothing in flight it is refused exactly when the queue holds `capacity` values. */
    method TryPush(ghost t: nat, value: T, weak: nat) returns (ok: bool)
      requires Valid() && t < |Now().threads| && Now().threads[t].pc.Idle?
      modifies this, cells
      ensures Valid()
      ensures Contents() == old(Contents()) + (if ok then [value] else [])
      ensures ok <==>
                old(enqueuePos) < cells.Length || R.Released(old(Now()), old(enqueuePos) - cells.Length)
      ensures old(R.Quiet(Now())) ==> (ok <==> |old(Contents())| < cells.Length)
      ensures old(R.Quiet(Now())) ==> R.Quiet(Now())
      ensures |Now().threads| == |old(Now()).threads|
      ensures Now().threads == old(Now()).threads[t := Now().threads[t]] && Now().threads[t].pc.Idle?
    {
      ghost var s := Now();
      R.QuietTestsAreExact(s);
      R.FullIffUnreleased(s);
      var pos := enqueuePos;
      Take(P.BeginPush(t, value));
      ok := PushFrom(t, pos, value, weak);
      if ok {
        R.ValuesAppend(s.claims, P.Claim(t, value));
      }
    }

    /** The steps after a pop has won ticket `pos`: move the value out, then hand the cell on. */
    method EmptyCell(ghost t: nat, i: nat, pos: nat) returns (value: T)
      requires Valid() && t < |Now().threads| && Now().threads[t].pc == P.PopOwns(pos)
      requires i == pos % cells.Length
      modifies cells, this`run
      ensures Valid() && Now().claims == old(Now()).claims && Now().takers == old(Now()).takers
      ensures pos < |Now().claims| && value == Now().claims[pos].value
      ensures cells[i].sequence == pos + cells.Length
      ensures cells[..] == old(cells[..])[i := cells[i]]
      ensures Now().threads == old(Now()).threads[t :=
                old(Now()).threads[t].(pc := P.Idle, received := old(Now()).threads[t].received + [value])]
    {
      assert P.PcOk(Now(), t);
      SlotIsRemainder(pos, cells.Length);
      value := cells[i].data;
      var residue: T := *;
      cells[i] := cells[i].(data := residue);
      Take(P.ReadData(t, residue));
      cells[i] := cells[i].(sequence := pos + cells.Length);
      Take(P.Release(t));
    }

    /** One turn of the loop of `try_pop`. */
    method PopTurn(ghost t: nat, pos: nat, mayFail: bool) returns (turn: Turn, next: nat)
      requires Valid() && t < |Now().threads| && Now().threads[t].pc == P.PopAt(pos)
      modifies this
      ensures Valid() && pos <= old(dequeuePos)
      ensures turn.Again? ==> OnlyMoved(old(Now()), t) && Now().threads[t].pc == P.PopAt(next)
      ensures turn.Again? ==> next == dequeuePos && (pos < next || mayFail)
      ensures turn.Refused? ==> OnlyMoved(old(Now()), t) && Now().threads[t].pc.Idle?
      ensures turn.Refused? ==> P.CellAt(Now(), dequeuePos).sequence < dequeuePos + 1
      ensures turn.Won? ==> pos == old(dequeuePos) && P.CellAt(old(Now()), pos).sequence == pos + 1
      ensures turn.Won? ==>
        && t < |Now().threads| && Now().threads[t].pc == P.PopOwns(pos)
        && Now() == old(Now()).(dequeuePos := pos + 1, takers := old(Now()).takers + [t],
                                threads := old(Now()).threads[t := Now().threads[t]])
    {
      assert P.PcOk(Now(), t);
      P.PopPositionFacts(Now(), pos);
      SlotIsRemainder(pos, cells.Length);
      next := pos;
      var seen := cells[pos % cells.Length].sequence;
      Take(P.LoadPopSeq(t));
      var diff := seen - (pos + 1);
      if diff == 0 {
        var spurious := *;
        spurious := spurious && mayFail;
        Take(P.ResolvePop(t, spurious));
        if dequeuePos == pos && !spurious {
          dequeuePos := pos + 1;
          return Won, pos;
        }
        return Again, dequeuePos;
      } else if diff < 0 {
        Take(P.ResolvePop(t, false));
        return Refused, pos;
      } else {
        Take(P.ResolvePop(t, false));
        return Again, dequeuePos;
      }
    }

    /** The retry loop of `try_pop`, entered with any position the thread may be holding.  It succeeds
        exactly when the ticket of the present dequeue position is published. */
    method PopFrom(ghost t: nat, position: nat, weak: nat) returns (result: Option<T>)
      requires Valid() && t < |Now().threads| && Now().threads[t].pc == P.PopAt(position)
      modifies this, cells
      ensures Valid()
      ensures result.Some? <==> P.CellAt(old(Now()), old(dequeuePos)).sequence == old(dequeuePos) + 1
      ensures result.None? ==> OnlyMoved(old(Now()), t)
      ensures result.None? ==> P.CellAt(Now(), dequeuePos).sequence < dequeuePos + 1
      ensures result.Some? ==> old(dequeuePos) < |old(Now()).claims|
      ensures result.Some? ==> result.value == old(Now()).claims[old(dequeuePos)].value
      ensures |Now().threads| == |old(Now()).threads|
      ensures Now().claims == old(Now()).claims
      ensures Now().takers == old(Now()).takers + (if result.Some? then [t] else [])
      ensures Now().threads == old(Now()).threads[t := Now().threads[t]] && Now().threads[t].pc.Idle?
    {
      var pos: nat, budget: nat := position, weak;
      ghost var s := Now();
      assert P.PcOk(s, t);
      while true
        invariant Valid() && OnlyMoved(s, t) && Now().threads[t].pc == P.PopAt(pos)
        invariant pos <= dequeuePos
        decreases dequeuePos - pos, budget
      {
        var turn, next := PopTurn(t, pos, budget > 0);
        match turn
        case Won =>
          var value := EmptyCell(t, pos % cells.Length, pos);
          return Some(value);
        case Refused =>
          return None;
        case Again =>
          budget := if pos == next then budget - 1 else budget;
          pos := next;
      }
    }

    /** Removes and returns the oldest value, or is refused exactly because the next ticket is not
        published, whatever else is in flight.  With nothing in flight it is refused exactly when the queue holds nothing. */
    method TryPop(ghost t: nat, weak: nat) returns (result: Option<T>)
      requires Valid() && t < |Now().threads| && Now().threads[t].pc.Idle?
      modifies this, cells
      ensures Valid()
      ensures old(Contents()) == (if result.Some? then [result.value] else []) + Contents()
      ensures result.None? <==> !R.Published(old(Now()), old(dequeuePos))
      ensures old(R.Quiet(Now())) ==> (result.None? <==> |old(Contents())| == 0)
      ensures old(R.Quiet(Now())) ==> R.Quiet(Now())
      ensures |Now().threads| == |old(Now()).threads|
      ensures Now().threads == old(Now()).threads[t := Now().threads[t]] && Now().threads[t].pc.Idle?
    {
      ghost var s := Now();
      R.QuietTestsAreExact(s);
      R.EmptyIffUnpublished(s);
      var pos := dequeuePos;
      Take(P.BeginPop(t));
      result := PopFrom(t, pos, weak);
    }

    method Empty(ghost t: nat) returns (empty: bool)
      requires Valid() && t < |Now().threads| && Now().threads[t].pc.Idle?
      modifies this`run
      ensures Valid() && OnlyMoved(old(Now()), t)
      ensures empty <==> Contents() == []
    {
      var dequeue := dequeuePos;
      Take(P.BeginSize(t));
      var enqueue := enqueuePos;
      Take(P.EndSize(t));
      empty := dequeue >= enqueue;
    }

    method Size(ghost t: nat) returns (size: nat)
      requires Valid() && t < |Now().threads| && Now().threads[t].pc.Idle?
      modifies this`run
      ensures Valid() && OnlyMoved(old(Now()), t)
      ensures size == |Contents()|
    {
      var dequeue := dequeuePos;
      Take(P.BeginSize(t));
      var enqueue := enqueuePos;
      Take(P.EndSize(t));
      size := R.SizeResult(enqueue, dequeue);
    }
  }
}
