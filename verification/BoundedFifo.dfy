/** The sequential object every ring buffer is measured against: a queue of at most `bound` values. */
module BoundedFifo {

  datatype Option<+T> = None | Some(value: T)

  /** What one atomic step of a ring looks like from outside. */
  datatype Event<T> =
    | Silent
    | Pushed(v: T)      // a push that took effect
    | PushRefused       // a push that reported "full"
    | Popped(v: T)      // a pop that took effect
    | PopRefused        // a pop that reported "empty"

  ghost function Next<T>(bound: nat, q: seq<T>, e: Event<T>): Option<seq<T>> {
    match e
    case Silent => Some(q)
    case Pushed(v) => if |q| < bound then Some(q + [v]) else None
    case PushRefused => if |q| == bound then Some(q) else None
    case Popped(v) => if |q| > 0 && q[0] == v then Some(q[1..]) else None
    case PopRefused => if |q| == 0 then Some(q) else None
  }

  /** What an observer has seen so far, latest event outermost. */
  datatype History<T> = Empty | Snoc(earlier: History<T>, last: Event<T>)

  /** The queue after a history that starts empty, or None if the history is not one of a queue. */
  ghost function After<T>(bound: nat, h: History<T>): Option<seq<T>> {
    match h
    case Empty => Some([])
    case Snoc(earlier, e) =>
      match After(bound, earlier)
      case None => None
      case Some(q) => Next(bound, q, e)
  }

  /** The values that went in, in order. */
  ghost function Inputs<T>(h: History<T>): seq<T> {
    match h
    case Empty => []
    case Snoc(earlier, e) => Inputs(earlier) + (if e.Pushed? then [e.v] else [])
  }

  /** The values that came out, in order. */
  ghost function Outputs<T>(h: History<T>): seq<T> {
    match h
    case Empty => []
    case Snoc(earlier, e) => Outputs(earlier) + (if e.Popped? then [e.v] else [])
  }

  /** Conservation: whatever the history, outputs followed by the present contents are the inputs,
      and the bound holds. */
  lemma {:induction false} Conservation<T>(bound: nat, h: History<T>)
    requires After(bound, h).Some?
    ensures Inputs(h) == Outputs(h) + After(bound, h).value
    ensures |After(bound, h).value| <= bound
  {
    if h.Snoc? {
      Conservation(bound, h.earlier);
      var q := After(bound, h.earlier).value;
      if h.last.Popped? {
        assert q == [h.last.v] + q[1..];
      }
    }
  }
}
