/** The single-worker executor as an interleaving: a mutex, a condition variable, one worker and any
    number of client threads calling `post` and `stop`. */
module ExecutorProtocol {

  /** Where a client is.  `Pushed` and `StopSet` still hold the mutex; `PostNotify` and `StopNotify`
      have released it and have yet to notify. */
  datatype Client<T> =
    | Outside
    | PostLocked(task: T)
    | Pushed
    | PostNotify
    | StopLocked
    | StopSet
    | StopNotify
    | Joining

  /** Where the worker is inside `run`. */
  datatype Worker<T> =
    | Starting          // about to lock the mutex
    | Checking          // holds it, about to evaluate the wait predicate
    | Waiting           // blocked on the condition variable, mutex released
    | Woken             // notified (or woken spuriously), about to lock the mutex again
    | Admitted          // holds it, the predicate was true
    | Holding(task: T)  // holds it, task taken from the queue
    | Running(task: T)  // mutex released
    | Done

  datatype Owner = Nobody | TheWorker | AClient(t: nat)

  /** `accepted` and `executed` are histories: the tasks queued and the tasks finished, in order. */
  datatype State<T> = State(
    mutex: Owner, tasks: seq<T>, stopping: bool, worker: Worker<T>, clients: seq<Client<T>>,
    accepted: seq<T>, executed: seq<T>)

  datatype Action<T> =
    | LockForPost(t: nat, task: T) | Push(t: nat) | UnlockPost(t: nat) | NotifyOne(t: nat)
    | LockForStop(t: nat) | SetStopping(t: nat) | UnlockStop(t: nat) | NotifyAll(t: nat) | Join(t: nat)
    | WorkerLock | WorkerCheck | SpuriousWake | WorkerTake | WorkerUnlock | WorkerRun

  predicate ByClient<T>(a: Action<T>) {
    a.LockForPost? || a.Push? || a.UnlockPost? || a.NotifyOne? || a.LockForStop? || a.SetStopping?
    || a.UnlockStop? || a.NotifyAll? || a.Join?
  }

  ghost predicate Enabled<T>(s: State<T>, a: Action<T>) {
    && (ByClient(a) ==> a.t < |s.clients|)
    && match a
       case LockForPost(t, _) => s.clients[t].Outside? && s.mutex.Nobody?
       case Push(t) => s.clients[t].PostLocked?
       case UnlockPost(t) => s.clients[t].Pushed?
       case NotifyOne(t) => s.clients[t].PostNotify?
       case LockForStop(t) => s.clients[t].Outside? && s.mutex.Nobody?
       case SetStopping(t) => s.clients[t].StopLocked?
       case UnlockStop(t) => s.clients[t].StopSet?
       case NotifyAll(t) => s.clients[t].StopNotify?
       case Join(t) => s.clients[t].Joining? && s.worker.Done?
       case WorkerLock => (s.worker.Starting? || s.worker.Woken?) && s.mutex.Nobody?
       case WorkerCheck => s.worker.Checking?
       case SpuriousWake => s.worker.Waiting?
       case WorkerTake => s.worker.Admitted?
       case WorkerUnlock => s.worker.Holding?
       case WorkerRun => s.worker.Running?
  }

  ghost function WakeUp<T>(w: Worker<T>): Worker<T> {
    if w.Waiting? then Woken else w
  }

  ghost function Apply<T>(s: State<T>, a: Action<T>): State<T>
    requires Enabled(s, a)
  {
    match a
    case LockForPost(t, task) => s.(mutex := AClient(t), clients := s.clients[t := PostLocked(task)])
    case Push(t) =>
      if s.stopping then s.(mutex := Nobody, clients := s.clients[t := Outside])
      else s.(tasks := s.tasks + [s.clients[t].task], accepted := s.accepted + [s.clients[t].task],
              clients := s.clients[t := Pushed])
    case UnlockPost(t) => s.(mutex := Nobody, clients := s.clients[t := PostNotify])
    case NotifyOne(t) => s.(worker := WakeUp(s.worker), clients := s.clients[t := Outside])
    case LockForStop(t) => s.(mutex := AClient(t), clients := s.clients[t := StopLocked])
    case SetStopping(t) =>
      if s.stopping then s.(mutex := Nobody, clients := s.clients[t := Outside])
      else s.(stopping := true, clients := s.clients[t := StopSet])
    case UnlockStop(t) => s.(mutex := Nobody, clients := s.clients[t := StopNotify])
    case NotifyAll(t) => s.(worker := WakeUp(s.worker), clients := s.clients[t := Joining])
    case Join(t) => s.(clients := s.clients[t := Outside])
    case WorkerLock => s.(mutex := TheWorker, worker := Checking)
    case WorkerCheck =>
      if s.stopping || |s.tasks| > 0 then s.(worker := Admitted)
      else s.(mutex := Nobody, worker := Waiting)
    case SpuriousWake => s.(worker := Woken)
    case WorkerTake =>
      if |s.tasks| == 0 then s.(mutex := Nobody, worker := Done)
      else s.(worker := Holding(s.tasks[0]), tasks := s.tasks[1..])
    case WorkerUnlock => s.(mutex := Nobody, worker := Running(s.worker.task))
    case WorkerRun => s.(worker := Starting, executed := s.executed + [s.worker.task])
  }

  ghost predicate Init<T>(s: State<T>) {
    && s.mutex.Nobody? && s.tasks == [] && !s.stopping && s.worker.Starting?
    && (forall t | 0 <= t < |s.clients| :: s.clients[t].Outside?)
    && s.accepted == [] && s.executed == []
  }

  // ---------------------------------------------------------------- the invariant

  ghost predicate HoldsMutex<T>(c: Client<T>) {
    c.PostLocked? || c.Pushed? || c.StopLocked? || c.StopSet?
  }

  ghost predicate MutexOk<T>(s: State<T>) {
    && (s.mutex.TheWorker? <==> s.worker.Checking? || s.worker.Admitted? || s.worker.Holding?)
    && (forall t | 0 <= t < |s.clients| :: HoldsMutex(s.clients[t]) <==> s.mutex == AClient(t))
    && (s.mutex.AClient? ==> s.mutex.t < |s.clients|)
  }

  /** A client that has given the worker something to do and has not notified it yet. */
  ghost predicate OwesNotice<T>(s: State<T>, t: nat) {
    t < |s.clients|
    && (s.clients[t].Pushed? || s.clients[t].PostNotify? || s.clients[t].StopSet? || s.clients[t].StopNotify?)
  }

  /** No lost wakeup: a worker blocked although there is something to do is about to be notified. */
  ghost predicate NoticeOk<T>(s: State<T>) {
    s.worker.Waiting? && (s.stopping || |s.tasks| > 0) ==> exists t :: OwesNotice(s, t)
  }

  ghost function InHand<T>(w: Worker<T>): seq<T> {
    if w.Holding? || w.Running? then [w.task] else []
  }

  ghost predicate OrderOk<T>(s: State<T>) {
    s.accepted == s.executed + InHand(s.worker) + s.tasks
  }

  ghost predicate StopOk<T>(s: State<T>) {
    && (s.worker.Done? ==> s.stopping && s.tasks == [])
    && (s.worker.Admitted? ==> s.stopping || |s.tasks| > 0)
    && (forall t | 0 <= t < |s.clients| ::
          s.clients[t].StopSet? || s.clients[t].StopNotify? || s.clients[t].Joining? ==> s.stopping)
  }

  ghost predicate Inv<T>(s: State<T>) {
    MutexOk(s) && NoticeOk(s) && OrderOk(s) && StopOk(s)
  }

  lemma StepKeepsMutex<T>(s: State<T>, a: Action<T>)
    requires MutexOk(s) && Enabled(s, a)
    ensures MutexOk(Apply(s, a))
  {
  }

  lemma StepKeepsStop<T>(s: State<T>, a: Action<T>)
    requires MutexOk(s) && StopOk(s) && Enabled(s, a)
    ensures StopOk(Apply(s, a))
  {
    if ByClient(a) && s.worker.Admitted? {
      assert !HoldsMutex(s.clients[a.t]);
    }
  }

  lemma StepKeepsOrder<T>(s: State<T>, a: Action<T>)
    requires StopOk(s) && OrderOk(s) && Enabled(s, a)
    ensures OrderOk(Apply(s, a))
  {
    if a.WorkerTake? && |s.tasks| > 0 {
      assert s.tasks == [s.tasks[0]] + s.tasks[1..];
    } else if a.Push? && !s.stopping {
      var task := s.clients[a.t].task;
      assert s.executed + InHand(s.worker) + s.tasks + [task] == s.executed + InHand(s.worker) + (s.tasks + [task]);
    }
  }

  lemma StepKeepsNotice<T>(s: State<T>, a: Action<T>)
    requires Inv(s) && Enabled(s, a)
    ensures NoticeOk(Apply(s, a))
  {
    var s' := Apply(s, a);
    if s'.worker.Waiting? && (s'.stopping || |s'.tasks| > 0) {
      if a.Push? || a.SetStopping? || a.UnlockPost? || a.UnlockStop? {
        if s.stopping || |s.tasks| > 0 {
          var t :| OwesNotice(s, t);
          assert OwesNotice(s', t) || OwesNotice(s', a.t);
        } else {
          assert OwesNotice(s', a.t);
        }
      } else {
        var t :| OwesNotice(s, t);
        assert OwesNotice(s', t);
      }
    }
  }

  lemma StepKeepsInv<T>(s: State<T>, a: Action<T>)
    requires Inv(s) && Enabled(s, a)
    ensures Inv(Apply(s, a))
  {
    StepKeepsMutex(s, a);
    StepKeepsStop(s, a);
    StepKeepsOrder(s, a);
    StepKeepsNotice(s, a);
  }

  // ---------------------------------------------------------------- runs

  /** A run: an initial state and the steps taken since, latest outermost. */
  datatype Run<T> = Start(s: State<T>) | Then(earlier: Run<T>, a: Action<T>)

  ghost function Final<T>(r: Run<T>): State<T>
    requires Legal(r)
    decreases r, 1
  {
    match r
    case Start(s) => s
    case Then(earlier, a) => Apply(Final(earlier), a)
  }

  ghost predicate Legal<T>(r: Run<T>)
    decreases r, 0
  {
    match r
    case Start(s) => Init(s)
    case Then(earlier, a) => Legal(earlier) && Enabled(Final(earlier), a)
  }

  lemma {:induction false} RunKeepsInv<T>(r: Run<T>)
    requires Legal(r)
    ensures Inv(Final(r))
  {
    match r
    case Start(_) =>
    case Then(earlier, a) =>
      RunKeepsInv(earlier);
      StepKeepsInv(Final(earlier), a);
  }

  /** Executed tasks are a prefix of accepted tasks, in acceptance order. */
  lemma ExecutedIsAPrefix<T>(r: Run<T>)
    requires Legal(r)
    ensures Final(r).executed <= Final(r).accepted
  {
    RunKeepsInv(r);
    var s := Final(r);
    assert s.accepted == s.executed + (InHand(s.worker) + s.tasks);
  }

  /** Whenever the worker is blocked although there is work or a stop request, some client is on its
      way to the notify that wakes it. */
  lemma NoLostWakeup<T>(r: Run<T>)
    requires Legal(r) && Final(r).worker.Waiting? && (Final(r).stopping || |Final(r).tasks| > 0)
    ensures exists t :: OwesNotice(Final(r), t)
  {
    RunKeepsInv(r);
  }

  /** When the `stop` call that set the flag returns from its join, everything accepted has run. */
  lemma StopDrains<T>(r: Run<T>, t: nat)
    requires Legal(r) && Enabled(Final(r), Join(t))
    ensures Final(r).executed == Final(r).accepted
  {
    RunKeepsInv(r);
    var s := Final(r);
    assert s.executed + [] + [] == s.executed;
  }

  /** A `stop` that finds the flag already set returns at once.  Everything accepted has then run if
      and only if no task is queued and the worker has none in hand. */
  lemma LaterStopDrainsIff<T>(r: Run<T>, t: nat)
    requires Legal(r) && Enabled(Final(r), SetStopping(t)) && Final(r).stopping
    ensures var s, s' := Final(r), Apply(Final(r), SetStopping(t));
      && s'.clients[t].Outside? && s'.accepted == s.accepted && s'.executed == s.executed
      && (s'.executed == s'.accepted <==> s.tasks == [] && !s.worker.Holding? && !s.worker.Running?)
  {
    RunKeepsInv(r);
    var s := Final(r);
    assert |s.accepted| == |s.executed| + |InHand(s.worker)| + |s.tasks|;
    if s.tasks == [] && InHand(s.worker) == [] {
      assert s.executed + [] + [] == s.executed;
    }
  }

  lemma OneMoreStep<T>(r: Run<T>, a: Action<T>)
    requires Legal(r) && Enabled(Final(r), a)
    ensures Legal(Then(r, a)) && Final(Then(r, a)) == Apply(Final(r), a)
  {
  }

  /** Client 0 posts `x`. */
  ghost function Posted<T>(r: Run<T>, x: T): Run<T> {
    Then(Then(Then(Then(r, LockForPost(0, x)), Push(0)), UnlockPost(0)), NotifyOne(0))
  }

  /** Client 0 sets the flag, and client 1 comes to look at it. */
  ghost function StoppedTwice<T>(r: Run<T>): Run<T> {
    Then(Then(Then(Then(r, LockForStop(0)), SetStopping(0)), UnlockStop(0)), LockForStop(1))
  }

  lemma PostingRuns<T>(r: Run<T>, x: T)
    requires Legal(r) && Final(r) == State(Nobody, [], false, Starting, [Outside, Outside], [], [])
    ensures Legal(Posted(r, x))
    ensures Final(Posted(r, x)) == State(Nobody, [x], false, Starting, [Outside, Outside], [x], [])
  {
    var r1 := Then(r, LockForPost(0, x));
    OneMoreStep(r, LockForPost(0, x));
    var r2 := Then(r1, Push(0));
    OneMoreStep(r1, Push(0));
    assert [] + [x] == [x];
    var r3 := Then(r2, UnlockPost(0));
    OneMoreStep(r2, UnlockPost(0));
    OneMoreStep(r3, NotifyOne(0));
  }

  lemma StoppingRuns<T>(r: Run<T>, x: T)
    requires Legal(r) && Final(r) == State(Nobody, [x], false, Starting, [Outside, Outside], [x], [])
    ensures Legal(StoppedTwice(r))
    ensures Final(StoppedTwice(r)) == State(AClient(1), [x], true, Starting, [StopNotify, StopLocked], [x], [])
  {
    var r1 := Then(r, LockForStop(0));
    OneMoreStep(r, LockForStop(0));
    var r2 := Then(r1, SetStopping(0));
    OneMoreStep(r1, SetStopping(0));
    var r3 := Then(r2, UnlockStop(0));
    OneMoreStep(r2, UnlockStop(0));
    OneMoreStep(r3, LockForStop(1));
  }

  /** A second `stop` that returns although a task accepted earlier has not run. */
  lemma SecondStopReturnsEarly<T>(x: T)
    ensures
      var start := Start(State(Nobody, [], false, Starting, [Outside, Outside], [], []));
      var r := Then(StoppedTwice(Posted(start, x)), SetStopping(1));
      && Legal(r) && Final(r).clients[1].Outside?
      && Final(r).accepted == [x] && Final(r).executed == []
  {
    var start := Start(State(Nobody, [], false, Starting, [Outside, Outside], [], []));
    PostingRuns(start, x);
    StoppingRuns(Posted(start, x), x);
    OneMoreStep(StoppedTwice(Posted(start, x)), SetStopping(1));
  }

  /** How many steps of its own the worker still has before it is done, once stopping is set. */
  ghost function WorkerStepsLeft<T>(s: State<T>): nat {
    var perTask := 5 * |s.tasks|;
    match s.worker
    case Done => 0
    case Admitted => perTask + 1
    case Checking => perTask + 2
    case Starting => perTask + 3
    case Woken => perTask + 3
    case Waiting => perTask + 4
    case Running(_) => perTask + 4
    case Holding(_) => perTask + 5
  }

  lemma StoppingStepDrains<T>(s: State<T>, a: Action<T>)
    requires Enabled(s, a) && s.stopping
    ensures Apply(s, a).stopping && Apply(s, a).accepted == s.accepted
    ensures WorkerStepsLeft(Apply(s, a)) + (if ByClient(a) then 0 else 1) <= WorkerStepsLeft(s)
  {
  }

  /** `m` is the run at some moment up to now. */
  ghost predicate Earlier<T>(m: Run<T>, r: Run<T>) {
    m == r || (r.Then? && Earlier(m, r.earlier))
  }

  /** The steps the worker has taken since then. */
  ghost function WorkerStepsSince<T>(m: Run<T>, r: Run<T>): nat
    requires Earlier(m, r)
  {
    if m == r then 0 else WorkerStepsSince(m, r.earlier) + if ByClient(r.a) then 0 else 1
  }

  /** The drain is bounded: from any moment at which stopping is set, whatever the clients do, nothing
      more is accepted and the worker takes no more steps than five for each queued task and five over
      before it is done. */
  lemma {:induction false} DrainIsBounded<T>(m: Run<T>, r: Run<T>)
    requires Legal(r) && Earlier(m, r)
    ensures Legal(m)
    ensures Final(m).stopping ==>
      && Final(r).stopping && Final(r).accepted == Final(m).accepted
      && WorkerStepsSince(m, r) + WorkerStepsLeft(Final(r)) <= WorkerStepsLeft(Final(m))
      && WorkerStepsLeft(Final(m)) <= 5 * |Final(m).tasks| + 5
    ensures WorkerStepsLeft(Final(r)) == 0 <==> Final(r).worker.Done?
  {
    if m != r {
      DrainIsBounded(m, r.earlier);
      if Final(m).stopping {
        StoppingStepDrains(Final(r.earlier), r.a);
      }
    }
  }

  /** A step that is neither the start of a new call, nor a spurious wake-up, nor a join. */
  ghost predicate Progresses<T>(s: State<T>, a: Action<T>) {
    Enabled(s, a) && !a.LockForPost? && !a.LockForStop? && !a.SpuriousWake? && !a.Join?
  }

  lemma ClientCanMove<T>(s: State<T>, t: nat)
    requires t < |s.clients| && !s.clients[t].Outside? && !s.clients[t].Joining?
    ensures exists a: Action<T> :: Progresses(s, a)
  {
    match s.clients[t]
    case PostLocked(_) => assert Progresses(s, Push(t));
    case Pushed => assert Progresses(s, UnlockPost(t));
    case PostNotify => assert Progresses(s, NotifyOne(t));
    case StopLocked => assert Progresses(s, SetStopping(t));
    case StopSet => assert Progresses(s, UnlockStop(t));
    case StopNotify => assert Progresses(s, NotifyAll(t));
  }

  /** No deadlock: while there is something to do and the worker has not finished, the worker can
      move, or a client inside its own call that the worker depends on can. */
  lemma SomeoneCanMove<T>(r: Run<T>)
    requires Legal(r) && (Final(r).stopping || |Final(r).tasks| > 0) && !Final(r).worker.Done?
    ensures exists a: Action<T> :: Progresses(Final(r), a)
  {
    RunKeepsInv(r);
    var s := Final(r);
    match s.worker
    case Waiting =>
      var t :| OwesNotice(s, t);
      ClientCanMove(s, t);
    case Starting =>
      if s.mutex.AClient? { ClientCanMove(s, s.mutex.t); } else { assert Progresses(s, WorkerLock); }
    case Woken =>
      if s.mutex.AClient? { ClientCanMove(s, s.mutex.t); } else { assert Progresses(s, WorkerLock); }
    case Checking => assert Progresses(s, WorkerCheck);
    case Admitted => assert Progresses(s, WorkerTake);
    case Holding(_) => assert Progresses(s, WorkerUnlock);
    case Running(_) => assert Progresses(s, WorkerRun);
  }
}
