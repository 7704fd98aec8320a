/** `Executor` in its own form: a task queue and a stop flag changed under the mutex.

    Each method performs the steps of the protocol; `run` records them.  `Run` is the worker's loop,
    followed until it blocks on the condition variable or returns; `inHand` is its local `task`, and
    `ran` the effect of the tasks. */
module TaskExecutor {
  import P = ExecutorProtocol

  class Executor<T> {
    var tasks: seq<T>
    var stopping: bool
    var inHand: seq<T>
    var ran: seq<T>
    ghost var run: P.Run<T>

    ghost predicate Valid()
      reads this
    {
      && P.Legal(run)
      && var s := P.Final(run);
         && s.tasks == tasks && s.stopping == stopping && s.executed == ran
         && P.InHand(s.worker) == inHand
    }

    ghost function Now(): P.State<T>
      reads this
      requires Valid()
    {
      P.Final(run)
    }

    ghost predicate CanCall(t: nat)
      reads this
      requires Valid()
    {
      t < |Now().clients| && Now().clients[t].Outside? && Now().mutex.Nobody?
    }

    /** The worker is about to lock the mutex. */
    ghost predicate AtLock()
      reads this
      requires Valid()
    {
      (Now().worker.Starting? || Now().worker.Woken?) && Now().mutex.Nobody?
    }

    constructor (ghost clientCount: nat)
      ensures Valid() && tasks == [] && !stopping && ran == [] && AtLock()
      ensures |Now().clients| == clientCount && forall t | 0 <= t < clientCount :: CanCall(t)
    {
      tasks, stopping, inHand, ran := [], false, [], [];
      new;
      run := P.Start(P.State(P.Nobody, [], false, P.Starting, seq(clientCount, _ => P.Outside), [], []));
    }

    ghost method Take(a: P.Action<T>)
      requires P.Legal(run) && P.Enabled(P.Final(run), a)
      modifies this`run
      ensures run == P.Then(old(run), a) && P.Legal(run)
      ensures P.Final(run) == P.Apply(P.Final(old(run)), a)
    {
      run := P.Then(run, a);
    }

    /** Queues the task and wakes a waiting worker, unless the executor is stopping. */
    method Post(ghost t: nat, task: T)
      requires Valid() && CanCall(t)
      modifies this
      ensures Valid() && CanCall(t) && |Now().clients| == |old(Now()).clients|
      ensures tasks == old(tasks) + (if stopping then [] else [task])
      ensures Now().accepted == old(Now()).accepted + (if stopping then [] else [task])
      ensures stopping == old(stopping) && ran == old(ran)
      ensures Now().worker == if stopping then old(Now()).worker else P.WakeUp(old(Now()).worker)
    {
      Take(P.LockForPost(t, task));
      Take(P.Push(t));
      if stopping {
        return;
      }
      tasks := tasks + [task];
      Take(P.UnlockPost(t));
      Take(P.NotifyOne(t));
    }

    /** The worker's loop.  It runs every queued task in order, and returns for good exactly when the
        executor is stopping; otherwise it blocks. */
    method Run() returns (finished: bool)
      requires Valid() && AtLock()
      modifies this
      ensures Valid() && tasks == [] && inHand == [] && ran == old(ran) + old(tasks)
      ensures finished == stopping == old(stopping)
      ensures Now().worker == if finished then P.Done else P.Waiting
      ensures Now().accepted == old(Now()).accepted
      ensures Now().clients == old(Now()).clients && Now().mutex.Nobody?
    {
      while true
        invariant Valid() && AtLock() && stopping == old(stopping)
        invariant ran + tasks == old(ran) + old(tasks)
        invariant Now().accepted == old(Now()).accepted && Now().clients == old(Now()).clients
        decreases |tasks|
      {
        var admitted := Wait();
        if !admitted {
          return false;
        }
        if stopping && |tasks| == 0 {
          Take(P.WorkerTake);
          return true;
        }
        RunFirst();
      }
    }

    /** The lock and the wait with its predicate: admitted with the mutex, or blocked without it. */
    method Wait() returns (admitted: bool)
      requires Valid() && AtLock()
      modifies this`run
      ensures Valid() && (admitted <==> stopping || |tasks| > 0)
      ensures Now() == old(Now()).(mutex := if admitted then P.TheWorker else P.Nobody,
                                   worker := if admitted then P.Admitted else P.Waiting)
    {
      Take(P.WorkerLock);
      Take(P.WorkerCheck);
      admitted := stopping || |tasks| > 0;
    }

    /** One task: out of the queue, mutex released, then run. */
    method RunFirst()
      requires Valid() && Now().worker.Admitted? && Now().mutex.TheWorker? && |tasks| > 0
      modifies this
      ensures Valid() && AtLock() && stopping == old(stopping)
      ensures tasks == old(tasks)[1..] && ran == old(ran) + [old(tasks)[0]]
      ensures Now().accepted == old(Now()).accepted && Now().clients == old(Now()).clients
    {
      inHand := [tasks[0]];
      tasks := tasks[1..];
      Take(P.WorkerTake);
      Take(P.WorkerUnlock);
      FinishTask();
    }

    /** The end of a task that is running. */
    method FinishTask()
      requires Valid() && Now().worker.Running?
      modifies this`inHand, this`ran, this`run
      ensures Valid() && Now().worker.Starting? && inHand == [] && ran == old(ran) + old(inHand)
      ensures Now() == old(Now()).(worker := Now().worker, executed := ran)
    {
      Take(P.WorkerRun);
      ran := ran + inHand;
      inHand := [];
    }

    /** The `stop` call that sets the flag waits for the worker, whatever it is doing; everything accepted
        has then run.  A later call returns at once, with tasks left over if the worker is not through. */
    method Stop(ghost t: nat)
      requires Valid() && CanCall(t)
      modifies this
      ensures Valid() && stopping && |Now().clients| == |old(Now()).clients|
      ensures Now().accepted == old(Now()).accepted
      ensures if old(stopping) then tasks == old(tasks) && ran == old(ran) && inHand == old(inHand)
              else tasks == [] && ran == Now().accepted && Now().worker.Done?
      ensures ran == Now().accepted <==> tasks == [] && inHand == []
    {
      P.RunKeepsInv(run);
      Take(P.LockForStop(t));
      Take(P.SetStopping(t));
      if stopping {
        return;
      }
      stopping := true;
      Take(P.UnlockStop(t));
      Take(P.NotifyAll(t));
      if inHand != [] {
        FinishTask();
      }
      ghost var finished := Run();
      P.StopDrains(run, t);
      Take(P.Join(t));
    }
  }
}
