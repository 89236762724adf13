/** `ThreadPool` of src/lib.rs as an object that changes in place: the worker
    array, the channel's queue and the log of executed jobs are fields, and
    every method is proved against the state machine of module PoolSpec. */
module Pool {
  import opened PoolSpec

  class ThreadPool {
    /** `workers: Vec<Worker>`. The array never changes, so neither does the
        number of workers. */
    const workers: array<Worker>
    /** The messages sent on the channel and not yet received. */
    var queue: seq<Message>
    /** The jobs received so far (each runs as it is received), in the order
        their messages were received. */
    var executed: seq<JobId>
    /** Every message ever sent. */
    ghost var sent: seq<Message>
    /** Every receive so far: which worker took which message. */
    ghost var consumed: seq<Delivery>

    ghost function Abstract(): State
      reads this, workers
    {
      State(workers[..], queue, sent, consumed, executed)
    }

    ghost predicate Valid()
      reads this, workers
    {
      Inv(Abstract())
    }

    /** The successful path of `new`: spawn `size` workers in order. */
    constructor Spawned(size: nat)
      requires size >= 1
      ensures fresh(workers)
      ensures Valid() && Serving(Abstract())
      ensures Create(size).Ok? && Abstract() == Create(size).value
    {
      var ws := new Worker[size];
      for i := 0 to size
        invariant forall j | 0 <= j < i :: ws[j] == Spawn(j)
      {
        ws[i] := Spawn(i);
      }
      workers := ws;
      queue, executed := [], [];
      sent, consumed := [], [];
      new;
      assert workers[..] == Create(size).value.workers;
    }

    /** `ThreadPool::new(size)`: an error for size 0, otherwise `size`
        running workers named `worker-0` to `worker-(size-1)`, each holding
        its thread handle, and an empty channel. */
    static method New(size: nat) returns (r: Result<ThreadPool, PoolCreationError>)
      ensures r.Err? <==> size == 0
      ensures r.Ok? ==> fresh(r.value) && fresh(r.value.workers)
      ensures r.Ok? ==> r.value.Valid() && Serving(r.value.Abstract())
      ensures r.Ok? ==> r.value.Abstract() == Create(size).value
    {
      if size == 0 {
        return Err(PoolCreationError);
      }
      var pool := new ThreadPool.Spawned(size);
      return Ok(pool);
    }

    /** `self.sender.send(m)`: `m` joins the back of the queue. */
    method Send(m: Message)
      requires Valid()
      modifies this
      ensures Valid()
      ensures Abstract() == SendAll(old(Abstract()), [m])
    {
      queue := queue + [m];
      sent := sent + [m];
    }

    /** `ThreadPool::execute`: queue one job. */
    method Execute(job: JobId)
      requires Valid()
      modifies this
      ensures Valid()
      ensures Abstract() == PoolSpec.Execute(old(Abstract()), job)
      ensures queue == old(queue) + [NewJob(job)]
      ensures Serving(old(Abstract())) ==> Serving(Abstract())
    {
      Send(NewJob(job));
    }

    /** One pass of the run loop of worker `w` (src/lib.rs:35-47). */
    method WorkerStep(w: nat)
      requires Valid() && w < workers.Length
      modifies this, workers
      ensures Valid()
      ensures Abstract() == Step(old(Abstract()), w)
    {
      if workers[w].running && queue != [] {
        var msg := queue[0];
        queue := queue[1..];
        consumed := consumed + [Delivery(w, msg)];
        match msg {
          case NewJob(job) =>
            executed := executed + [job];
          case Terminate =>
            workers[w] := workers[w].(running := false);
        }
      }
      StepPreservesInv(old(Abstract()), w);
    }

    /** The run loop of worker `w` with no other worker scheduled: it stops
        on a Terminate or blocks once the queue is empty. */
    method Serve(w: nat)
      requires Valid() && w < workers.Length
      modifies this, workers
      ensures Valid()
      ensures Abstract() == ServeAlone(old(Abstract()), w)
    {
      while workers[w].running && queue != []
        invariant Valid()
        invariant ServeAlone(Abstract(), w) == ServeAlone(old(Abstract()), w)
        decreases |queue|
      {
        WorkerStep(w);
      }
    }

    /** `worker.thread.take()`: the handle of worker `i` is gone afterwards,
        and the method says whether there was one. Nothing else changes. */
    method TakeHandle(i: nat) returns (handle: bool)
      requires Valid() && i < workers.Length
      modifies workers
      ensures Valid()
      ensures handle == old(workers[i].hasThread)
      ensures workers[..] == old(workers[..])[i := old(workers[i]).(hasThread := false)]
      ensures RunningCount(workers[..]) == old(RunningCount(workers[..]))
    {
      handle := workers[i].hasThread;
      RunningCountUpdate(workers[..], i, workers[i].(hasThread := false));
      workers[i] := workers[i].(hasThread := false);
    }

    /** One step of a running worker `w` during shutdown, with a message
        queued: the queue shrinks and the draining shape is kept. */
    method DrainStep(w: nat, ghost base: seq<JobId>, ghost js: seq<JobId>, ghost unsent: nat)
      requires Valid() && Draining(Abstract(), base, js, unsent)
      requires w < workers.Length && workers[w].running && queue != []
      modifies this, workers
      ensures Valid() && Draining(Abstract(), base, js, unsent)
      ensures |queue| < old(|queue|)
      ensures forall j | 0 <= j < workers.Length :: workers[j].hasThread == old(workers[j].hasThread)
      ensures forall j | 0 <= j < workers.Length && !old(workers[j].running) :: !workers[j].running
      ensures sent == old(sent)
    {
      ghost var before := Abstract();
      WorkerStep(w);
      StepKeepsDraining(before, base, js, unsent, w);
    }

    /** `thread.join()` on worker `i`: wait until it stops, while whichever
        running workers the scheduler picks take messages. The wait ends only
        because a Terminate is queued for every running worker (`Draining`). */
    method AwaitStop(i: nat, ghost base: seq<JobId>, ghost js: seq<JobId>)
      requires Valid() && i < workers.Length && Draining(Abstract(), base, js, 0)
      modifies this, workers
      ensures Valid() && Draining(Abstract(), base, js, 0)
      ensures !workers[i].running
      ensures forall j | 0 <= j < workers.Length :: workers[j].hasThread == old(workers[j].hasThread)
      ensures forall j | 0 <= j < workers.Length && !old(workers[j].running) :: !workers[j].running
      ensures sent == old(sent)
    {
      while workers[i].running
        invariant Valid() && Draining(Abstract(), base, js, 0)
        invariant forall j | 0 <= j < workers.Length :: workers[j].hasThread == old(workers[j].hasThread)
        invariant forall j | 0 <= j < workers.Length && !old(workers[j].running) :: !workers[j].running
        invariant sent == old(sent)
        decreases |queue|
      {
        var w :| 0 <= w < workers.Length && workers[w].running;
        DrainingMakesProgress(Abstract(), base, js, 0);
        DrainStep(w, base, js, 0);
      }
    }

    /** The join of worker `i` in `drop`: take its handle and, if there was
        one, wait for the worker to stop. A worker whose handle is already
        gone is left as it is. */
    method Join(i: nat, ghost base: seq<JobId>, ghost js: seq<JobId>)
      requires Valid() && i < workers.Length && Draining(Abstract(), base, js, 0)
      modifies this, workers
      ensures Valid() && Draining(Abstract(), base, js, 0)
      ensures !workers[i].hasThread
      ensures old(workers[i].hasThread) ==> !workers[i].running
      ensures !old(workers[i].hasThread) ==> Abstract() == old(Abstract())
      ensures forall j | 0 <= j < workers.Length && j != i :: workers[j].hasThread == old(workers[j].hasThread)
      ensures forall j | 0 <= j < workers.Length && !old(workers[j].running) :: !workers[j].running
      ensures sent == old(sent)
    {
      var handle := TakeHandle(i);
      if handle {
        AwaitStop(i, base, js);
      } else {
        assert workers[..] == old(workers[..]);
      }
    }

    /** While `drop` is still sending Terminates, the workers keep running:
        whichever running workers the scheduler picks take messages, for as
        many steps as it likes, and never block anything the shutdown needs. */
    method LetWorkersRun(ghost base: seq<JobId>, ghost js: seq<JobId>, ghost unsent: nat)
      requires Valid() && Draining(Abstract(), base, js, unsent)
      modifies this, workers
      ensures Valid() && Draining(Abstract(), base, js, unsent)
      ensures forall j | 0 <= j < workers.Length :: workers[j].hasThread == old(workers[j].hasThread)
      ensures sent == old(sent)
    {
      var more: bool :| true;
      while more && queue != []
        invariant Valid() && Draining(Abstract(), base, js, unsent)
        invariant forall j | 0 <= j < workers.Length :: workers[j].hasThread == old(workers[j].hasThread)
        invariant sent == old(sent)
        decreases |queue|
      {
        DrainingMakesProgress(Abstract(), base, js, unsent);
        var w :| 0 <= w < workers.Length && workers[w].running;
        DrainStep(w, base, js, unsent);
        more :| true;
      }
    }

    /** One round of the first loop of `drop`: the workers the scheduler
        picks take messages, and then one more Terminate is sent. */
    method SendTerminate(ghost base: seq<JobId>, ghost js: seq<JobId>, ghost unsent: nat)
      requires Valid() && Draining(Abstract(), base, js, unsent + 1)
      modifies this, workers
      ensures Valid() && Draining(Abstract(), base, js, unsent)
      ensures forall j | 0 <= j < workers.Length :: workers[j].hasThread == old(workers[j].hasThread)
      ensures sent == old(sent) + [Terminate]
    {
      LetWorkersRun(base, js, unsent + 1);
      ghost var before := Abstract();
      Send(Terminate);
      SendTerminateKeepsDraining(before, base, js, unsent);
    }

    /** The first loop of `drop`: one Terminate per worker, while the workers
        go on taking messages between the sends. */
    method SignalEveryWorker(ghost base: seq<JobId>, ghost js: seq<JobId>)
      requires Valid() && Draining(Abstract(), base, js, workers.Length)
      requires forall j | 0 <= j < workers.Length :: workers[j].hasThread
      modifies this, workers
      ensures Valid() && Draining(Abstract(), base, js, 0)
      ensures forall j | 0 <= j < workers.Length :: workers[j].hasThread
      ensures sent == old(sent) + Terms(workers.Length)
    {
      ghost var n := workers.Length;
      for i := 0 to workers.Length
        invariant Valid() && Draining(Abstract(), base, js, n - i)
        invariant forall j | 0 <= j < n :: workers[j].hasThread
        invariant sent == old(sent) + Terms(i)
      {
        SendTerminate(base, js, n - i - 1);
        TermsSnoc(i);
      }
    }

    /** The second loop of `drop`: join the workers in order. */
    method JoinEveryWorker(ghost base: seq<JobId>, ghost js: seq<JobId>)
      requires Valid() && Draining(Abstract(), base, js, 0)
      requires forall j | 0 <= j < workers.Length :: workers[j].hasThread
      modifies this, workers
      ensures Valid() && Draining(Abstract(), base, js, 0)
      ensures forall j | 0 <= j < workers.Length :: !workers[j].running && !workers[j].hasThread
      ensures sent == old(sent)
    {
      for i := 0 to workers.Length
        invariant Valid() && Draining(Abstract(), base, js, 0)
        invariant forall j | 0 <= j < i :: !workers[j].running && !workers[j].hasThread
        invariant forall j | i <= j < workers.Length :: workers[j].hasThread
        invariant sent == old(sent)
      {
        Join(i, base, js);
      }
    }

    /** `Drop for ThreadPool`: send one Terminate per worker, while the
        workers go on taking messages, and only then join every worker in
        order. Every job queued before `drop` is received exactly once, in
        submission order, every worker stops, every handle is taken. */
    method Drop()
      requires Valid() && Serving(Abstract())
      modifies this, workers
      ensures Valid()
      ensures forall i | 0 <= i < workers.Length ::
                !workers[i].running && !workers[i].hasThread && workers[i].id == old(workers[i].id)
      ensures queue == []
      ensures sent == old(sent) + Terms(workers.Length)
      ensures executed == old(executed) + JobsOf(old(queue))
    {
      ghost var start := Abstract();
      ghost var js := JobsOf(start.queue);
      ShutdownBegins(start);
      SignalEveryWorker(start.executed, js);
      JoinEveryWorker(start.executed, js);
      RunningCountZero(workers[..]);
      DrainingDone(Abstract(), start.executed, js);
    }
  }

  /** `main` of src/bin/main.rs with the network taken out: a pool of four
      workers, one job per accepted connection for the two connections it
      takes (job k serves connection k), with a worker receiving job 0 while
      the second connection is awaited, then the pool is dropped as `main`
      returns. The drop returns only after every worker stopped and its
      handle was taken, and both jobs were received once each, in the order
      they were submitted. */
  method ServeTwoConnections() returns (pool: ThreadPool, log: seq<JobId>)
    ensures pool.workers.Length == 4
    ensures forall i | 0 <= i < pool.workers.Length :: !pool.workers[i].running && !pool.workers[i].hasThread
    ensures pool.queue == []
    ensures log == pool.executed == [0, 1]
  {
    var r := ThreadPool.New(4);
    pool := r.value;
    pool.Execute(0);
    // The workers run while `main` waits for the next connection: whichever
    // worker the scheduler picks receives job 0.
    var w :| 0 <= w < pool.workers.Length;
    ghost var before := pool.Abstract();
    pool.WorkerStep(w);
    StepPreservesServing(before, w);
    assert pool.queue == [] && pool.executed == [0];
    pool.Execute(1);
    assert pool.queue == Jobs([1]);
    JobsOfJobs([1]);
    pool.Drop();
    log := pool.executed;
  }
}
