/** The worker loop and the pool object over the queue and the tracker. A call of the pool is
    taken alone, but the workers run while it joins them; how calls interleave is the subject of
    PoolProtocol, whose runs the pool object follows step by step. */
module ThreadPools {
  import opened BoundedQueue
  import opened PoolProtocol
  import opened PoolDrain
  import opened Statistics

  /** A clock that never runs backwards. */
  class Clock {
    var time: int
    ghost var readings: seq<int>   // every time it has been read

    method Now() returns (t: int)
      modifies this
      ensures old(time) <= t == time
      ensures readings == old(readings) + [t]
    {
      var elapsed: nat :| true;
      time := time + elapsed;
      t := time;
      readings := readings + [t];
    }
  }

  /** The waits differ, the rest of the figures is the same. */
  predicate SameButWaits(s: Stats, s': Stats) {
    s' == s.(waitSamples := s'.waitSamples, averageWaitMs := s'.averageWaitMs)
  }

  class QueueWorker {
    const queue: ThreadSafeQueue<Task>
    const stats: StatsTracker
    ghost var executed: seq<Task>   // every task this worker has run
    var pc: Worker                  // where its thread is between two rounds
    var waitStart: int              // when the pending call of waitPop began
    var joinable: bool

    constructor (queue: ThreadSafeQueue<Task>, stats: StatsTracker)
      ensures this.queue == queue && this.stats == stats && executed == [] && pc == Ready && !joinable
    {
      this.queue := queue;
      this.stats := stats;
      executed := [];
      pc := Ready;
      waitStart := 0;
      joinable := false;
    }

    method Start()
      modifies this`joinable
      ensures joinable
    {
      joinable := true;
    }

    /** The run loop with nobody interfering, up to the point where the worker would sleep or
        leaves. It runs the queued tasks in order, all of them unless a pause or stopNow bars
        it, samples one wait per return of waitPop, and leaves exactly when a stop is set. */
    method Run(clock: Clock)
      requires queue.Abs().Valid() && stats.Valid()
      requires pc.Ready? || pc.Notified?
      modifies this, queue, stats, clock
      ensures queue.Abs().Valid() && stats.Valid()
      ensures var q := old(queue.Abs());
              var ran := if q.paused || q.stopNow then [] else q.tasks;
              && executed == old(executed) + ran
              && queue.Abs() == q.(tasks := q.tasks[|ran|..])
              && pc == (if q.Draining() then Exited else Blocked)
              && |stats.waits| == |old(stats.waits)| + |ran| + (if pc.Exited? then 1 else 0)
    {
      hide StatsTracker.Valid;
      ghost var q := queue.Abs();
      ghost var n := 0;
      while true
        invariant n <= |q.tasks|
        invariant n > 0 ==> !q.paused && !q.stopNow
        invariant queue.Abs() == q.(tasks := q.tasks[n..]) && q.Valid()
        invariant stats.Valid() && |stats.waits| == |old(stats.waits)| + n
        invariant executed == old(executed) + q.tasks[..n] && (pc.Ready? || pc.Notified?)
        decreases |queue.tasks|
      {
        var popResult := TakeTurn(clock);
        if !popResult.HasTask? {
          break;
        }
        n := n + 1;
      }
    }

    /** One round of the loop: wait, record the wait, then run the task or leave. A round that
        ends asleep is taken up again by the next one, and the wait counts from its beginning. */
    method TakeTurn(clock: Clock) returns (popResult: PopResult<Task>)
      requires queue.Abs().Valid() && stats.Valid()
      requires pc.Ready? || pc.Notified?
      modifies this`pc, this`executed, this`waitStart, queue, stats, clock
      ensures queue.Abs().Valid() && stats.Valid() && clock.time >= old(clock.time)
      ensures (queue.Abs(), popResult) == WaitPopSection(old(queue.Abs()))
      ensures executed == old(executed) + (if popResult.HasTask? then [popResult.task] else [])
      ensures pc == match popResult case Sleep => Blocked case NoTask(_) => Exited case HasTask(_, _) => Ready
      ensures clock.readings == old(clock.readings) +
                                (if old(pc).Ready? then [waitStart] else []) + (if popResult.Sleep? then [] else [clock.time])
      ensures old(pc).Notified? ==> waitStart == old(waitStart)
      ensures stats.waits == old(stats.waits) +
                             (if popResult.Sleep? then [] else [(clock.time - waitStart) as real / 1000000.0])
      ensures stats.intervals == old(stats.intervals) +
                                 (if popResult.HasTask? && popResult.sizeAfter < queue.capacityValue && old(stats.queueWasFull)
                                  then [Clamp(clock.time - old(stats.queueFullStart))] else [])
      ensures stats.stats.droppedTasks == old(stats.stats.droppedTasks)
      ensures stats.stats.createdThreads == old(stats.stats.createdThreads)
      ensures !old(stats.queueWasFull) ==> !stats.queueWasFull && SameButWaits(old(stats.stats), stats.stats)
    {
      hide StatsTracker.Valid, Queue.Valid, WaitPopSection, Clamp;
      if pc.Ready? {
        waitStart := clock.Now();
      }
      popResult := queue.WaitPop();
      if popResult.Sleep? {
        pc := Blocked;
        return;
      }
      var waitEnd := clock.Now();
      stats.RecordWaitTime((waitEnd - waitStart) as real / 1000000.0, 1);
      if popResult.NoTask? {
        pc := Exited;
        return;
      }
      stats.NoteQueueNotFullIfNeeded(popResult.sizeAfter, queue.capacityValue, waitEnd);
      executed := executed + [popResult.task];
      pc := Ready;
    }
  }

  // ---- calls and rounds as steps of the protocol ----

  /** A control call that ends with notify_all. */
  lemma CallThenNotify(s: Pool, e: Step)
    requires (e.ResumeCall? || e.StopGracefulCall? || e.StopNowCall?) && s.pendingAll == 0
    ensures Legal(s, [e, NotifyAll])
    ensures Exec(s, [e, NotifyAll]) == Next(s, e).(pendingAll := 0, workers := AllWoken(s.workers))
  {
    hide AllWoken;
    TwoSteps(s, e, NotifyAll);
    var called := Next(s, e);
    assert called.workers == s.workers && called.pendingAll == 1;
  }

  function EnqueueSteps(s: Pool, task: Task, woken: nat): seq<Step> {
    if s.q.Admits() then [Enqueue(task, woken)] else [Enqueue(task, woken), RecordDrop]
  }

  lemma EnqueueIsLegal(s: Pool, task: Task, woken: nat)
    requires Enabled(s, Enqueue(task, woken)) && s.pendingDrops == 0
    ensures Legal(s, EnqueueSteps(s, task, woken))
    ensures var s' := Exec(s, EnqueueSteps(s, task, woken));
            && s'.q == PushSection(s.q, task).0
            && s'.workers == (if s.q.Admits() && SomeBlocked(s.workers) then s.workers[woken := Notified] else s.workers)
            && s'.pendingAll == s.pendingAll && s'.pendingDrops == 0 && s'.waitSamples == s.waitSamples
            && s'.accepted == s.accepted + (if s.q.Admits() then [task] else [])
            && s'.dropped == s.dropped + (if s.q.Admits() then 0 else 1)
  {
    if s.q.Admits() {
      OneStep(s, Enqueue(task, woken));
    } else {
      TwoSteps(s, Enqueue(task, woken), RecordDrop);
    }
  }

  function TurnSteps(s: Pool, w: nat): seq<Step>
    requires Enabled(s, WaitPop(w))
  {
    match WaitPopSection(s.q).1
    case Sleep => [WaitPop(w)]
    case NoTask(_) => [WaitPop(w), RecordWait(w)]
    case HasTask(_, _) => [WaitPop(w), RecordWait(w), Finish(w)]
  }

  /** The pool after the round. */
  function AfterTurn(s: Pool, w: nat): Pool
    requires Enabled(s, WaitPop(w))
  {
    var (q', r) := WaitPopSection(s.q);
    match r
    case Sleep => s.(workers := s.workers[w := Blocked])
    case NoTask(_) => s.(workers := s.workers[w := Exited], waitSamples := s.waitSamples + 1)
    case HasTask(task, _) =>
      s.(q := q', workers := s.workers[w := Ready], waitSamples := s.waitSamples + 1,
         popped := s.popped + [task], executed := s.executed + [task])
  }

  lemma TurnIsLegal(s: Pool, w: nat)
    requires Enabled(s, WaitPop(w))
    ensures Legal(s, TurnSteps(s, w)) && Exec(s, TurnSteps(s, w)) == AfterTurn(s, w)
  {
    var run := TurnSteps(s, w);
    var s1 := Next(s, WaitPop(w));
    if WaitPopSection(s.q).1.Sleep? {
      OneStep(s, WaitPop(w));
    } else if WaitPopSection(s.q).1.NoTask? {
      TwoSteps(s, WaitPop(w), RecordWait(w));
      assert AfterTurn(s, w).workers == Next(s1, RecordWait(w)).workers;
    } else {
      TwoSteps(s1, RecordWait(w), Finish(w));
      assert run[1..] == [RecordWait(w), Finish(w)];
      assert AfterTurn(s, w).workers == Next(Next(s1, RecordWait(w)), Finish(w)).workers;
    }
  }

  /** While draining, a round brings the workers nearer to their exit and takes nothing in. */
  lemma TurnDrains(s: Pool, w: nat)
    requires Inv(s) && Draining(s) && Enabled(s, WaitPop(w))
    ensures Inv(AfterTurn(s, w)) && Draining(AfterTurn(s, w))
    ensures Measure(AfterTurn(s, w)) < Measure(s)
    ensures AfterTurn(s, w).accepted == s.accepted
  {
    hide Inv, Legal, Exec, Next, Measure, Draining;
    TurnIsLegal(s, w);
    var run := TurnSteps(s, w);
    RunKeepsInv(s, run);
    DrainBound(s, run);
    assert WorkerStep(run[0]);
  }

  /** Once notified, no worker of a draining pool sleeps. */
  lemma NobodySleeps(s: Pool)
    requires Inv(s) && Draining(s) && s.pendingAll == 0
    ensures forall w :: 0 <= w < |s.workers| ==> !s.workers[w].Blocked?
  {
  }

  /** Where a worker can be when it is not in the middle of a round. */
  predicate BetweenRounds(w: Worker) {
    w.Ready? || w.Blocked? || w.Notified? || w.Exited?
  }

  /** s comes from before by draining rounds: nothing is taken in or thrown away, only the tasks
      of the queue change, and without workers not even they. */
  predicate Drained(before: Pool, s: Pool) {
    && s.q == before.q.(tasks := s.q.tasks)
    && s.accepted == before.accepted && s.discarded == before.discarded
    && |s.workers| == |before.workers|
    && (s.workers == [] ==> s.q == before.q)
  }

  lemma OnlyAfterStopNow(s: Pool)
    requires Inv(s)
    ensures s.discarded != [] ==> s.q.stopNow
  {
  }

  lemma DrainedSelf(s: Pool)
    ensures Drained(s, s)
  {
  }

  lemma DrainedOn(before: Pool, s: Pool, w: nat)
    requires Drained(before, s) && Enabled(s, WaitPop(w))
    ensures Drained(before, AfterTurn(s, w))
    ensures forall j :: 0 <= j < |s.workers| && s.workers[j].Exited? ==> AfterTurn(s, w).workers[j].Exited?
  {
  }

  /** The pool has come there from its start by the steps of the history. */
  predicate Reached(workers: nat, capacity: nat, history: seq<Step>, s: Pool) {
    Legal(Init(workers, capacity), history) && Exec(Init(workers, capacity), history) == s
  }

  lemma StartReached(workers: nat, capacity: nat)
    ensures Reached(workers, capacity, [], Init(workers, capacity))
  {
  }

  lemma ReachOn(workers: nat, capacity: nat, history: seq<Step>, s: Pool, run: seq<Step>)
    requires Reached(workers, capacity, history, s) && Legal(s, run)
    ensures Reached(workers, capacity, history + run, Exec(s, run))
  {
    LegalAppend(Init(workers, capacity), history, run);
  }

  lemma ReachedInv(workers: nat, capacity: nat, history: seq<Step>, s: Pool)
    requires Reached(workers, capacity, history, s)
    ensures Inv(s) && |s.workers| == workers
  {
    InitInv(workers, capacity);
    RunKeepsInv(Init(workers, capacity), history);
  }

  class ThreadPool {
    const actualWorkerCount: nat
    const workers: seq<QueueWorker>
    const queue: ThreadSafeQueue<Task>
    const statsTracker: StatsTracker
    var stopNowFlag: bool
    ghost var pool: Pool             // the state as the protocol sees it
    ghost var history: seq<Step>     // all steps made so far

    ghost function Pcs(): (pcs: seq<Worker>)
      reads workers
      ensures |pcs| == |workers| && forall i :: 0 <= i < |workers| ==> pcs[i] == workers[i].pc
    {
      seq(|workers|, i requires 0 <= i < |workers| reads workers => workers[i].pc)
    }

    ghost predicate Crew()
    {
      && |workers| == actualWorkerCount <= WORKER_LIMIT
      && (forall i :: 0 <= i < |workers| ==> workers[i].queue == queue && workers[i].stats == statsTracker)
      && (forall i, j :: 0 <= i < j < |workers| ==> workers[i] != workers[j])
    }

    /** Queue and workers are in a state that the protocol reaches from a new pool. */
    ghost predicate OnCourse()
      reads this, queue, workers
    {
      && Crew()
      && queue.Abs().Valid()
      && pool.q == queue.Abs() && pool.workers == Pcs() && pool.pendingAll == 0 == pool.pendingDrops
      && (forall i :: 0 <= i < |workers| ==> BetweenRounds(workers[i].pc))
      && Reached(actualWorkerCount, queue.capacityValue, history, pool)
    }

    /** The statistics agree with the history of the pool. */
    ghost predicate Valid()
      reads this, queue, statsTracker, workers
    {
      && OnCourse()
      && stopNowFlag == queue.stopNowFlag
      && statsTracker.Valid()
      && statsTracker.stats.createdThreads == actualWorkerCount
      && statsTracker.stats.droppedTasks == pool.dropped
      && statsTracker.stats.waitSamples == pool.waitSamples
    }

    static method StartWorkers(count: nat, queue: ThreadSafeQueue<Task>, stats: StatsTracker)
      returns (crew: seq<QueueWorker>)
      ensures |crew| == count && fresh(crew)
      ensures forall i :: 0 <= i < count ==>
                crew[i].queue == queue && crew[i].stats == stats && crew[i].pc == Ready && crew[i].joinable
      ensures forall i, j :: 0 <= i < j < count ==> crew[i] != crew[j]
    {
      crew := [];
      for i := 0 to count
        invariant |crew| == i && fresh(crew)
        invariant forall j :: 0 <= j < i ==>
                    crew[j].queue == queue && crew[j].stats == stats && crew[j].pc == Ready && crew[j].joinable
        invariant forall j, k :: 0 <= j < k < i ==> crew[j] != crew[k]
      {
        var worker := new QueueWorker(queue, stats);
        worker.Start();
        crew := crew + [worker];
      }
    }

    constructor (workerCount: nat, queueCapacity: nat)
      ensures Valid() && fresh(queue) && fresh(statsTracker) && fresh(workers)
      ensures pool == Init(ActualWorkers(workerCount), queueCapacity)
      ensures |workers| == (if workerCount <= 6 then workerCount else 6)
      ensures forall i :: 0 <= i < |workers| ==> workers[i].joinable && workers[i].pc == Ready
      ensures queue.tasks == [] && queue.capacityValue == queueCapacity && queue.accepting && !queue.stop && !queue.paused
      ensures statsTracker.stats == Stats(|workers|, 0, 0.0, 0, 0, 0, 0) && !stopNowFlag
    {
      hide StatsTracker.Valid, Reached, Legal, Exec;
      var actual := if workerCount > WORKER_LIMIT then WORKER_LIMIT else workerCount;
      var q := new ThreadSafeQueue<Task>(queueCapacity);
      var tracker := new StatsTracker();
      var crew := StartWorkers(actual, q, tracker);
      StartReached(actual, queueCapacity);
      tracker.SetCreatedThreads(actual);
      actualWorkerCount := actual;
      workers := crew;
      queue := q;
      statsTracker := tracker;
      stopNowFlag := false;
      pool := Init(actual, queueCapacity);
      history := [];
    }

    /** The clock is read before the push, the note and the drop count come after it. */
    method Enqueue(task: Task, clock: Clock) returns (accepted: bool)
      requires Valid()
      modifies this`pool, this`history, workers, queue, statsTracker, clock
      ensures Valid()
      ensures accepted == old(queue.Abs()).Admits()
      ensures pool.accepted == old(pool.accepted) + (if accepted then [task] else [])
      ensures pool.dropped == old(pool.dropped) + (if accepted then 0 else 1)
      ensures var q' := PushSection(old(queue.Abs()), task).0;
              && queue.Abs() == q'
              && statsTracker.queueWasFull ==
                   (old(statsTracker.queueWasFull) || (q'.capacity > 0 && |q'.tasks| >= q'.capacity))
              && (statsTracker.queueWasFull ==>
                    statsTracker.queueFullStart ==
                      if old(statsTracker.queueWasFull) then old(statsTracker.queueFullStart) else clock.time)
              && statsTracker.intervals == old(statsTracker.intervals) && statsTracker.waits == old(statsTracker.waits)
    {
      hide OnCourse, StatsTracker.Valid;
      var now := clock.Now();
      var result := PushAndNotify(task);
      statsTracker.NoteQueueFullIfNeeded(result.sizeAfter, queue.capacityValue, now);
      if !result.accepted {
        statsTracker.RecordDroppedTask();
      }
      accepted := result.accepted;
    }

    /** push with its notify_one. */
    method PushAndNotify(task: Task) returns (result: PushResult)
      requires OnCourse()
      modifies this`pool, this`history, workers, queue
      ensures OnCourse()
      ensures (queue.Abs(), result) == PushSection(old(queue.Abs()), task)
      ensures queue.stopNowFlag == old(queue.stopNowFlag)
      ensures pool.accepted == old(pool.accepted) + (if result.accepted then [task] else [])
      ensures pool.dropped == old(pool.dropped) + (if result.accepted then 0 else 1)
      ensures pool.waitSamples == old(pool.waitSamples)
    {
      hide Reached, Legal, Exec, Next;
      result := queue.Push(task);
      var woken := 0;
      if result.accepted {
        woken := NotifyOne();
      }
      EnqueueIsLegal(pool, task, woken);
      Follow(EnqueueSteps(pool, task, woken));
    }

    /** Wakes some worker that sleeps, if there is one. */
    method NotifyOne() returns (woken: nat)
      requires Crew()
      modifies workers
      ensures SomeBlocked(old(Pcs())) ==> woken < |workers| && old(Pcs())[woken].Blocked?
      ensures Pcs() == if SomeBlocked(old(Pcs())) then old(Pcs())[woken := Notified] else old(Pcs())
      ensures forall i :: 0 <= i < |workers| && old(BetweenRounds(workers[i].pc)) ==> BetweenRounds(workers[i].pc)
    {
      woken := 0;
      if exists i :: 0 <= i < |workers| && workers[i].pc.Blocked? {
        woken :| woken < |workers| && workers[woken].pc.Blocked?;
        workers[woken].pc := Notified;
      }
    }

    method NotifyAllWorkers()
      requires Crew()
      modifies workers
      ensures Pcs() == AllWoken(old(Pcs()))
      ensures forall i :: 0 <= i < |workers| && old(BetweenRounds(workers[i].pc)) ==> BetweenRounds(workers[i].pc)
    {
      for i := 0 to |workers|
        invariant forall j :: 0 <= j < |workers| ==>
                    workers[j].pc == (if j < i then Woken(old(workers[j].pc)) else old(workers[j].pc))
      {
        if workers[i].pc.Blocked? {
          workers[i].pc := Notified;
        }
      }
    }

    /** Add steps to the history. */
    ghost method Follow(run: seq<Step>)
      requires Reached(actualWorkerCount, queue.capacityValue, history, pool) && Legal(pool, run)
      modifies this`pool, this`history
      ensures Reached(actualWorkerCount, queue.capacityValue, history, pool)
      ensures pool == Exec(old(pool), run)
    {
      ReachOn(actualWorkerCount, queue.capacityValue, history, pool, run);
      history := history + run;
      pool := Exec(pool, run);
    }

    method Pause()
      requires Valid()
      modifies this`pool, this`history, queue
      ensures Valid() && queue.Abs() == old(queue.Abs()).PauseSection()
    {
      queue.Pause();
      OneStep(pool, PauseCall);
      Follow([PauseCall]);
    }

    method Resume()
      requires Valid()
      modifies this`pool, this`history, workers, queue
      ensures Valid() && queue.Abs() == old(queue.Abs()).ResumeSection()
    {
      hide Reached, StatsTracker.Valid;
      queue.Resume();
      FinishCall(ResumeCall);
    }

    /** The notify_all of a call that has changed the queue already. */
    method FinishCall(ghost e: Step)
      requires e.ResumeCall? || e.StopGracefulCall? || e.StopNowCall?
      requires Crew() && queue.Abs().Valid() && queue.Abs() == Next(pool, e).q
      requires pool.workers == Pcs() && pool.pendingAll == 0 == pool.pendingDrops
      requires forall i :: 0 <= i < |workers| ==> BetweenRounds(workers[i].pc)
      requires Reached(actualWorkerCount, queue.capacityValue, history, pool)
      modifies this`pool, this`history, workers
      ensures OnCourse()
      ensures pool == Next(old(pool), e).(pendingAll := 0, workers := AllWoken(old(pool).workers))
    {
      hide Reached, Legal, Exec, AllWoken;
      NotifyAllWorkers();
      CallThenNotify(pool, e);
      Follow([e, NotifyAll]);
    }

    /** A worker that does not sleep makes one round. */
    method LetWorkerRun(w: nat, clock: Clock)
      requires Valid() && w < |workers|
      requires workers[w].pc.Ready? || workers[w].pc.Notified?
      modifies this`pool, this`history, workers, queue, statsTracker, clock
      ensures Valid() && clock.time >= old(clock.time)
      ensures pool == AfterTurn(old(pool), w)
      ensures forall i :: 0 <= i < |workers| ==> workers[i].joinable == old(workers[i].joinable)
      ensures !old(statsTracker.queueWasFull) ==>
                !statsTracker.queueWasFull && SameButWaits(old(statsTracker.stats), statsTracker.stats)
    {
      hide Reached, Legal, Exec, Next, IsMean, Sum, Max, MinSinceZero, TurnSteps;
      TurnIsLegal(pool, w);
      var popResult := workers[w].TakeTurn(clock);
      Follow(TurnSteps(pool, w));
      assert pool.workers == Pcs();
    }

    /** Everything of the shutdown up to and including the joins. They return, and by then the
        queue is empty and each accepted task has run, if there is a worker to run it. */
    method ShutdownGraceful(clock: Clock)
      requires Valid()
      modifies this`pool, this`history, workers, queue, statsTracker, clock
      ensures Valid() && AllExited(pool)
      ensures forall i :: 0 <= i < |workers| ==> !workers[i].joinable
      ensures queue.Abs() == old(queue.Abs()).StopGracefulSection().(tasks := queue.tasks)
      ensures queue.tasks == if actualWorkerCount > 0 then [] else old(queue.tasks)
      ensures pool.accepted == old(pool.accepted)
      ensures actualWorkerCount > 0 && !stopNowFlag ==> multiset(pool.executed) == multiset(pool.accepted)
      ensures statsTracker.stats.waitSamples == |pool.executed| + actualWorkerCount
      ensures exists t :: old(clock.time) <= t <= clock.time &&
                          SameButWaits(Finalize(old(statsTracker.Abs()), t).stats, statsTracker.stats)
    {
      hide Reached, StatsTracker.Valid, AllWoken, AllExited;
      queue.StopGraceful();
      FinishCall(StopGracefulCall);
      CloseAndJoin(clock);
    }

    /** Whatever is still queued is discarded, and the rest has run. */
    method ShutdownNow(clock: Clock)
      requires Valid()
      modifies this, workers, queue, statsTracker, clock
      ensures Valid() && AllExited(pool) && stopNowFlag
      ensures forall i :: 0 <= i < |workers| ==> !workers[i].joinable
      ensures queue.Abs() == old(queue.Abs()).StopNowSection()
      ensures pool.accepted == old(pool.accepted) && pool.discarded == old(pool.discarded) + old(queue.tasks)
      ensures multiset(pool.accepted) == multiset(pool.executed) + multiset(pool.discarded)
      ensures statsTracker.stats.waitSamples == |pool.executed| + actualWorkerCount
      ensures exists t :: old(clock.time) <= t <= clock.time &&
                          SameButWaits(Finalize(old(statsTracker.Abs()), t).stats, statsTracker.stats)
    {
      hide Reached, StatsTracker.Valid, AllWoken, AllExited;
      stopNowFlag := true;
      queue.StopNow();
      FinishCall(StopNowCall);
      CloseAndJoin(clock);
    }

    /** The second half of a shutdown, once the workers are notified of the stop. */
    method CloseAndJoin(clock: Clock)
      requires Valid() && Draining(pool)
      modifies this`pool, this`history, workers, queue, statsTracker, clock
      ensures Valid() && AllExited(pool)
      ensures forall i :: 0 <= i < |workers| ==> !workers[i].joinable
      ensures queue.Abs() == old(queue.Abs()).(tasks := queue.tasks)
      ensures queue.tasks == if actualWorkerCount > 0 then [] else old(queue.tasks)
      ensures pool.accepted == old(pool.accepted) && pool.discarded == old(pool.discarded)
      ensures multiset(pool.accepted) == multiset(pool.executed) + multiset(queue.tasks) + multiset(pool.discarded)
      ensures pool.discarded != [] ==> queue.stopNowFlag
      ensures statsTracker.stats.waitSamples == |pool.executed| + actualWorkerCount
      ensures exists t :: old(clock.time) <= t <= clock.time &&
                          SameButWaits(Finalize(old(statsTracker.Abs()), t).stats, statsTracker.stats)
    {
      hide Reached, Legal, Exec, IsMean, Sum, Max, MinSinceZero;
      var now := CloseStats(clock);
      JoinAll(clock);
      ReachedInv(actualWorkerCount, queue.capacityValue, history, pool);
      OnlyAfterStopNow(pool);
      FinalAccount(pool);
      assert SameButWaits(Finalize(old(statsTracker.Abs()), now).stats, statsTracker.stats);
    }

    method CloseStats(clock: Clock) returns (now: int)
      requires statsTracker.Valid()
      modifies statsTracker, clock
      ensures statsTracker.Valid() && !statsTracker.queueWasFull
      ensures old(clock.time) <= now == clock.time
      ensures statsTracker.Abs() == Finalize(old(statsTracker.Abs()), now)
    {
      now := clock.Now();
      statsTracker.FinalizeQueueFullIfNeeded(now);
    }

    /** What holds as long as the workers drain the queue that a shutdown has closed. */
    ghost predicate Joining(before: Pool, stats: Stats, since: int, clock: Clock)
      reads this, queue, statsTracker, workers, clock
    {
      && Valid() && Draining(pool)
      && Drained(before, pool)
      && !statsTracker.queueWasFull && SameButWaits(stats, statsTracker.stats)
      && clock.time >= since
    }

    /** Join the workers in turn. */
    method JoinAll(clock: Clock)
      requires Valid() && Draining(pool) && !statsTracker.queueWasFull
      modifies this`pool, this`history, workers, queue, statsTracker, clock
      ensures Joining(old(pool), old(statsTracker.stats), old(clock.time), clock)
      ensures AllExited(pool)
      ensures forall i :: 0 <= i < |workers| ==> !workers[i].joinable
    {
      hide Valid, Drained, Draining;
      DrainedSelf(pool);
      for i := 0 to |workers|
        invariant Joining(old(pool), old(statsTracker.stats), old(clock.time), clock)
        invariant forall j :: 0 <= j < i ==> workers[j].pc.Exited? && !workers[j].joinable
      {
        Join(i, clock, old(pool), old(statsTracker.stats), old(clock.time));
      }
      Exits();
    }

    lemma Exits()
      requires Valid() && forall i :: 0 <= i < |workers| ==> workers[i].pc.Exited?
      ensures AllExited(pool)
    {
    }

    /** Wait for a worker; meanwhile any worker may run. */
    method Join(i: nat, clock: Clock, ghost before: Pool, ghost stats: Stats, ghost since: int)
      requires i < |workers| && Joining(before, stats, since, clock)
      modifies this`pool, this`history, workers, queue, statsTracker, clock
      ensures Joining(before, stats, since, clock)
      ensures workers[i].pc.Exited? && !workers[i].joinable
      ensures forall j :: 0 <= j < |workers| && old(workers[j].pc.Exited?) ==> workers[j].pc.Exited?
      ensures forall j :: 0 <= j < |workers| && !old(workers[j].joinable) ==> !workers[j].joinable
    {
      hide Valid, Drained, Draining, Measure;
      while !workers[i].pc.Exited?
        invariant Joining(before, stats, since, clock)
        invariant forall j :: 0 <= j < |workers| && old(workers[j].pc.Exited?) ==> workers[j].pc.Exited?
        invariant forall j :: 0 <= j < |workers| ==> workers[j].joinable == old(workers[j].joinable)
        decreases Measure(pool)
      {
        var w: nat :| w < |workers| && !workers[w].pc.Exited?;
        DrainRound(w, clock, before, stats, since);
      }
      Detach(i);
    }

    /** The handle of a joined thread is no longer joinable. */
    method Detach(i: nat)
      requires Valid() && i < |workers|
      modifies workers
      ensures Valid() && !workers[i].joinable
      ensures forall j :: 0 <= j < |workers| ==> workers[j].pc == old(workers[j].pc)
      ensures forall j :: 0 <= j < |workers| && !old(workers[j].joinable) ==> !workers[j].joinable
    {
      workers[i].joinable := false;
    }

    /** A worker that has not left yet makes a round, since once notified none of them sleeps. */
    method DrainRound(w: nat, clock: Clock, ghost before: Pool, ghost stats: Stats, ghost since: int)
      requires w < |workers| && Joining(before, stats, since, clock) && !workers[w].pc.Exited?
      modifies this`pool, this`history, workers, queue, statsTracker, clock
      ensures Joining(before, stats, since, clock)
      ensures Measure(pool) < Measure(old(pool))
      ensures forall j :: 0 <= j < |workers| && old(workers[j].pc.Exited?) ==> workers[j].pc.Exited?
      ensures forall j :: 0 <= j < |workers| ==> workers[j].joinable == old(workers[j].joinable)
    {
      hide Reached, Inv, IsMean, Sum, Max, MinSinceZero, Measure, AfterTurn, Drained;
      ReachedInv(actualWorkerCount, queue.capacityValue, history, pool);
      NobodySleeps(pool);
      assert BetweenRounds(workers[w].pc) && pool.workers[w] == workers[w].pc;
      TurnDrains(pool, w);
      DrainedOn(before, pool, w);
      LetWorkerRun(w, clock);
    }
  }
}
