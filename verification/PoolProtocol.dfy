/** The pool as a step system. Every step is one critical section of the queue mutex, one
    delivery of a notification, or one private action of a worker or a producer. Any number of
    producers and controllers may call at any time, and sleepers may wake spuriously. */
module PoolProtocol {
  import opened BoundedQueue
  import opened Folds

  /** Task bodies are opaque and terminating; a label stands for one. */
  type Task = nat

  datatype Worker =
    | Ready                  // about to take the mutex in waitPop
    | Blocked                // asleep on the condition variable, not notified
    | Notified               // woken, must take the mutex and test the predicate again
    | GotTask(task: Task)    // waitPop returned a task, the wait time is not recorded yet
    | GotNothing             // waitPop returned without a task
    | Running(task: Task)
    | Exited

  datatype Pool = Pool(
    q: Queue<Task>,
    workers: seq<Worker>,
    pendingAll: nat,         // controllers past their critical section, notify_all still to come
    pendingDrops: nat,       // refused enqueues whose drop is not recorded yet
    dropped: nat,
    waitSamples: nat,
    completed: nat,          // enqueue calls that have returned
    accepted: seq<Task>,     // history: tasks taken by push
    popped: seq<Task>,       // history: tasks handed out by waitPop
    executed: seq<Task>,     // history: tasks that ran to the end
    discarded: seq<Task>     // history: tasks thrown away by stopNow
  )

  datatype Step =
    | Enqueue(task: Task, woken: nat)
    | RecordDrop
    | WaitPop(w: nat)
    | Spurious(w: nat)
    | RecordWait(w: nat)
    | Finish(w: nat)
    | PauseCall
    | ResumeCall
    | StopGracefulCall
    | StopNowCall
    | NotifyAll

  const WORKER_LIMIT := 6

  function ActualWorkers(workerCount: nat): nat {
    if workerCount > WORKER_LIMIT then WORKER_LIMIT else workerCount
  }

  function Init(workers: nat, capacity: nat): Pool {
    Pool(EmptyQueue(capacity), seq(workers, _ => Ready), 0, 0, 0, 0, 0, [], [], [], [])
  }

  predicate SomeBlocked(ws: seq<Worker>) {
    exists w :: 0 <= w < |ws| && ws[w].Blocked?
  }

  function Woken(w: Worker): Worker {
    if w.Blocked? then Notified else w
  }

  function AllWoken(ws: seq<Worker>): seq<Worker> {
    seq(|ws|, i requires 0 <= i < |ws| => Woken(ws[i]))
  }

  predicate Enabled(s: Pool, e: Step) {
    match e
    case Enqueue(_, woken) =>
      s.q.Admits() && SomeBlocked(s.workers) ==> woken < |s.workers| && s.workers[woken].Blocked?
    case RecordDrop => s.pendingDrops > 0
    case WaitPop(w) => w < |s.workers| && (s.workers[w].Ready? || s.workers[w].Notified?)
    case Spurious(w) => w < |s.workers| && s.workers[w].Blocked?
    case RecordWait(w) => w < |s.workers| && (s.workers[w].GotTask? || s.workers[w].GotNothing?)
    case Finish(w) => w < |s.workers| && s.workers[w].Running?
    case NotifyAll => s.pendingAll > 0
    case _ => true
  }

  function Next(s: Pool, e: Step): Pool
    requires Enabled(s, e)
  {
    match e
    case Enqueue(task, woken) =>
      var (q', r) := PushSection(s.q, task);
      if !r.accepted then s.(pendingDrops := s.pendingDrops + 1)
      else
        // notify_one runs before push gives the mutex back
        var ws := if SomeBlocked(s.workers) then s.workers[woken := Notified] else s.workers;
        s.(q := q', workers := ws, accepted := s.accepted + [task], completed := s.completed + 1)
    case RecordDrop =>
      s.(pendingDrops := s.pendingDrops - 1, dropped := s.dropped + 1, completed := s.completed + 1)
    case WaitPop(w) =>
      var (q', r) := WaitPopSection(s.q);
      (match r
       case Sleep => s.(workers := s.workers[w := Blocked])
       case NoTask(_) => s.(workers := s.workers[w := GotNothing])
       case HasTask(task, _) =>
         s.(q := q', workers := s.workers[w := GotTask(task)], popped := s.popped + [task]))
    case Spurious(w) => s.(workers := s.workers[w := Notified])
    case RecordWait(w) =>
      s.(waitSamples := s.waitSamples + 1,
         workers := s.workers[w := if s.workers[w].GotTask? then Running(s.workers[w].task) else Exited])
    case Finish(w) =>
      s.(executed := s.executed + [s.workers[w].task], workers := s.workers[w := Ready])
    case PauseCall => s.(q := s.q.PauseSection())
    case ResumeCall => s.(q := s.q.ResumeSection(), pendingAll := s.pendingAll + 1)
    case StopGracefulCall => s.(q := s.q.StopGracefulSection(), pendingAll := s.pendingAll + 1)
    case StopNowCall =>
      s.(q := s.q.StopNowSection(), pendingAll := s.pendingAll + 1, discarded := s.discarded + s.q.tasks)
    case NotifyAll =>
      s.(pendingAll := s.pendingAll - 1, workers := AllWoken(s.workers))
  }

  // ---- runs ----

  predicate Legal(s: Pool, run: seq<Step>)
    decreases |run|
  {
    run == [] || (Enabled(s, run[0]) && Legal(Next(s, run[0]), run[1..]))
  }

  function Exec(s: Pool, run: seq<Step>): Pool
    requires Legal(s, run)
    decreases |run|
  {
    if run == [] then s else Exec(Next(s, run[0]), run[1..])
  }

  lemma OneStep(s: Pool, e: Step)
    requires Enabled(s, e)
    ensures Legal(s, [e]) && Exec(s, [e]) == Next(s, e)
  {
  }

  lemma TwoSteps(s: Pool, a: Step, b: Step)
    requires Enabled(s, a) && Enabled(Next(s, a), b)
    ensures Legal(s, [a, b]) && Exec(s, [a, b]) == Next(Next(s, a), b)
  {
    hide Enabled, Next;
    OneStep(Next(s, a), b);
    assert [a, b][1..] == [b];
  }

  lemma {:induction false} LegalAppend(s: Pool, run: seq<Step>, rest: seq<Step>)
    requires Legal(s, run) && Legal(Exec(s, run), rest)
    ensures Legal(s, run + rest) && Exec(s, run + rest) == Exec(Exec(s, run), rest)
    decreases |run|
  {
    hide Enabled, Next;
    if run == [] {
      assert run + rest == rest;
    } else {
      assert (run + rest)[1..] == run[1..] + rest;
      LegalAppend(Next(s, run[0]), run[1..], rest);
    }
  }

  // ---- the invariant ----

  function NotifiedWeight(w: Worker): nat { if w.Notified? then 1 else 0 }

  /** As long as a sleeper is left un-notified although it could go on, nobody has stopped the
      queue and each queued task has a notified worker on its way to it. */
  predicate WakeupsCover(s: Pool) {
    s.q.WaitReady() && s.pendingAll == 0 && SomeBlocked(s.workers) ==>
      !s.q.stop && SumBy(NotifiedWeight, s.workers) >= |s.q.tasks|
  }

  function InHand(w: Worker): multiset<Task> {
    match w
    case GotTask(t) => multiset{t}
    case Running(t) => multiset{t}
    case _ => multiset{}
  }

  /** FIFO and conservation: every accepted task, in order, was handed out, is queued, or was
      discarded by stopNow; a task handed out has run or is in the hands of one worker. */
  predicate Conserved(s: Pool) {
    InOrder(s) && HandedOver(s)
  }

  predicate InOrder(s: Pool) {
    && s.accepted == s.popped + s.q.tasks + s.discarded
    && (s.discarded != [] ==> s.q.stopNow)
  }

  predicate HandedOver(s: Pool) {
    multiset(s.popped) == multiset(s.executed) + GatherBy(InHand, s.workers)
  }

  function PastRecord(w: Worker): nat { if w.Running? || w.Exited? then 1 else 0 }

  predicate Accounted(s: Pool) {
    && s.dropped + |s.accepted| == s.completed
    && s.waitSamples == |s.executed| + SumBy(PastRecord, s.workers)
  }

  /** A worker leaves only when there is nothing left for it to do, ever. */
  predicate LeavesDrained(s: Pool) {
    forall w :: 0 <= w < |s.workers| && (s.workers[w].GotNothing? || s.workers[w].Exited?) ==>
      s.q.stop && s.q.tasks == []
  }

  predicate Inv(s: Pool) {
    s.q.Valid() && WakeupsCover(s) && Conserved(s) && Accounted(s) && LeavesDrained(s)
  }

  lemma InitInv(workers: nat, capacity: nat)
    ensures Inv(Init(workers, capacity))
  {
    var s := Init(workers, capacity);
    GatherByNothing(InHand, s.workers);
    SumByBound(PastRecord, s.workers, 0);
  }

  lemma StepKeepsWakeups(s: Pool, e: Step)
    requires s.q.Valid() && WakeupsCover(s)
    requires Enabled(s, e)
    ensures WakeupsCover(Next(s, e))
  {
    hide SumBy;
    var s' := Next(s, e);
    match e
    case Enqueue(task, woken) =>
      if s.q.Admits() && SomeBlocked(s.workers) {
        SumByUpdate(NotifiedWeight, s.workers, woken, Notified);
      }
    case WaitPop(w) =>
      SumByUpdate(NotifiedWeight, s.workers, w, s'.workers[w]);
      if SomeBlocked(s'.workers) && s.q.WaitReady() {
        var b :| 0 <= b < |s'.workers| && s'.workers[b].Blocked?;
        assert s.workers[b].Blocked?;
      }
    case Spurious(w) =>
      SumByUpdate(NotifiedWeight, s.workers, w, Notified);
    case RecordWait(w) =>
      SumByUpdate(NotifiedWeight, s.workers, w, s'.workers[w]);
      if SomeBlocked(s'.workers) {
        var b :| 0 <= b < |s'.workers| && s'.workers[b].Blocked?;
        assert s.workers[b].Blocked?;
      }
    case Finish(w) =>
      SumByUpdate(NotifiedWeight, s.workers, w, Ready);
      if SomeBlocked(s'.workers) {
        var b :| 0 <= b < |s'.workers| && s'.workers[b].Blocked?;
        assert s.workers[b].Blocked?;
      }
    case _ =>
  }

  lemma StepKeepsOrder(s: Pool, e: Step)
    requires s.q.Valid() && InOrder(s)
    requires Enabled(s, e)
    ensures InOrder(Next(s, e))
  {
  }

  lemma TakeInHand(ws: seq<Worker>, w: nat, task: Task)
    requires w < |ws| && (ws[w].Ready? || ws[w].Notified?)
    ensures GatherBy(InHand, ws[w := GotTask(task)]) == GatherBy(InHand, ws) + multiset{task}
  {
    GatherByUpdate(InHand, ws, w, GotTask(task));
  }

  lemma PutDown(ws: seq<Worker>, w: nat)
    requires w < |ws| && ws[w].Running?
    ensures GatherBy(InHand, ws) == GatherBy(InHand, ws[w := Ready]) + multiset{ws[w].task}
  {
    GatherByUpdate(InHand, ws, w, Ready);
  }

  lemma SameInHand(ws: seq<Worker>, w: nat, x: Worker)
    requires w < |ws| && InHand(x) == InHand(ws[w])
    ensures GatherBy(InHand, ws[w := x]) == GatherBy(InHand, ws)
  {
    hide GatherBy;
    GatherBySame(InHand, ws, ws[w := x]);
  }

  lemma WokenInHand(ws: seq<Worker>)
    ensures GatherBy(InHand, AllWoken(ws)) == GatherBy(InHand, ws)
  {
    hide GatherBy;
    GatherBySame(InHand, ws, AllWoken(ws));
  }

  lemma EmptyHandedInHand(s: Pool, w: nat)
    requires Enabled(s, WaitPop(w)) && !WaitPopSection(s.q).1.HasTask?
    ensures GatherBy(InHand, Next(s, WaitPop(w)).workers) == GatherBy(InHand, s.workers)
  {
    hide GatherBy;
    SameInHand(s.workers, w, if WaitPopSection(s.q).1.Sleep? then Blocked else GotNothing);
  }

  lemma RecordWaitInHand(s: Pool, w: nat)
    requires Enabled(s, RecordWait(w))
    ensures GatherBy(InHand, Next(s, RecordWait(w)).workers) == GatherBy(InHand, s.workers)
  {
    hide GatherBy;
    SameInHand(s.workers, w, if s.workers[w].GotTask? then Running(s.workers[w].task) else Exited);
  }

  lemma OtherStepsInHand(s: Pool, e: Step)
    requires Enabled(s, e)
    requires !e.Finish? && !e.WaitPop? && !e.RecordWait?
    ensures GatherBy(InHand, Next(s, e).workers) == GatherBy(InHand, s.workers)
  {
    hide GatherBy;
    if e.NotifyAll? {
      WokenInHand(s.workers);
    } else if e.Spurious? {
      SameInHand(s.workers, e.w, Notified);
    } else if e.Enqueue? && Next(s, e).workers != s.workers {
      SameInHand(s.workers, e.woken, Notified);
    }
  }

  lemma StepKeepsHandedOver(s: Pool, e: Step)
    requires HandedOver(s)
    requires Enabled(s, e)
    ensures HandedOver(Next(s, e))
  {
    hide GatherBy, InHand;
    var s' := Next(s, e);
    if e.WaitPop? && WaitPopSection(s.q).1.HasTask? {
      var task := WaitPopSection(s.q).1.task;
      TakeInHand(s.workers, e.w, task);
      assert multiset(s'.popped) == multiset(s.popped) + multiset{task};
    } else if e.Finish? {
      var task := s.workers[e.w].task;
      PutDown(s.workers, e.w);
      assert multiset(s'.executed) == multiset(s.executed) + multiset{task};
    } else if e.WaitPop? {
      EmptyHandedInHand(s, e.w);
    } else if e.RecordWait? {
      RecordWaitInHand(s, e.w);
    } else {
      OtherStepsInHand(s, e);
    }
  }

  lemma StepKeepsAccounted(s: Pool, e: Step)
    requires Accounted(s)
    requires Enabled(s, e)
    ensures Accounted(Next(s, e))
  {
    hide SumBy;
    var s' := Next(s, e);
    match e
    case Enqueue(task, woken) =>
      if s.q.Admits() && SomeBlocked(s.workers) {
        SumByUpdate(PastRecord, s.workers, woken, Notified);
      }
    case NotifyAll =>
      SumByPointwise(PastRecord, s.workers, s'.workers);
      SumByPointwise(PastRecord, s'.workers, s.workers);
    case WaitPop(w) =>
      SumByUpdate(PastRecord, s.workers, w, s'.workers[w]);
    case Spurious(w) =>
      SumByUpdate(PastRecord, s.workers, w, Notified);
    case RecordWait(w) =>
      SumByUpdate(PastRecord, s.workers, w, s'.workers[w]);
    case Finish(w) =>
      SumByUpdate(PastRecord, s.workers, w, Ready);
    case _ =>
  }

  lemma StepKeepsLeaves(s: Pool, e: Step)
    requires s.q.Valid() && LeavesDrained(s)
    requires Enabled(s, e)
    ensures Next(s, e).q.Valid() && LeavesDrained(Next(s, e))
  {
  }

  lemma StepKeepsInv(s: Pool, e: Step)
    requires Inv(s)
    requires Enabled(s, e)
    ensures Inv(Next(s, e))
  {
    StepKeepsWakeups(s, e);
    StepKeepsOrder(s, e);
    StepKeepsHandedOver(s, e);
    StepKeepsAccounted(s, e);
    StepKeepsLeaves(s, e);
  }

  lemma {:induction false} RunKeepsInv(s: Pool, run: seq<Step>)
    requires Inv(s)
    requires Legal(s, run)
    ensures Inv(Exec(s, run))
    ensures |Exec(s, run).workers| == |s.workers|
    decreases |run|
  {
    if run != [] {
      StepKeepsInv(s, run[0]);
      RunKeepsInv(Next(s, run[0]), run[1..]);
    }
  }

  // ---- theorems over all runs ----

  /** No lost wakeup, in every run from the start: if a sleeper could go on, nobody has notified
      it and no notify_all is due, then the notified workers are at least as many as the queued
      tasks; and with a worker at all, they are never all asleep while there is work. */
  lemma NoLostWakeup(workers: nat, capacity: nat, run: seq<Step>)
    requires Legal(Init(workers, capacity), run)
    ensures var s := Exec(Init(workers, capacity), run);
            && |s.workers| == workers
            && (s.q.WaitReady() && s.pendingAll == 0 && SomeBlocked(s.workers) ==>
                  SumBy(NotifiedWeight, s.workers) >= |s.q.tasks|)
            && (s.q.WaitReady() && s.pendingAll == 0 && workers > 0 ==> exists w :: 0 <= w < workers && !s.workers[w].Blocked?)
  {
    InitInv(workers, capacity);
    RunKeepsInv(Init(workers, capacity), run);
    var s := Exec(Init(workers, capacity), run);
    if s.q.WaitReady() && s.pendingAll == 0 && workers > 0 && !exists w :: 0 <= w < workers && !s.workers[w].Blocked? {
      assert s.workers[0].Blocked?;
      SumByBound(NotifiedWeight, s.workers, 0);
      assert false;
    }
  }

  /** Pool conservation and FIFO in every run. */
  lemma PoolConservation(workers: nat, capacity: nat, run: seq<Step>)
    requires Legal(Init(workers, capacity), run)
    ensures var s := Exec(Init(workers, capacity), run);
            && s.accepted == s.popped + (if s.q.stopNow then s.discarded else s.q.tasks)
            && multiset(s.popped) == multiset(s.executed) + GatherBy(InHand, s.workers)
            && |s.q.tasks| <= capacity
            && s.q.accepting == !s.q.stop
            && (s.q.stopNow ==> s.q.tasks == [])
            && s.dropped + |s.accepted| == s.completed
            && s.waitSamples == |s.executed| + SumBy(PastRecord, s.workers)
  {
    InitInv(workers, capacity);
    RunKeepsInv(Init(workers, capacity), run);
    RunKeepsCapacity(Init(workers, capacity), run);
    WhereTasksAre(Exec(Init(workers, capacity), run));
  }

  lemma WhereTasksAre(s: Pool)
    requires s.q.Valid() && Conserved(s)
    ensures s.accepted == s.popped + (if s.q.stopNow then s.discarded else s.q.tasks)
  {
  }

  lemma {:induction false} RunKeepsCapacity(s: Pool, run: seq<Step>)
    requires Legal(s, run)
    ensures Exec(s, run).q.capacity == s.q.capacity
    decreases |run|
  {
    if run != [] {
      RunKeepsCapacity(Next(s, run[0]), run[1..]);
    }
  }

  /** No pop while paused or after stopNow, tasks leave in arrival order one at a time, and the
      two stop flags are never taken back. */
  lemma StepDiscipline(s: Pool, e: Step)
    requires Inv(s)
    requires Enabled(s, e)
    ensures var s' := Next(s, e);
            && (s'.popped != s.popped ==>
                  && !s.q.paused && !s.q.stopNow && e.WaitPop?
                  && s.q.tasks != [] && s'.popped == s.popped + [s.q.tasks[0]] && s'.q.tasks == s.q.tasks[1..])
            && (s.q.stop ==> s'.q.stop && s'.accepted == s.accepted)
            && (s.q.stopNow ==> s'.q.stopNow && s'.q.tasks == [] && s'.popped == s.popped)
            && s.accepted <= s'.accepted && s.popped <= s'.popped && s.executed <= s'.executed
  {
  }

  /** In every run, stop or no stop, a pause keeps all tasks from the workers until a resume or a
      stop. */
  lemma {:induction false} PausedPopsNothing(s: Pool, run: seq<Step>)
    requires s.q.paused && !s.q.stopNow && Legal(s, run)
    requires forall i :: 0 <= i < |run| ==> !run[i].ResumeCall? && !run[i].StopGracefulCall? && !run[i].StopNowCall?
    ensures Exec(s, run).popped == s.popped && Exec(s, run).q.paused
    decreases |run|
  {
    if run != [] {
      assert !run[0].ResumeCall?;
      PausedPopsNothing(Next(s, run[0]), run[1..]);
    }
  }

  lemma PauseHoldsTasks(s: Pool, run: seq<Step>)
    requires !s.q.stopNow && Legal(s, [PauseCall] + run)
    requires forall i :: 0 <= i < |run| ==> !run[i].ResumeCall? && !run[i].StopGracefulCall? && !run[i].StopNowCall?
    ensures Exec(s, [PauseCall] + run).popped == s.popped
  {
    assert ([PauseCall] + run)[1..] == run;
    PausedPopsNothing(Next(s, PauseCall), run);
  }

  /** After a resume and its notification, every worker that is not busy can take the first task. */
  lemma ResumeReleasesTasks(s: Pool, w: nat)
    requires !s.q.stopNow && s.q.tasks != []
    requires w < |s.workers| && (s.workers[w].Ready? || s.workers[w].Blocked? || s.workers[w].Notified?)
    ensures Legal(s, [ResumeCall, NotifyAll, WaitPop(w)])
    ensures var s' := Exec(s, [ResumeCall, NotifyAll, WaitPop(w)]);
            && s'.popped == s.popped + [s.q.tasks[0]] && s'.q.tasks == s.q.tasks[1..]
            && s'.workers == AllWoken(s.workers)[w := GotTask(s.q.tasks[0])]
  {
    hide Legal, Exec;
    OneStep(s, ResumeCall);
    TwoSteps(Next(s, ResumeCall), NotifyAll, WaitPop(w));
    LegalAppend(s, [ResumeCall], [NotifyAll, WaitPop(w)]);
    assert [ResumeCall] + [NotifyAll, WaitPop(w)] == [ResumeCall, NotifyAll, WaitPop(w)];
  }

  /** Nothing but sleep keeps a worker from its next step, a sleeper may wake for no reason, and
      callers are never held up, whatever state the pool is in. */
  lemma AlwaysPossible(s: Pool, task: Task)
    ensures exists woken :: Enabled(s, Enqueue(task, woken))
    ensures Enabled(s, PauseCall) && Enabled(s, ResumeCall) && Enabled(s, StopGracefulCall) && Enabled(s, StopNowCall)
    ensures s.pendingAll > 0 ==> Enabled(s, NotifyAll)
    ensures s.pendingDrops > 0 ==> Enabled(s, RecordDrop)
    ensures forall w :: 0 <= w < |s.workers| ==>
              match s.workers[w]
              case Blocked => Enabled(s, Spurious(w)) && Next(s, Spurious(w)).workers[w] == Notified
              case Exited => true
              case Running(_) => Enabled(s, Finish(w))
              case GotTask(_) => Enabled(s, RecordWait(w))
              case GotNothing => Enabled(s, RecordWait(w))
              case _ => Enabled(s, WaitPop(w))
  {
    if SomeBlocked(s.workers) {
      var b: nat :| b < |s.workers| && s.workers[b].Blocked?;
      assert Enabled(s, Enqueue(task, b));
    } else {
      assert Enabled(s, Enqueue(task, 0));
    }
  }
}
