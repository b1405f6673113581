/** Shutdown of the pool: how many worker steps a stop still allows, when the joins of the
    shutdown return, and what has run by then. */
module PoolDrain {
  import opened BoundedQueue
  import opened Folds
  import opened PoolProtocol

  predicate WorkerStep(e: Step) {
    e.WaitPop? || e.Spurious? || e.RecordWait? || e.Finish?
  }

  predicate ControlCall(e: Step) {
    e.PauseCall? || e.ResumeCall? || e.StopGracefulCall? || e.StopNowCall?
  }

  /** Steps a worker still has in front of it before it has exited, its queued tasks aside. */
  function Weight(w: Worker): nat {
    match w
    case GotTask(_) => 4
    case Blocked => 3
    case Running(_) => 3
    case Ready => 2
    case Notified => 2
    case GotNothing => 1
    case Exited => 0
  }

  function Measure(s: Pool): nat {
    3 * |s.q.tasks| + SumBy(Weight, s.workers)
  }

  predicate Draining(s: Pool) { s.q.Draining() }

  predicate AllExited(s: Pool) {
    forall w :: 0 <= w < |s.workers| ==> s.workers[w].Exited?
  }

  function WorkerSteps(run: seq<Step>): nat {
    if run == [] then 0 else (if WorkerStep(run[0]) then 1 else 0) + WorkerSteps(run[1..])
  }

  lemma WorkerStepShrinks(s: Pool, e: Step)
    requires Inv(s) && Draining(s)
    requires Enabled(s, e) && WorkerStep(e)
    ensures Measure(Next(s, e)) < Measure(s)
    ensures Draining(Next(s, e))
  {
    SumByUpdate(Weight, s.workers, e.w, Next(s, e).workers[e.w]);
  }

  lemma OtherStepsDoNotGrow(s: Pool, e: Step)
    requires s.q.stop
    requires Enabled(s, e) && !WorkerStep(e)
    ensures Measure(Next(s, e)) <= Measure(s)
    ensures Draining(s) && !e.PauseCall? ==> Draining(Next(s, e))
  {
    SumByPointwise(Weight, Next(s, e).workers, s.workers);
  }

  /** After a stop, in every run without a pause, whatever producers and controllers do, the
      worker steps taken plus those still possible never exceed those possible at the start. */
  lemma {:induction false} DrainBound(s: Pool, run: seq<Step>)
    requires Inv(s) && Draining(s)
    requires Legal(s, run)
    requires forall i :: 0 <= i < |run| ==> !run[i].PauseCall?
    ensures WorkerSteps(run) + Measure(Exec(s, run)) <= Measure(s)
    ensures Inv(Exec(s, run)) && Draining(Exec(s, run))
    decreases |run|
  {
    if run != [] {
      StepKeepsInv(s, run[0]);
      if WorkerStep(run[0]) {
        WorkerStepShrinks(s, run[0]);
      } else {
        OtherStepsDoNotGrow(s, run[0]);
      }
      DrainBound(Next(s, run[0]), run[1..]);
    }
  }

  lemma MeasureBound(s: Pool)
    requires s.q.Valid()
    ensures Measure(s) <= 3 * s.q.capacity + 4 * |s.workers|
  {
    SumByBound(Weight, s.workers, 4);
  }

  /** The stop of a shutdown leaves at most 3 * capacity + 4 * workers worker steps. */
  lemma StopBoundsAllWork(workers: nat, capacity: nat, before: seq<Step>, stop: Step, after: seq<Step>)
    requires stop.StopGracefulCall? || stop.StopNowCall?
    requires Legal(Init(workers, capacity), before)
    requires Legal(Next(Exec(Init(workers, capacity), before), stop), after)
    requires forall i :: 0 <= i < |after| ==> !after[i].PauseCall?
    ensures WorkerSteps(after) <= 3 * capacity + 4 * workers
  {
    InitInv(workers, capacity);
    RunKeepsInv(Init(workers, capacity), before);
    RunKeepsCapacity(Init(workers, capacity), before);
    var s := Exec(Init(workers, capacity), before);
    StepKeepsInv(s, stop);
    MeasureBound(Next(s, stop));
    DrainBound(Next(s, stop), after);
  }

  /** While draining with every notification delivered, a worker that has not exited can move. */
  lemma DrainProgress(s: Pool) returns (e: Step)
    requires Inv(s) && Draining(s)
    requires s.pendingAll == 0 && !AllExited(s)
    ensures Enabled(s, e) && WorkerStep(e)
  {
    var w :| 0 <= w < |s.workers| && !s.workers[w].Exited?;
    assert !SomeBlocked(s.workers);
    e := if s.workers[w].Ready? || s.workers[w].Notified? then WaitPop(w)
         else if s.workers[w].Running? then Finish(w)
         else RecordWait(w);
  }

  /** Nothing is left to do: no worker can move and no notification is due. */
  predicate AtStandstill(s: Pool) {
    && s.pendingAll == 0
    && forall w :: 0 <= w < |s.workers| ==> s.workers[w].Blocked? || s.workers[w].Exited?
  }

  // ---- what a finished shutdown has done ----

  lemma {:induction false} NoWorkersNoWork(s: Pool, run: seq<Step>)
    requires s.workers == []
    requires Legal(s, run)
    ensures Exec(s, run).popped == s.popped && Exec(s, run).executed == s.executed
    decreases |run|
  {
    if run != [] {
      NoWorkersNoWork(Next(s, run[0]), run[1..]);
    }
  }

  /** When every worker has exited, each accepted task has run exactly once or was discarded
      exactly once or never had a worker to run it, and every wait was sampled. */
  lemma FinalAccount(s: Pool)
    requires Inv(s) && AllExited(s)
    ensures multiset(s.accepted) == multiset(s.executed) + multiset(s.q.tasks) + multiset(s.discarded)
    ensures s.workers != [] ==> s.q.stop && s.q.tasks == []
    ensures s.waitSamples == |s.executed| + |s.workers|
  {
    GatherByNothing(InHand, s.workers);
    assert multiset(s.popped) == multiset(s.executed);
    if s.workers != [] {
      assert s.workers[0].Exited?;
    }
    ExitedCount(s.workers);
  }

  lemma {:induction false} ExitedCount(ws: seq<Worker>)
    requires forall w :: 0 <= w < |ws| ==> ws[w].Exited?
    ensures SumBy(PastRecord, ws) == |ws|
  {
    if ws != [] {
      ExitedCount(ws[1..]);
    }
  }

  /** Graceful shutdown runs each accepted task exactly once, exactly when the pool has a worker
      at all or nothing was ever accepted. */
  lemma GracefulRunsEachTaskOnce(workers: nat, capacity: nat, run: seq<Step>)
    requires Legal(Init(workers, capacity), run)
    requires AllExited(Exec(Init(workers, capacity), run))
    requires !Exec(Init(workers, capacity), run).q.stopNow
    ensures var s := Exec(Init(workers, capacity), run);
            multiset(s.executed) == multiset(s.accepted) <==> workers > 0 || s.accepted == []
  {
    InitInv(workers, capacity);
    RunKeepsInv(Init(workers, capacity), run);
    var s := Exec(Init(workers, capacity), run);
    FinalAccount(s);
    if workers == 0 {
      NoWorkersNoWork(Init(0, capacity), run);
      if s.accepted != [] {
        assert s.accepted[0] in multiset(s.accepted);
      }
    }
  }

  /** A concrete failure of a pool without workers: one accepted task, a graceful stop whose joins
      return at once, and the task has not run. */
  lemma NoWorkerNeverRuns()
    ensures Legal(Init(0, 1), [Enqueue(7, 0), StopGracefulCall])
    ensures var s := Exec(Init(0, 1), [Enqueue(7, 0), StopGracefulCall]);
            AllExited(s) && s.accepted == [7] && s.executed == []
  {
  }

  /** Graceful shutdown, from the stop to the standstill that StopBoundsAllWork says must come:
      if nobody pauses or discards after the stop, every worker has exited, the queue is empty and
      each accepted task has run exactly once. */
  lemma GracefulShutdownCompletes(workers: nat, capacity: nat, before: seq<Step>, after: seq<Step>)
    requires workers > 0
    requires Legal(Init(workers, capacity), before)
    requires Legal(Next(Exec(Init(workers, capacity), before), StopGracefulCall), after)
    requires forall i :: 0 <= i < |after| ==> !after[i].PauseCall?
    requires var s := Exec(Next(Exec(Init(workers, capacity), before), StopGracefulCall), after);
             AtStandstill(s) && !s.q.stopNow
    ensures var s := Exec(Next(Exec(Init(workers, capacity), before), StopGracefulCall), after);
            && AllExited(s) && s.q.tasks == []
            && multiset(s.executed) == multiset(s.accepted)
            && s.waitSamples == |s.executed| + workers
  {
    InitInv(workers, capacity);
    RunKeepsInv(Init(workers, capacity), before);
    var stopped := Next(Exec(Init(workers, capacity), before), StopGracefulCall);
    StepKeepsInv(Exec(Init(workers, capacity), before), StopGracefulCall);
    DrainBound(stopped, after);
    RunKeepsInv(stopped, after);
    var s := Exec(stopped, after);
    StandstillIsExit(s);
    FinalAccount(s);
  }

  lemma StandstillIsExit(s: Pool)
    requires Inv(s) && Draining(s) && AtStandstill(s)
    ensures AllExited(s)
  {
  }

  /** Immediate shutdown: what did not run was discarded, and nothing is lost or run twice. */
  lemma ImmediateRunsOrDiscards(workers: nat, capacity: nat, run: seq<Step>)
    requires Legal(Init(workers, capacity), run)
    requires AllExited(Exec(Init(workers, capacity), run))
    requires Exec(Init(workers, capacity), run).q.stopNow
    ensures var s := Exec(Init(workers, capacity), run);
            && multiset(s.accepted) == multiset(s.executed) + multiset(s.discarded)
            && s.q.tasks == []
            && s.waitSamples == |s.executed| + workers
  {
    InitInv(workers, capacity);
    RunKeepsInv(Init(workers, capacity), run);
    FinalAccount(Exec(Init(workers, capacity), run));
  }

  // ---- when the joins of a shutdown return ----

  predicate Leaving(w: Worker) { w.GotNothing? || w.Exited? }

  predicate AllLeaving(s: Pool) {
    forall w :: 0 <= w < |s.workers| ==> Leaving(s.workers[w])
  }

  /** The controller is left alone: nobody pauses, resumes or stops the pool again. */
  predicate Uncontrolled(run: seq<Step>) {
    forall i :: 0 <= i < |run| ==> !ControlCall(run[i])
  }

  lemma LeavingStep(s: Pool) returns (e: Step)
    requires Inv(s) && s.pendingAll == 0
    requires AllLeaving(s) && !AllExited(s)
    ensures Enabled(s, e) && e.RecordWait?
    ensures AllLeaving(Next(s, e)) && Measure(Next(s, e)) < Measure(s)
  {
    var w :| 0 <= w < |s.workers| && !s.workers[w].Exited?;
    assert Leaving(s.workers[w]);
    e := RecordWait(w);
    SumByUpdate(Weight, s.workers, w, Exited);
  }

  /** One step nearer to the end: deliver a notification, or let some worker move. */
  lemma StepToExit(s: Pool) returns (e: Step)
    requires Inv(s) && s.q.stop && (Draining(s) || AllLeaving(s))
    requires !(s.pendingAll == 0 && AllExited(s))
    ensures Enabled(s, e) && !ControlCall(e)
    ensures var s' := Next(s, e);
            && s'.q.stop && (Draining(s') || AllLeaving(s'))
            && Measure(s') <= Measure(s)
            && (Measure(s') < Measure(s) || s'.pendingAll < s.pendingAll)
  {
    if s.pendingAll > 0 {
      e := NotifyAll;
      OtherStepsDoNotGrow(s, e);
    } else if Draining(s) {
      e := DrainProgress(s);
      WorkerStepShrinks(s, e);
    } else {
      e := LeavingStep(s);
    }
  }

  lemma {:induction false} RunToExit(s: Pool) returns (run: seq<Step>)
    requires Inv(s) && s.q.stop && (Draining(s) || AllLeaving(s))
    ensures Legal(s, run) && Uncontrolled(run) && AllExited(Exec(s, run))
    decreases Measure(s), s.pendingAll
  {
    if s.pendingAll == 0 && AllExited(s) {
      run := [];
    } else {
      var e := StepToExit(s);
      StepKeepsInv(s, e);
      var rest := RunToExit(Next(s, e));
      run := [e] + rest;
      assert run[1..] == rest;
    }
  }

  lemma {:induction false} PausedHoldsWorker(s: Pool, run: seq<Step>, w: nat)
    requires s.q.paused && !s.q.stopNow
    requires w < |s.workers| && !Leaving(s.workers[w])
    requires Legal(s, run) && Uncontrolled(run)
    ensures w < |Exec(s, run).workers| && !Leaving(Exec(s, run).workers[w])
    ensures Exec(s, run).popped == s.popped
    decreases |run|
  {
    if run != [] {
      assert !ControlCall(run[0]);
      assert Uncontrolled(run[1..]);
      PausedHoldsWorker(Next(s, run[0]), run[1..], w);
    }
  }

  /** Steps of a worker of a paused pool until it sleeps or has exited. */
  function ToRest(w: Worker): nat {
    match w
    case GotTask(_) => 3
    case Running(_) => 2
    case Ready => 1
    case Notified => 1
    case GotNothing => 1
    case _ => 0
  }

  lemma RestStep(s: Pool) returns (e: Step)
    requires s.q.paused && !s.q.stopNow && !AtStandstill(s)
    ensures Enabled(s, e) && !ControlCall(e)
    ensures var s' := Next(s, e);
            && s'.q.paused && !s'.q.stopNow
            && (s'.pendingAll < s.pendingAll ||
                (s'.pendingAll == s.pendingAll && SumBy(ToRest, s'.workers) < SumBy(ToRest, s.workers)))
  {
    if s.pendingAll > 0 {
      e := NotifyAll;
    } else {
      var w :| 0 <= w < |s.workers| && !s.workers[w].Blocked? && !s.workers[w].Exited?;
      e := if s.workers[w].Ready? || s.workers[w].Notified? then WaitPop(w)
           else if s.workers[w].Running? then Finish(w)
           else RecordWait(w);
      SumByUpdate(ToRest, s.workers, w, Next(s, e).workers[w]);
    }
  }

  /** A paused pool comes to rest if nobody calls. */
  lemma {:induction false} RunToRest(s: Pool) returns (run: seq<Step>)
    requires s.q.paused && !s.q.stopNow
    ensures Legal(s, run) && Uncontrolled(run) && AtStandstill(Exec(s, run))
    decreases s.pendingAll, SumBy(ToRest, s.workers)
  {
    if AtStandstill(s) {
      run := [];
    } else {
      var e := RestStep(s);
      var rest := RunToRest(Next(s, e));
      run := [e] + rest;
      assert run[1..] == rest;
    }
  }

  /** The joins can return. */
  ghost predicate ShutdownReturns(s: Pool) {
    exists run :: Legal(s, run) && Uncontrolled(run) && AllExited(Exec(s, run))
  }

  /** However the pool is scheduled, when it comes to rest the joins return. */
  ghost predicate ShutdownMustReturn(s: Pool) {
    forall run :: Legal(s, run) && Uncontrolled(run) && AtStandstill(Exec(s, run)) ==> AllExited(Exec(s, run))
  }

  lemma {:induction false} LeavingStays(s: Pool, run: seq<Step>)
    requires Inv(s) && s.q.stop && (Draining(s) || AllLeaving(s))
    requires Legal(s, run) && Uncontrolled(run)
    ensures Inv(Exec(s, run)) && (Draining(Exec(s, run)) || AllLeaving(Exec(s, run)))
    decreases |run|
  {
    if run != [] {
      assert !ControlCall(run[0]);
      StepKeepsInv(s, run[0]);
      OnTheWayOut(s, run[0]);
      LeavingStays(Next(s, run[0]), run[1..]);
    }
  }

  lemma OnTheWayOut(s: Pool, e: Step)
    requires s.q.stop && (Draining(s) || AllLeaving(s))
    requires Enabled(s, e) && !ControlCall(e)
    ensures Next(s, e).q.stop && (Draining(Next(s, e)) || AllLeaving(Next(s, e)))
  {
  }

  /** pause() does not look at the stop flag, so a shutdown can hang. Once a stop is set, the
      joins can return without another control call, and must, exactly when the pool is not
      paused, or stopNow is set, or every worker is already on its way out. */
  lemma ShutdownReturnsExactlyWhen(s: Pool)
    requires Inv(s) && s.q.stop
    ensures ShutdownReturns(s) <==> s.q.stopNow || !s.q.paused || AllLeaving(s)
    ensures ShutdownMustReturn(s) <==> s.q.stopNow || !s.q.paused || AllLeaving(s)
  {
    hide Inv, Legal, Exec;
    if s.q.stopNow || !s.q.paused || AllLeaving(s) {
      var run := RunToExit(s);
      forall run | Legal(s, run) && Uncontrolled(run) && AtStandstill(Exec(s, run))
        ensures AllExited(Exec(s, run))
      {
        LeavingStays(s, run);
        StandstillLeaves(Exec(s, run));
      }
    } else {
      var w :| 0 <= w < |s.workers| && !Leaving(s.workers[w]);
      forall run | Legal(s, run) && Uncontrolled(run)
        ensures !AllExited(Exec(s, run))
      {
        PausedHoldsWorker(s, run, w);
      }
      var run := RunToRest(s);
      assert !AllExited(Exec(s, run));
    }
  }

  lemma StandstillLeaves(s: Pool)
    requires Inv(s) && AtStandstill(s) && (Draining(s) || AllLeaving(s))
    ensures AllExited(s)
  {
  }

  /** Any later pause, in any reachable state, makes an unfinished graceful shutdown hang. */
  lemma LaterPauseHangs(s: Pool)
    requires Inv(s) && s.q.stop && !s.q.stopNow
    requires !AllLeaving(s)
    ensures ShutdownReturns(s) <==> !s.q.paused
    ensures !ShutdownReturns(Next(s, PauseCall))
  {
    var s' := Next(s, PauseCall);
    StepKeepsInv(s, PauseCall);
    ShutdownReturnsExactlyWhen(s);
    assert !AllLeaving(s');
    ShutdownReturnsExactlyWhen(s');
  }

  /** A concrete hang: one worker, one accepted task, then a graceful stop and a pause. */
  lemma PauseAfterStopHangs()
    ensures Legal(Init(1, 1), [Enqueue(7, 0), StopGracefulCall])
    ensures var s := Exec(Init(1, 1), [Enqueue(7, 0), StopGracefulCall]);
            s.accepted == [7] && ShutdownReturns(s) && !ShutdownReturns(Next(s, PauseCall))
  {
    hide ShutdownReturns, SumBy, GatherBy;
    var s := Init(1, 1);
    TwoSteps(s, Enqueue(7, 0), StopGracefulCall);
    var s' := Next(Next(s, Enqueue(7, 0)), StopGracefulCall);
    InitInv(1, 1);
    StepKeepsInv(s, Enqueue(7, 0));
    StepKeepsInv(Next(s, Enqueue(7, 0)), StopGracefulCall);
    assert s'.workers[0] == Ready;
    LaterPauseHangs(s');
  }

  // ---- the same for a caller, who sees its calls and not the workers ----

  /** The control calls of a run, in order. */
  function ControlCalls(run: seq<Step>): seq<Step> {
    if run == [] then [] else (if ControlCall(run[0]) then [run[0]] else []) + ControlCalls(run[1..])
  }

  /** Whether a pause is in force after the calls: the last of pause, resume and graceful stop was
      a pause, and nobody has called stopNow. */
  predicate PauseLeft(held: bool, stopNow: bool, calls: seq<Step>)
    decreases |calls|
  {
    if calls == [] then held && !stopNow
    else match calls[0]
         case PauseCall => PauseLeft(true, stopNow, calls[1..])
         case StopNowCall => PauseLeft(false, true, calls[1..])
         case _ => PauseLeft(false, stopNow, calls[1..])
  }

  lemma StepDecidesPause(s: Pool, e: Step)
    requires s.q.stop && Enabled(s, e)
    ensures var q' := Next(s, e).q;
            && q'.stop && q'.stopNow == (s.q.stopNow || e.StopNowCall?)
            && q'.paused == if ControlCall(e) then e.PauseCall? else s.q.paused
  {
  }

  lemma {:induction false} CallsDecidePause(s: Pool, run: seq<Step>)
    requires s.q.stop && Legal(s, run)
    ensures var q := Exec(s, run).q;
            q.stop && (q.paused && !q.stopNow <==> PauseLeft(s.q.paused, s.q.stopNow, ControlCalls(run)))
    decreases |run|
  {
    hide Next, Enabled;
    if run != [] {
      var e, rest := run[0], ControlCalls(run[1..]);
      StepDecidesPause(s, e);
      CallsDecidePause(Next(s, e), run[1..]);
      if ControlCall(e) {
        assert ControlCalls(run)[0] == e && ControlCalls(run)[1..] == rest;
      } else {
        assert ControlCalls(run) == rest;
      }
    }
  }

  lemma {:induction false} CallsAlone(s: Pool, calls: seq<Step>)
    requires forall i :: 0 <= i < |calls| ==> ControlCall(calls[i])
    ensures Legal(s, calls) && ControlCalls(calls) == calls
    ensures Exec(s, calls).workers == s.workers
    decreases |calls|
  {
    if calls != [] {
      assert ControlCall(calls[0]);
      CallsAlone(Next(s, calls[0]), calls[1..]);
      assert [calls[0]] + calls[1..] == calls;
    }
  }

  lemma {:induction false} CallsAppend(run: seq<Step>, rest: seq<Step>)
    ensures ControlCalls(run + rest) == ControlCalls(run) + ControlCalls(rest)
  {
    hide ControlCall;
    if run == [] {
      assert run + rest == rest;
    } else {
      assert (run + rest)[1..] == run[1..] + rest;
      CallsAppend(run[1..], rest);
      var first, later := if ControlCall(run[0]) then [run[0]] else [], ControlCalls(run[1..]);
      assert (first + later) + ControlCalls(rest) == first + (later + ControlCalls(rest));
    }
  }

  lemma {:induction false} NoCalls(run: seq<Step>)
    requires Uncontrolled(run)
    ensures ControlCalls(run) == []
  {
    if run != [] {
      assert !ControlCall(run[0]);
      NoCalls(run[1..]);
    }
  }

  /** After a stop that finds a worker at work or asleep: whatever else is scheduled how, a pool
      that comes to rest after these calls has all its workers exited, exactly if the calls leave
      no pause in force. */
  lemma CallsLetShutdownReturn(s: Pool, calls: seq<Step>)
    requires Inv(s) && s.q.stop && !AllLeaving(s)
    requires forall i :: 0 <= i < |calls| ==> ControlCall(calls[i])
    ensures (forall run :: Legal(s, run) && ControlCalls(run) == calls && AtStandstill(Exec(s, run)) ==>
               AllExited(Exec(s, run)))
            <==> !PauseLeft(s.q.paused, s.q.stopNow, calls)
  {
    hide Inv, Legal, Exec, PauseLeft;
    if PauseLeft(s.q.paused, s.q.stopNow, calls) {
      CallsAlone(s, calls);
      CallsDecidePause(s, calls);
      var s' := Exec(s, calls);
      var w :| 0 <= w < |s.workers| && !Leaving(s.workers[w]);
      var rest := RunToRest(s');
      PausedHoldsWorker(s', rest, w);
      LegalAppend(s, calls, rest);
      CallsAppend(calls, rest);
      NoCalls(rest);
      assert !AllExited(Exec(s, calls + rest));
    } else {
      forall run | Legal(s, run) && ControlCalls(run) == calls && AtStandstill(Exec(s, run))
        ensures AllExited(Exec(s, run))
      {
        CallsDecidePause(s, run);
        RunKeepsInv(s, run);
        StandstillIsExit(Exec(s, run));
      }
    }
  }
}
