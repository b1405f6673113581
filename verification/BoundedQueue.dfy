/** The bounded task queue: its state as a value, the critical section of each operation, and
    the class whose methods run those sections in place. */
module BoundedQueue {

  datatype PushResult = PushResult(accepted: bool, becameFull: bool, sizeAfter: nat)

  /** What one pass through the critical section of waitPop ends with: the condition variable
      puts the caller to sleep, or the call returns with or without a task. */
  datatype PopResult<+T> =
    | Sleep
    | NoTask(sizeAfter: nat)
    | HasTask(task: T, sizeAfter: nat)

  datatype Queue<+T> = Queue(tasks: seq<T>, capacity: nat, accepting: bool, stop: bool, stopNow: bool, paused: bool) {

    predicate Valid() {
      && |tasks| <= capacity
      && accepting == !stop
      && (stopNow ==> stop && |tasks| == 0)
    }

    /** The predicate handed to the condition variable. */
    predicate WaitReady() {
      stopNow || (!paused && (|tasks| > 0 || stop))
    }

    /** A stop is in force and no pause holds it back. */
    predicate Draining() {
      stop && (stopNow || !paused)
    }

    predicate Admits() {
      !(!accepting || stop || stopNow || |tasks| >= capacity)
    }

    function PauseSection(): Queue<T> { this.(paused := true) }

    function ResumeSection(): Queue<T> { this.(paused := false) }

    function StopGracefulSection(): Queue<T> { this.(accepting := false, stop := true, paused := false) }

    function StopNowSection(): Queue<T> {
      this.(accepting := false, stopNow := true, stop := true, paused := false, tasks := [])
    }
  }

  function EmptyQueue<T>(capacity: nat): Queue<T> {
    Queue([], capacity, true, false, false, false)
  }

  function PushSection<T>(q: Queue<T>, task: T): (Queue<T>, PushResult) {
    if !q.Admits() then (q, PushResult(false, false, |q.tasks|))
    else
      var q' := q.(tasks := q.tasks + [task]);
      (q', PushResult(true, |q'.tasks| >= q.capacity, |q'.tasks|))
  }

  function WaitPopSection<T>(q: Queue<T>): (Queue<T>, PopResult<T>) {
    if !q.WaitReady() then (q, Sleep)
    else if q.stopNow || (q.stop && |q.tasks| == 0) then (q, NoTask(|q.tasks|))
    else (q.(tasks := q.tasks[1..]), HasTask(q.tasks[0], |q.tasks| - 1))
  }

  /** What a producer can rely on: below capacity and before any stop a task is taken, the full
      flag is raised exactly by the push that fills the last slot, and a refusal changes nothing. */
  lemma PushMeaning<T>(q: Queue<T>, task: T)
    requires q.Valid()
    ensures var (q', r) := PushSection(q, task);
            && q'.Valid()
            && (r.accepted <==> !q.stop && |q.tasks| < q.capacity)
            && (r.becameFull <==> !q.stop && |q.tasks| + 1 == q.capacity)
            && r.sizeAfter == |q'.tasks|
            && q'.tasks == q.tasks + (if r.accepted then [task] else [])
            && q' == q.(tasks := q'.tasks)
  {
  }

  /** What a consumer can rely on: nothing is taken while paused or after stopNow, an empty-handed
      return means the queue is drained for good, and a sleeper leaves the queue as it was. */
  lemma WaitPopMeaning<T>(q: Queue<T>)
    requires q.Valid()
    ensures var (q', r) := WaitPopSection(q);
            && q'.Valid()
            && (r.HasTask? <==> !q.stopNow && !q.paused && |q.tasks| > 0)
            && (r.HasTask? ==> q.tasks == [r.task] + q'.tasks && r.sizeAfter == |q'.tasks|)
            && (r.NoTask? ==> q.stop && |q.tasks| == 0 && r.sizeAfter == 0)
            && (r.Sleep? <==> !q.stopNow && (q.paused || (|q.tasks| == 0 && !q.stop)))
            && q' == q.(tasks := q'.tasks)
            && (!r.HasTask? ==> q' == q)
  {
  }

  /** A pause holds every consumer back, stop or no stop, unless stopNow has been called; it
      touches nothing else, so producers do not notice. */
  lemma PauseMeaning<T>(q: Queue<T>)
    ensures var q' := q.PauseSection();
            && (!q.stopNow ==> WaitPopSection(q').1.Sleep?)
            && q'.paused && q'.tasks == q.tasks && q'.capacity == q.capacity
            && q'.accepting == q.accepting && q'.stop == q.stop && q'.stopNow == q.stopNow
  {
  }

  /** A resume lets the next consumer have the first task, if there is one; it touches nothing else. */
  lemma ResumeMeaning<T>(q: Queue<T>)
    ensures var q' := q.ResumeSection();
            && (!q.stopNow && q.tasks != [] ==>
                  WaitPopSection(q').1 == HasTask(q.tasks[0], |q.tasks| - 1) && WaitPopSection(q').0.tasks == q.tasks[1..])
            && !q'.paused && q'.tasks == q.tasks && q'.capacity == q.capacity
            && q'.accepting == q.accepting && q'.stop == q.stop && q'.stopNow == q.stopNow
  {
  }

  /** A graceful stop turns producers away, keeps the tasks for the consumers, paused or not, and
      lets the consumers go once the queue is empty. */
  lemma StopGracefulMeaning<T>(q: Queue<T>, task: T)
    requires q.Valid()
    ensures var q' := q.StopGracefulSection();
            && q'.Valid() && q'.tasks == q.tasks && q'.capacity == q.capacity && q'.stopNow == q.stopNow
            && q'.stop && !q'.accepting && !q'.paused
            && !PushSection(q', task).1.accepted
            && WaitPopSection(q').1 == if q.tasks == [] then NoTask(0) else HasTask(q.tasks[0], |q.tasks| - 1)
  {
  }

  /** An immediate stop turns producers away, empties the queue and lets the consumers go, even if
      a pause follows. */
  lemma StopNowMeaning<T>(q: Queue<T>, task: T)
    ensures var q' := q.StopNowSection();
            && q'.Valid() && q'.tasks == [] && q'.capacity == q.capacity
            && q'.stopNow && q'.stop && !q'.accepting && !q'.paused
            && !PushSection(q', task).1.accepted
            && WaitPopSection(q').1 == NoTask(0) == WaitPopSection(q'.PauseSection()).1
  {
  }

  class ThreadSafeQueue<T> {
    var tasks: seq<T>
    const capacityValue: nat
    var accepting: bool
    var stop: bool
    var stopNowFlag: bool
    var paused: bool

    /** The state the critical sections of this class work on. */
    ghost function Abs(): Queue<T>
      reads this
    {
      Queue(tasks, capacityValue, accepting, stop, stopNowFlag, paused)
    }

    constructor (capacity: nat)
      ensures Abs() == EmptyQueue(capacity)
      ensures Abs().Valid()
      ensures tasks == [] && capacityValue == capacity && accepting && !stop && !stopNowFlag && !paused
    {
      capacityValue := capacity;
      tasks := [];
      accepting, stop, stopNowFlag, paused := true, false, false, false;
    }

    method Push(task: T) returns (r: PushResult)
      requires Abs().Valid()
      modifies this
      ensures (Abs(), r) == PushSection(old(Abs()), task)
      ensures Abs().Valid()
    {
      var sizeBefore := |tasks|;
      if !accepting || stop || stopNowFlag || sizeBefore >= capacityValue {
        return PushResult(false, false, sizeBefore);
      }
      tasks := tasks + [task];
      var sizeAfter := |tasks|;
      var becameFull := sizeAfter >= capacityValue;
      return PushResult(true, becameFull, sizeAfter);
    }

    /** One pass of waitPop under the mutex: evaluate the wait predicate, and unless the caller
        goes to sleep run the guards that follow it. */
    method WaitPop() returns (r: PopResult<T>)
      requires Abs().Valid()
      modifies this
      ensures (Abs(), r) == WaitPopSection(old(Abs()))
      ensures Abs().Valid()
    {
      if !(stopNowFlag || (!paused && (|tasks| > 0 || stop))) {
        return Sleep;
      }
      if stopNowFlag {
        return NoTask(|tasks|);
      }
      if stop && |tasks| == 0 {
        return NoTask(|tasks|);
      }
      // The guard on an empty queue that follows in the source is never taken.
      assert |tasks| > 0;
      var task := tasks[0];
      tasks := tasks[1..];
      return HasTask(task, |tasks|);
    }

    method Pause()
      modifies this
      ensures Abs() == old(Abs()).PauseSection()
      ensures paused && tasks == old(tasks) && accepting == old(accepting)
      ensures stop == old(stop) && stopNowFlag == old(stopNowFlag)
    {
      paused := true;
    }

    method Resume()
      modifies this
      ensures Abs() == old(Abs()).ResumeSection()
      ensures !paused && tasks == old(tasks) && accepting == old(accepting)
      ensures stop == old(stop) && stopNowFlag == old(stopNowFlag)
    {
      paused := false;
    }

    method StopGraceful()
      modifies this
      ensures Abs() == old(Abs()).StopGracefulSection()
      ensures stop && !accepting && !paused && tasks == old(tasks) && stopNowFlag == old(stopNowFlag)
    {
      accepting := false;
      stop := true;
      paused := false;
    }

    method StopNow()
      modifies this
      ensures Abs() == old(Abs()).StopNowSection()
      ensures stop && stopNowFlag && !accepting && !paused && tasks == []
    {
      accepting := false;
      stopNowFlag := true;
      stop := true;
      paused := false;
      while |tasks| > 0
        invariant Abs() == old(Abs()).StopNowSection().(tasks := tasks)
        decreases |tasks|
      {
        tasks := tasks[1..];
      }
    }
  }
}
