/** The full-queue clock. Here each push and each pop is serialised with the note that follows
    it, and the clock never runs backwards; then the tracker measures exactly the time the
    queue spends at its capacity. */
module FullQueueTime {
  import opened BoundedQueue
  import opened Statistics

  datatype Meter = Meter(
    q: Queue<nat>,
    t: Tracker,
    clock: int,
    fullTotal: int   // time spent at a positive capacity up to clock
  )

  datatype Event =
    | EnqueueAt(task: nat, now: int)
    | PopAt(now: int)
    | PauseAt(now: int)
    | ResumeAt(now: int)
    | StopGracefulAt(now: int)
    | StopNowAt(now: int)
    | FinalizeAt(now: int)   // the statistics call of a shutdown, after its stop

  function Start(capacity: nat, now: int): Meter {
    Meter(EmptyQueue(capacity), FRESH, now, 0)
  }

  predicate IsFull(q: Queue<nat>) {
    q.capacity > 0 && |q.tasks| >= q.capacity
  }

  /** Let time pass: the queue stays as it is until now. */
  function Tick(m: Meter, now: int): Meter {
    m.(clock := now, fullTotal := m.fullTotal + (if IsFull(m.q) then now - m.clock else 0))
  }

  function Apply(m: Meter, e: Event): Meter {
    var m' := Tick(m, e.now);
    match e
    case EnqueueAt(task, now) =>
      var (q', r) := PushSection(m.q, task);
      m'.(q := q', t := NoteFull(m.t, r.sizeAfter, m.q.capacity, now))
    case PopAt(now) =>
      var (q', r) := WaitPopSection(m.q);
      if r.HasTask? then m'.(q := q', t := NoteNotFull(m.t, r.sizeAfter, m.q.capacity, now)) else m'
    case PauseAt(_) => m'.(q := m.q.PauseSection())
    case ResumeAt(_) => m'.(q := m.q.ResumeSection())
    case StopGracefulAt(_) => m'.(q := m.q.StopGracefulSection())
    case StopNowAt(_) => m'.(q := m.q.StopNowSection())
    case FinalizeAt(now) => m'.(t := Finalize(m.t, now))
  }

  predicate Timely(m: Meter, events: seq<Event>)
    decreases |events|
  {
    events == [] || (m.clock <= events[0].now && Timely(Apply(m, events[0]), events[1..]))
  }

  function Play(m: Meter, events: seq<Event>): Meter
    decreases |events|
  {
    if events == [] then m else Play(Apply(m, events[0]), events[1..])
  }

  /** A shutdown has got no further than a graceful stop. */
  predicate BeforeFinalize(events: seq<Event>) {
    forall e :: e in events ==> !e.StopNowAt? && !e.FinalizeAt?
  }

  predicate Exact(m: Meter) {
    && m.q.Valid()
    && (m.t.queueWasFull <==> IsFull(m.q))
    && (m.t.queueWasFull ==> m.t.queueFullStart <= m.clock)
    && m.t.stats.fullQueueTime + (if m.t.queueWasFull then m.clock - m.t.queueFullStart else 0) == m.fullTotal
  }

  lemma EventKeepsExact(m: Meter, e: Event)
    requires Exact(m) && m.clock <= e.now && !e.StopNowAt? && !e.FinalizeAt?
    ensures Exact(Apply(m, e))
  {
  }

  lemma {:induction false} PlayKeepsExact(m: Meter, events: seq<Event>)
    requires Exact(m) && Timely(m, events) && BeforeFinalize(events)
    ensures Exact(Play(m, events)) && Play(m, events).q.capacity == m.q.capacity
    decreases |events|
  {
    if events != [] {
      EventKeepsExact(m, events[0]);
      PlayKeepsExact(Apply(m, events[0]), events[1..]);
    }
  }

  /** Up to the finalisation of a shutdown the flag says whether the queue is at its positive
      capacity, and recorded time plus the open interval is the time spent full. */
  lemma TracksFullTime(capacity: nat, begin: int, events: seq<Event>)
    requires Timely(Start(capacity, begin), events) && BeforeFinalize(events)
    ensures var m := Play(Start(capacity, begin), events);
            && (m.t.queueWasFull <==> capacity > 0 && |m.q.tasks| == capacity)
            && m.t.stats.fullQueueTime + (if m.t.queueWasFull then m.clock - m.t.queueFullStart else 0) == m.fullTotal
  {
    PlayKeepsExact(Start(capacity, begin), events);
  }

  /** The finalisation of a shutdown closes the books: the recorded time is all of it. */
  lemma ShutdownClosesBooks(capacity: nat, begin: int, events: seq<Event>, now: int)
    requires Timely(Start(capacity, begin), events) && BeforeFinalize(events)
    requires Play(Start(capacity, begin), events).clock <= now
    ensures var m := Play(Start(capacity, begin), events);
            && Finalize(m.t, now).stats.fullQueueTime == Tick(m, now).fullTotal
            && !Finalize(m.t, now).queueWasFull
  {
    PlayKeepsExact(Start(capacity, begin), events);
  }

  // ---- after the finalisation ----

  /** A finalisation has come after the last push. */
  predicate FinalizedSincePush(events: seq<Event>) {
    events != [] &&
    var front, last := events[..|events| - 1], events[|events| - 1];
    last.FinalizeAt? || (!last.EnqueueAt? && FinalizedSincePush(front))
  }

  /** In every run, timely or not, a full queue is flagged unless the flag was finalised away. */
  predicate Flagged(m: Meter, finalized: bool) {
    m.q.Valid() && (IsFull(m.q) ==> (m.t.queueWasFull <==> !finalized))
  }

  lemma EventKeepsFlagged(m: Meter, e: Event, finalized: bool)
    requires Flagged(m, finalized)
    ensures Flagged(Apply(m, e), e.FinalizeAt? || (!e.EnqueueAt? && finalized))
  {
  }

  lemma PlaySnoc(m: Meter, events: seq<Event>, e: Event)
    ensures Play(m, events + [e]) == Apply(Play(m, events), e)
    decreases |events|
  {
    if events == [] {
      assert [] + [e] == [e] && [e][1..] == [];
    } else {
      assert (events + [e])[1..] == events[1..] + [e];
      PlaySnoc(Apply(m, events[0]), events[1..], e);
    }
  }

  lemma {:induction false} PlayKeepsFlagged(capacity: nat, begin: int, events: seq<Event>)
    ensures Flagged(Play(Start(capacity, begin), events), FinalizedSincePush(events))
    ensures Play(Start(capacity, begin), events).q.capacity == capacity
  {
    if events != [] {
      var front, last := events[..|events| - 1], events[|events| - 1];
      assert events == front + [last];
      PlaySnoc(Start(capacity, begin), front, last);
      PlayKeepsFlagged(capacity, begin, front);
      EventKeepsFlagged(Play(Start(capacity, begin), front), last, FinalizedSincePush(front));
    }
  }

  /** After a stop every push is refused, and yet it opens a new full-queue interval exactly if
      the queue is still at its positive capacity and a finalisation has come after the last
      push. */
  lemma RefusedPushOpensExactlyWhen(capacity: nat, begin: int, events: seq<Event>, task: nat, now: int)
    requires Play(Start(capacity, begin), events).q.stop
    ensures var m := Play(Start(capacity, begin), events);
            var m' := Apply(m, EnqueueAt(task, now));
            && m'.q == m.q
            && (m'.t.queueWasFull && !m.t.queueWasFull <==>
                  capacity > 0 && |m.q.tasks| == capacity && FinalizedSincePush(events))
            && (m'.t != m.t ==> m'.t == m.t.(queueWasFull := true, queueFullStart := now))
  {
    PlayKeepsFlagged(capacity, begin, events);
  }

  /** A concrete run: a queue of one slot is filled at 0 and stopped, finalised at 5, and a push
      refused at 8 opens an interval again; the worker takes the task at 9. */
  lemma ReopenedAfterShutdown()
    ensures var m := Play(Start(1, 0), [EnqueueAt(7, 0), StopGracefulAt(4), FinalizeAt(5), EnqueueAt(8, 8), PopAt(9)]);
            m.fullTotal == 9 && m.t.stats.fullQueueTime == 6 && !m.t.queueWasFull
  {
  }
}
