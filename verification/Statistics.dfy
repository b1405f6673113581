/** The statistics of the pool. Times are integers in nanoseconds, the running mean is a real. */
module Statistics {

  datatype Stats = Stats(
    createdThreads: nat,
    droppedTasks: nat,
    averageWaitMs: real,
    waitSamples: nat,
    fullQueueTime: int,
    fullQueueMin: int,
    fullQueueMax: int
  )

  datatype Tracker = Tracker(stats: Stats, queueWasFull: bool, queueFullStart: int)

  const FRESH := Tracker(Stats(0, 0, 0.0, 0, 0, 0, 0), false, 0)

  function Clamp(duration: int): nat {
    if duration < 0 then 0 else duration
  }

  function WithInterval(s: Stats, duration: nat): Stats {
    s.(fullQueueTime := s.fullQueueTime + duration,
       fullQueueMin := if s.fullQueueMin == 0 || duration < s.fullQueueMin then duration else s.fullQueueMin,
       fullQueueMax := if duration > s.fullQueueMax then duration else s.fullQueueMax)
  }

  function CloseInterval(t: Tracker, now: int): Tracker {
    t.(stats := WithInterval(t.stats, Clamp(now - t.queueFullStart)), queueWasFull := false)
  }

  function NoteFull(t: Tracker, size: nat, capacity: nat, now: int): Tracker {
    if capacity != 0 && size >= capacity && !t.queueWasFull then t.(queueWasFull := true, queueFullStart := now) else t
  }

  function NoteNotFull(t: Tracker, size: nat, capacity: nat, now: int): Tracker {
    if capacity != 0 && t.queueWasFull && size < capacity then CloseInterval(t, now) else t
  }

  function Finalize(t: Tracker, now: int): Tracker {
    if t.queueWasFull then CloseInterval(t, now) else t
  }

  // ---- what the figures mean, over the history of samples and intervals ----

  function RealSum(xs: seq<real>): real {
    if xs == [] then 0.0 else RealSum(xs[..|xs| - 1]) + xs[|xs| - 1]
  }

  function Sum(xs: seq<nat>): nat {
    if xs == [] then 0 else Sum(xs[..|xs| - 1]) + xs[|xs| - 1]
  }

  function Max(xs: seq<nat>): nat {
    if xs == [] then 0
    else
      var m := Max(xs[..|xs| - 1]);
      if xs[|xs| - 1] > m then xs[|xs| - 1] else m
  }

  /** The least interval since the last interval of length zero. */
  function MinSinceZero(xs: seq<nat>): nat {
    if xs == [] || xs[|xs| - 1] == 0 then 0
    else
      var m := MinSinceZero(xs[..|xs| - 1]);
      if m == 0 || xs[|xs| - 1] < m then xs[|xs| - 1] else m
  }

  predicate IsMin(xs: seq<nat>, m: nat) {
    m in xs && forall x :: x in xs ==> m <= x
  }

  predicate IsMax(xs: seq<nat>, m: nat) {
    m in xs && forall x :: x in xs ==> x <= m
  }

  lemma {:induction false} MaxIsExact(xs: seq<nat>)
    requires xs != []
    ensures IsMax(xs, Max(xs))
  {
    var front := xs[..|xs| - 1];
    assert xs == front + [xs[|xs| - 1]];
    if front != [] {
      MaxIsExact(front);
    }
  }

  lemma {:induction false} MinSinceZeroInRange(xs: seq<nat>)
    ensures MinSinceZero(xs) <= Max(xs) <= Sum(xs)
    ensures xs != [] ==> MinSinceZero(xs) in xs
    ensures xs != [] && xs[|xs| - 1] > 0 ==> MinSinceZero(xs) > 0
  {
    if xs != [] {
      MinSinceZeroInRange(xs[..|xs| - 1]);
      assert xs == xs[..|xs| - 1] + [xs[|xs| - 1]];
    }
  }

  lemma {:induction false} MinSinceZeroPositive(xs: seq<nat>)
    requires xs != []
    requires forall x :: x in xs ==> x > 0
    ensures IsMin(xs, MinSinceZero(xs))
  {
    var front := xs[..|xs| - 1];
    assert xs == front + [xs[|xs| - 1]];
    if front != [] {
      assert forall x :: x in front ==> x in xs;
      MinSinceZeroPositive(front);
    }
  }

  /** In general it is the true minimum of the intervals after the last one of length zero. */
  lemma {:induction false} MinSinceZeroMeaning(front: seq<nat>, tail: seq<nat>)
    requires forall x :: x in tail ==> x > 0
    ensures tail == [] ==> MinSinceZero(front + [0] + tail) == 0
    ensures tail != [] ==> IsMin(tail, MinSinceZero(front + [0] + tail))
  {
    var xs := front + [0] + tail;
    if tail != [] {
      var init, last := tail[..|tail| - 1], tail[|tail| - 1];
      assert tail == init + [last];
      assert xs[..|xs| - 1] == front + [0] + init;
      assert forall x :: x in init ==> x in tail;
      MinSinceZeroMeaning(front, init);
    }
  }

  /** The recorded minimum starts over at a zero interval, because zero also means unset: it is
      the true minimum exactly when no interval was zero or the last one is. */
  lemma MinIsExactExactlyWhen(xs: seq<nat>)
    requires xs != []
    ensures IsMin(xs, MinSinceZero(xs)) <==> 0 !in xs || xs[|xs| - 1] == 0
  {
    if 0 !in xs {
      MinSinceZeroPositive(xs);
    } else {
      MinSinceZeroInRange(xs);
    }
  }

  /** A concrete case: two threads take their times in one order and leave their notes in the
      other, so the queue is noted full at 5 and not full at 3, which counts as an interval of 0;
      then it is full from 10 to 15. The reported minimum is 5. */
  lemma ZeroIntervalIsForgotten()
    ensures var once := NoteNotFull(NoteFull(FRESH, 1, 1, 5), 0, 1, 3);
            var twice := NoteNotFull(NoteFull(once, 1, 1, 10), 0, 1, 15);
            var intervals := [Clamp(3 - 5), Clamp(15 - 10)];
            && twice.stats.fullQueueTime == Sum(intervals)
            && twice.stats.fullQueueMin == MinSinceZero(intervals) == 5
            && IsMin(intervals, 0) && !IsMin(intervals, 5)
  {
  }

  /** For k intervals of positive length the total lies between k times the least and k times
      the greatest. */
  lemma {:induction false} TotalBetweenBounds(xs: seq<nat>, lo: nat, hi: nat)
    requires forall x :: x in xs ==> lo <= x <= hi
    ensures |xs| * lo <= Sum(xs) <= |xs| * hi
  {
    if xs != [] {
      var front := xs[..|xs| - 1];
      assert forall x :: x in front ==> x in xs;
      TotalBetweenBounds(front, lo, hi);
      assert xs[|xs| - 1] in xs;
      OneMore(|front|, lo);
      OneMore(|front|, hi);
    }
  }

  lemma OneMore(n: nat, x: nat)
    ensures (n + 1) * x == n * x + x
  {
  }

  lemma FullTimeBounds(xs: seq<nat>)
    requires forall x :: x in xs ==> x > 0
    ensures |xs| * MinSinceZero(xs) <= Sum(xs) <= |xs| * Max(xs)
    ensures MinSinceZero(xs) <= Max(xs) <= Sum(xs)
  {
    MinSinceZeroInRange(xs);
    if xs != [] {
      MinSinceZeroPositive(xs);
      MaxIsExact(xs);
    }
    TotalBetweenBounds(xs, MinSinceZero(xs), Max(xs));
  }

  /** mean is the exact mean of the samples; without samples any value will do. */
  ghost predicate IsMean(mean: real, samples: seq<real>) {
    mean * (|samples| as real) == RealSum(samples)
  }

  /** One step of the running mean keeps it exact. */
  lemma MeanStep(mean: real, samples: seq<real>, d: real)
    requires IsMean(mean, samples)
    ensures IsMean(mean + (d - mean) / ((|samples| + 1) as real), samples + [d])
  {
  }

  class StatsTracker {
    var stats: Stats
    var queueWasFull: bool
    var queueFullStart: int
    ghost var waits: seq<real>     // every wait recorded so far, in milliseconds
    ghost var intervals: seq<nat>  // every full-queue interval closed so far

    ghost function Abs(): Tracker
      reads this
    {
      Tracker(stats, queueWasFull, queueFullStart)
    }

    /** The figures are the exact mean of the waits, and total, greatest and least-since-zero of
        the intervals. */
    ghost predicate Valid()
      reads this
    {
      && stats.waitSamples == |waits|
      && IsMean(stats.averageWaitMs, waits)
      && stats.fullQueueTime == Sum(intervals)
      && stats.fullQueueMax == Max(intervals)
      && stats.fullQueueMin == MinSinceZero(intervals)
    }

    constructor ()
      ensures Valid()
      ensures Abs() == FRESH && waits == [] && intervals == []
      ensures stats == Stats(0, 0, 0.0, 0, 0, 0, 0) && !queueWasFull
    {
      stats := Stats(0, 0, 0.0, 0, 0, 0, 0);
      queueWasFull, queueFullStart := false, 0;
      waits, intervals := [], [];
    }

    method SetCreatedThreads(count: nat)
      requires Valid()
      modifies this`stats
      ensures Valid()
      ensures stats == old(stats).(createdThreads := count)
    {
      stats := stats.(createdThreads := count);
    }

    method RecordWaitTime(durationMs: real, samples: nat)
      requires Valid()
      modifies this`stats, this`waits
      ensures Valid()
      ensures waits == old(waits) + seq(samples, _ => durationMs)
      ensures stats == old(stats).(waitSamples := |waits|, averageWaitMs := stats.averageWaitMs)
    {
      if samples == 0 {
        assert waits == old(waits) + seq(samples, _ => durationMs);
        return;
      }
      for i := 0 to samples
        invariant Valid()
        invariant waits == old(waits) + seq(i, _ => durationMs)
        invariant stats == old(stats).(waitSamples := |waits|, averageWaitMs := stats.averageWaitMs)
      {
        MeanStep(stats.averageWaitMs, waits, durationMs);
        stats := stats.(waitSamples := stats.waitSamples + 1);
        var delta := durationMs - stats.averageWaitMs;
        stats := stats.(averageWaitMs := stats.averageWaitMs + delta / (stats.waitSamples as real));
        waits := waits + [durationMs];
      }
    }

    method RecordDroppedTask()
      requires Valid()
      modifies this`stats
      ensures Valid()
      ensures stats == old(stats).(droppedTasks := old(stats).droppedTasks + 1)
    {
      stats := stats.(droppedTasks := stats.droppedTasks + 1);
    }

    method NoteQueueFullIfNeeded(size: nat, capacity: nat, now: int)
      requires Valid()
      modifies this`queueWasFull, this`queueFullStart
      ensures Valid()
      ensures Abs() == NoteFull(old(Abs()), size, capacity, now)
    {
      if capacity == 0 {
        return;
      }
      if size >= capacity && !queueWasFull {
        queueWasFull := true;
        queueFullStart := now;
      }
    }

    method NoteQueueNotFullIfNeeded(size: nat, capacity: nat, now: int)
      requires Valid()
      modifies this`stats, this`queueWasFull, this`intervals
      ensures Valid()
      ensures Abs() == NoteNotFull(old(Abs()), size, capacity, now)
      ensures intervals == old(intervals) +
                           (if capacity != 0 && size < capacity && old(queueWasFull) then [Clamp(now - queueFullStart)] else [])
    {
      if capacity == 0 {
        return;
      }
      if queueWasFull && size < capacity {
        RecordQueueFull(now - queueFullStart);
        queueWasFull := false;
      }
    }

    method FinalizeQueueFullIfNeeded(now: int)
      requires Valid()
      modifies this`stats, this`queueWasFull, this`intervals
      ensures Valid()
      ensures Abs() == Finalize(old(Abs()), now)
      ensures intervals == old(intervals) + (if old(queueWasFull) then [Clamp(now - queueFullStart)] else [])
    {
      if queueWasFull {
        RecordQueueFull(now - queueFullStart);
        queueWasFull := false;
      }
    }

    method GetSnapshot() returns (s: Stats)
      requires Valid()
      ensures s == stats
      ensures s.waitSamples > 0 ==> s.averageWaitMs == RealSum(waits) / (|waits| as real)
      ensures s.fullQueueMin <= s.fullQueueMax <= s.fullQueueTime == Sum(intervals)
    {
      s := stats;
      MinSinceZeroInRange(intervals);
      if |waits| > 0 {
        var n := |waits| as real;
        assert s.averageWaitMs == s.averageWaitMs * n / n;
      }
    }

    method RecordQueueFull(duration: int)
      requires Valid()
      modifies this`stats, this`intervals
      ensures Valid()
      ensures stats == WithInterval(old(stats), Clamp(duration))
      ensures intervals == old(intervals) + [Clamp(duration)]
    {
      var d := duration;
      if d < 0 {
        d := 0;
      }
      stats := stats.(fullQueueTime := stats.fullQueueTime + d);
      if stats.fullQueueMin == 0 || d < stats.fullQueueMin {
        stats := stats.(fullQueueMin := d);
      }
      if d > stats.fullQueueMax {
        stats := stats.(fullQueueMax := d);
      }
      ghost var before := intervals;
      intervals := intervals + [Clamp(duration)];
      assert intervals[..|intervals| - 1] == before;
    }
  }
}
