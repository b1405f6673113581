/** The minimum of an array and how often it occurs: the sequential search, and the parallel one
    that takes a mutex for every element. */
module MinCount {
  import opened Blocks
  import opened Folds

  const INT_MAX := 0x7fff_ffff

  type Int32 = x: int | -0x8000_0000 <= x <= INT_MAX

  datatype MinResult = MinResult(minValue: Int32, count: nat)

  const START := MinResult(INT_MAX, 0)

  /** r is the least element of xs and its multiplicity. */
  predicate IsMinCount(xs: multiset<Int32>, r: MinResult) {
    && r.minValue in xs
    && (forall x :: x in xs ==> r.minValue <= x)
    && r.count == xs[r.minValue]
  }

  lemma MinCountUnique(xs: multiset<Int32>, r: MinResult, r': MinResult)
    requires IsMinCount(xs, r) && IsMinCount(xs, r')
    ensures r == r'
  {
  }

  /** What a loop knows that started from INT_MAX and 0 and has seen exactly the elements done. */
  predicate Tracks(done: multiset<Int32>, r: MinResult) {
    && (r.minValue == INT_MAX || r.minValue in done)
    && (forall x :: x in done ==> r.minValue <= x)
    && r.count == done[r.minValue]
  }

  lemma TracksToTheEnd(done: multiset<Int32>, r: MinResult)
    requires Tracks(done, r) && done != multiset{}
    ensures IsMinCount(done, r)
  {
  }

  /** The update that every variant applies to one element. */
  function Absorb(r: MinResult, x: Int32): MinResult {
    if x < r.minValue then MinResult(x, 1)
    else if x == r.minValue then r.(count := r.count + 1)
    else r
  }

  lemma AbsorbTracks(done: multiset<Int32>, r: MinResult, x: Int32)
    requires Tracks(done, r)
    ensures Tracks(done + multiset{x}, Absorb(r, x))
  {
  }

  method FindMinAndCount(a: seq<Int32>) returns (r: MinResult)
    ensures a == [] ==> r == MinResult(0, 0)
    ensures a != [] ==> IsMinCount(multiset(a), r)
  {
    if |a| == 0 {
      return MinResult(0, 0);
    }
    var minValue, count := a[0], 1;
    for i := 1 to |a|
      invariant IsMinCount(multiset(a[..i]), MinResult(minValue, count))
    {
      assert a[..i + 1] == a[..i] + [a[i]];
      if a[i] < minValue {
        minValue := a[i];
        count := 1;
      } else if a[i] == minValue {
        count := count + 1;
      }
    }
    assert a[..|a|] == a;
    return MinResult(minValue, count);
  }

  // ---- how far each thread has come in its block ----

  function Lo(a: seq<Int32>, k: nat, t: nat): nat
    requires k > 0
  {
    BlockStart(|a|, k, t)
  }

  function Hi(a: seq<Int32>, k: nat, t: nat): nat
    requires k > 0
  {
    BlockStart(|a|, k, t + 1)
  }

  predicate InBlocks(a: seq<Int32>, k: nat, pos: seq<nat>) {
    && k > 0 && |pos| == k
    && forall t :: 0 <= t < k ==> Lo(a, k, t) <= pos[t] <= Hi(a, k, t) <= |a|
  }

  predicate Finished(a: seq<Int32>, k: nat, pos: seq<nat>)
    requires k > 0
  {
    |pos| == k && forall t :: 0 <= t < k ==> pos[t] == Hi(a, k, t)
  }

  function StartPos(a: seq<Int32>, k: nat): (pos: seq<nat>)
    requires k > 0
    ensures InBlocks(a, k, pos)
    ensures forall t :: 0 <= t < k ==> pos[t] == Lo(a, k, t)
  {
    var pos := seq(k, t requires 0 <= t < k => Lo(a, k, t));
    assert InBlocks(a, k, pos) by {
      forall t | 0 <= t < k ensures Lo(a, k, t) <= pos[t] <= Hi(a, k, t) <= |a| {
        BlockInside(|a|, k, t);
      }
    }
    pos
  }

  function Same<T>(x: T): T { x }

  function DoneBy(a: seq<Int32>, k: nat, pos: seq<nat>, t: nat): multiset<Int32>
    requires InBlocks(a, k, pos) && t < k
  {
    multiset(a[Lo(a, k, t)..pos[t]])
  }

  function DoneParts(a: seq<Int32>, k: nat, pos: seq<nat>): seq<multiset<Int32>>
    requires InBlocks(a, k, pos)
  {
    seq(k, t requires 0 <= t < k => DoneBy(a, k, pos, t))
  }

  /** The elements processed so far, by whichever thread. */
  function Done(a: seq<Int32>, k: nat, pos: seq<nat>): multiset<Int32>
    requires InBlocks(a, k, pos)
  {
    GatherBy(Same<multiset<Int32>>, DoneParts(a, k, pos))
  }

  lemma DoneStep(a: seq<Int32>, k: nat, pos: seq<nat>, t: nat)
    requires InBlocks(a, k, pos) && t < k && pos[t] < Hi(a, k, t)
    ensures InBlocks(a, k, pos[t := pos[t] + 1])
    ensures Done(a, k, pos[t := pos[t] + 1]) == Done(a, k, pos) + multiset{a[pos[t]]}
  {
    hide BlockStart, GatherBy;
    var pos' := pos[t := pos[t] + 1];
    var parts := DoneParts(a, k, pos);
    var grown := parts[t] + multiset{a[pos[t]]};
    assert a[Lo(a, k, t)..pos[t] + 1] == a[Lo(a, k, t)..pos[t]] + [a[pos[t]]];
    assert DoneParts(a, k, pos') == parts[t := grown];
    GatherByUpdate(Same<multiset<Int32>>, parts, t, grown);
    var before, after := Done(a, k, pos), Done(a, k, pos');
    assert after + parts[t] == (before + multiset{a[pos[t]]}) + parts[t];
    assert after == (after + parts[t]) - parts[t];
    assert before + multiset{a[pos[t]]} == ((before + multiset{a[pos[t]]}) + parts[t]) - parts[t];
  }

  lemma DoneAtStart(a: seq<Int32>, k: nat)
    requires k > 0
    ensures Done(a, k, StartPos(a, k)) == multiset{}
  {
    GatherByNothing(Same<multiset<Int32>>, DoneParts(a, k, StartPos(a, k)));
  }

  lemma {:induction false} DoneSuffix(a: seq<Int32>, k: nat, pos: seq<nat>, t: nat)
    requires InBlocks(a, k, pos) && Finished(a, k, pos) && t <= k
    ensures Lo(a, k, t) <= |a|
    ensures GatherBy(Same<multiset<Int32>>, DoneParts(a, k, pos)[t..]) == multiset(a[Lo(a, k, t)..])
    decreases k - t
  {
    hide BlockStart, GatherBy;
    var parts := DoneParts(a, k, pos);
    if t < k {
      DoneSuffix(a, k, pos, t + 1);
      assert parts[t] == multiset(a[Lo(a, k, t)..Hi(a, k, t)]);
      GatherFrom(parts, t);
      SplitAt(a, Lo(a, k, t), Hi(a, k, t));
    } else {
      BlockEnds(|a|, k);
      GatherNone(parts[t..]);
    }
  }

  lemma GatherFrom(parts: seq<multiset<Int32>>, t: nat)
    requires t < |parts|
    ensures GatherBy(Same<multiset<Int32>>, parts[t..]) == parts[t] + GatherBy(Same<multiset<Int32>>, parts[t + 1..])
  {
  }

  lemma GatherNone(parts: seq<multiset<Int32>>)
    requires parts == []
    ensures GatherBy(Same<multiset<Int32>>, parts) == multiset{}
  {
  }

  lemma SplitAt(a: seq<Int32>, i: nat, j: nat)
    requires i <= j <= |a|
    ensures multiset(a[i..]) == multiset(a[i..j]) + multiset(a[j..])
  {
    assert a[i..] == a[i..j] + a[j..];
  }

  lemma DoneAtEnd(a: seq<Int32>, k: nat, pos: seq<nat>)
    requires InBlocks(a, k, pos) && Finished(a, k, pos)
    ensures Done(a, k, pos) == multiset(a)
  {
    DoneSuffix(a, k, pos, 0);
    BlockEnds(|a|, k);
    assert DoneParts(a, k, pos)[0..] == DoneParts(a, k, pos);
    assert a[0..] == a;
  }

  // ---- the mutex version as a step system: one critical section per element ----

  datatype Locked = Locked(pos: seq<nat>, shared: MinResult)

  function LockedStart(a: seq<Int32>, k: nat): Locked
    requires k > 0
  {
    Locked(StartPos(a, k), START)
  }

  predicate CanLock(a: seq<Int32>, k: nat, s: Locked, t: nat) {
    InBlocks(a, k, s.pos) && t < k && s.pos[t] < Hi(a, k, t)
  }

  function LockStep(a: seq<Int32>, k: nat, s: Locked, t: nat): Locked
    requires CanLock(a, k, s, t)
  {
    Locked(s.pos[t := s.pos[t] + 1], Absorb(s.shared, a[s.pos[t]]))
  }

  predicate LegalLocks(a: seq<Int32>, k: nat, s: Locked, run: seq<nat>)
    decreases |run|
  {
    run == [] || (CanLock(a, k, s, run[0]) && LegalLocks(a, k, LockStep(a, k, s, run[0]), run[1..]))
  }

  function ExecLocks(a: seq<Int32>, k: nat, s: Locked, run: seq<nat>): Locked
    requires LegalLocks(a, k, s, run)
    decreases |run|
  {
    if run == [] then s else ExecLocks(a, k, LockStep(a, k, s, run[0]), run[1..])
  }

  predicate LockedInv(a: seq<Int32>, k: nat, s: Locked) {
    InBlocks(a, k, s.pos) && Tracks(Done(a, k, s.pos), s.shared)
  }

  lemma LockStepKeepsInv(a: seq<Int32>, k: nat, s: Locked, t: nat)
    requires LockedInv(a, k, s) && CanLock(a, k, s, t)
    ensures LockedInv(a, k, LockStep(a, k, s, t))
  {
    DoneStep(a, k, s.pos, t);
    AbsorbTracks(Done(a, k, s.pos), s.shared, a[s.pos[t]]);
  }

  lemma {:induction false} LockRunKeepsInv(a: seq<Int32>, k: nat, s: Locked, run: seq<nat>)
    requires LockedInv(a, k, s) && LegalLocks(a, k, s, run)
    ensures LockedInv(a, k, ExecLocks(a, k, s, run))
    decreases |run|
  {
    if run != [] {
      LockStepKeepsInv(a, k, s, run[0]);
      LockRunKeepsInv(a, k, LockStep(a, k, s, run[0]), run[1..]);
    }
  }

  lemma LockedStartInv(a: seq<Int32>, k: nat)
    requires k > 0
    ensures LockedInv(a, k, LockedStart(a, k))
  {
    DoneAtStart(a, k);
  }

  /** Every interleaving of the critical sections: at each moment the shared pair is the minimum
      and multiplicity of what has been processed, and in the end those of the whole array. */
  lemma MutexIsExact(a: seq<Int32>, k: nat, run: seq<nat>)
    requires a != [] && k > 0
    requires LegalLocks(a, k, LockedStart(a, k), run)
    ensures var s := ExecLocks(a, k, LockedStart(a, k), run);
            && InBlocks(a, k, s.pos)
            && Tracks(Done(a, k, s.pos), s.shared)
            && (Finished(a, k, s.pos) ==> IsMinCount(multiset(a), s.shared))
  {
    LockedStartInv(a, k);
    LockRunKeepsInv(a, k, LockedStart(a, k), run);
    var s := ExecLocks(a, k, LockedStart(a, k), run);
    if Finished(a, k, s.pos) {
      LockedAtEnd(a, k, s);
    }
  }

  lemma LockedAtEnd(a: seq<Int32>, k: nat, s: Locked)
    requires a != [] && LockedInv(a, k, s) && Finished(a, k, s.pos)
    ensures IsMinCount(multiset(a), s.shared)
  {
    DoneAtEnd(a, k, s.pos);
    assert a[0] in multiset(a);
    TracksToTheEnd(multiset(a), s.shared);
  }

  lemma PositionsGrow(a: seq<Int32>, k: nat, pos: seq<nat>, t: nat)
    requires InBlocks(a, k, pos) && t < k && pos[t] < Hi(a, k, t)
    ensures SumBy(Same<nat>, pos) < SumBy(Same<nat>, pos[t := pos[t] + 1]) <= |a| * k
  {
    DoneStep(a, k, pos, t);
    SumByUpdate(Same<nat>, pos, t, pos[t] + 1);
    SumByBound(Same<nat>, pos[t := pos[t] + 1], |a|);
  }

  /** One pass of the loop of thread t, under the mutex. */
  method ProcessNext(a: seq<Int32>, k: nat, s: Locked, t: nat) returns (s': Locked)
    requires LockedInv(a, k, s) && CanLock(a, k, s, t)
    ensures s' == LockStep(a, k, s, t) && LockedInv(a, k, s')
    ensures SumBy(Same<nat>, s.pos) < SumBy(Same<nat>, s'.pos) <= |a| * k
  {
    hide BlockStart, Done, SumBy;
    LockStepKeepsInv(a, k, s, t);
    PositionsGrow(a, k, s.pos, t);
    var value, globalResult := a[s.pos[t]], s.shared;
    if value < globalResult.minValue {
      globalResult := globalResult.(minValue := value);
      globalResult := globalResult.(count := 1);
    } else if value == globalResult.minValue {
      globalResult := globalResult.(count := globalResult.count + 1);
    }
    s' := Locked(s.pos[t := s.pos[t] + 1], globalResult);
  }

  /** The parallel search with the mutex; which thread gets it next is left open. */
  method FindMinAndCountParallelMutex(a: seq<Int32>, threadCount: nat) returns (r: MinResult)
    requires threadCount > 0
    ensures a == [] ==> r == MinResult(0, 0)
    ensures a != [] ==> IsMinCount(multiset(a), r)
  {
    if |a| == 0 {
      return MinResult(0, 0);
    }
    var blocks := HandOutBlocks(|a|, threadCount);
    var s := LockedStart(a, threadCount);
    LockedStartInv(a, threadCount);
    while exists t :: 0 <= t < threadCount && s.pos[t] < blocks[t].1
      invariant LockedInv(a, threadCount, s)
      decreases |a| * threadCount - SumBy(Same<nat>, s.pos)
    {
      var t: nat :| t < threadCount && s.pos[t] < blocks[t].1;
      s := ProcessNext(a, threadCount, s, t);
    }
    LockedAtEnd(a, threadCount, s);
    r := s.shared;
  }
}
