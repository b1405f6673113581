/** On which inputs the lock-free count is right under every schedule. This part defines the
    condition, which looks at the array and the thread count only, and shows it sufficient. */
module CountSafety {
  import opened Blocks
  import opened MinCount
  import opened AtomicMinCount
  import opened AtomicRefinement

  function OwnerOf(a: seq<Int32>, k: nat, i: nat): nat
    requires k > 0 && i < |a|
  {
    Owner(|a|, k, i)
  }

  /** Nothing before i in its block is less than (or, strictly, as little as) a[i]. */
  predicate Record(a: seq<Int32>, k: nat, i: nat, strict: bool)
    requires k > 0 && i < |a|
  {
    forall j :: Lo(a, k, OwnerOf(a, k, i)) <= j < i ==> a[i] < a[j] || (!strict && a[i] == a[j])
  }

  /** The owner of i can find the shared minimum equal to a[i]: it is the initial value, or some
      other element can bring it there. */
  predicate Matchable(a: seq<Int32>, k: nat, i: nat)
    requires k > 0 && i < |a|
  {
    && Record(a, k, i, false)
    && (a[i] == INT_MAX || exists j: nat :: j < |a| && j != i && a[j] == a[i] && Record(a, k, j, true))
  }

  /** b is the only occurrence of the minimum, and outside its block no element is matchable. */
  predicate LoneMinimum(a: seq<Int32>, k: nat, b: nat)
    requires k > 0
  {
    && b < |a| && IsMinimum(a, a[b])
    && (forall j :: 0 <= j < |a| && j != b ==> a[j] != a[b])
    && (forall i: nat :: i < |a| && Matchable(a, k, i) ==> OwnerOf(a, k, i) == OwnerOf(a, k, b))
  }

  predicate AllIntMax(a: seq<Int32>) {
    forall i :: 0 <= i < |a| ==> a[i] == INT_MAX
  }

  predicate CountSafe(a: seq<Int32>, k: nat)
    requires k > 0
  {
    || k == 1
    || |a| == 1
    || AllIntMax(a)
    || exists b: nat :: b < |a| && LoneMinimum(a, k, b)
  }

  function Pair(s: Sys): MinResult {
    MinResult(s.minValue, s.count)
  }

  ghost predicate ExactOnAllSchedules(a: seq<Int32>, k: nat)
    requires k > 0
  {
    forall run :: Legal(a, k, Init(a, k), run) && Finished(a, k, Exec(a, k, Init(a, k), run).pos) ==>
      IsMinCount(multiset(a), Pair(Exec(a, k, Init(a, k), run)))
  }

  // ---- one thread, or one element ----

  lemma OneElementBlocks(k: nat, t: nat)
    requires 0 < t < k
    ensures BlockStart(1, k, t) == BlockStart(1, k, t + 1) == 1
  {
  }

  lemma SoleThread(a: seq<Int32>, k: nat, s: Sys, e: Step)
    requires Inv(a, k, s) && Enabled(a, k, s, e)
    requires k == 1 || |a| == 1
    ensures Quiet(s, e.t)
  {
    if e.t > 0 {
      OneElementBlocks(k, e.t);
    }
    forall u | 0 <= u < k && u != e.t
      ensures !Pending(s.pc[u])
    {
      OneElementBlocks(k, u);
      assert ThreadInv(a, k, s, u);
    }
  }

  lemma {:induction false} SoleThreadUndisturbed(a: seq<Int32>, k: nat, s: Sys, run: seq<Step>)
    requires Inv(a, k, s) && Legal(a, k, s, run)
    requires k == 1 || |a| == 1
    ensures Undisturbed(a, k, s, run)
    decreases |run|
  {
    if run != [] {
      SoleThread(a, k, s, run[0]);
      StepKeepsInv(a, k, s, run[0]);
      SoleThreadUndisturbed(a, k, Next(a, k, s, run[0]), run[1..]);
    }
  }

  // ---- a lone minimum ----

  /** The thread owning j has made the exchange that puts a[j] into the shared minimum. */
  predicate Reached(a: seq<Int32>, k: nat, s: Sys, j: nat)
    requires Shape(a, k, s) && j < |a|
  {
    var t := OwnerOf(a, k, j);
    s.pos[t] > j || (s.pos[t] == j && s.pc[t].Store?)
  }

  predicate Provenance(a: seq<Int32>, k: nat, s: Sys)
    requires Shape(a, k, s)
  {
    s.minValue == INT_MAX ||
    exists j: nat :: j < |a| && a[j] == s.minValue && Record(a, k, j, true) && Reached(a, k, s, j)
  }

  lemma DoneHas(a: seq<Int32>, k: nat, pos: seq<nat>, j: nat)
    requires InBlocks(a, k, pos) && j < |a| && j < pos[OwnerOf(a, k, j)]
    ensures a[j] in Done(a, k, pos)
  {
    var t := OwnerOf(a, k, j);
    assert a[Lo(a, k, t)..pos[t]][j - Lo(a, k, t)] == a[j];
    assert a[j] in DoneParts(a, k, pos)[t];
    PartInGather(DoneParts(a, k, pos), t);
  }

  lemma {:induction false} PartInGather(parts: seq<multiset<Int32>>, t: nat)
    requires t < |parts|
    ensures parts[t] <= Folds.GatherBy(Same<multiset<Int32>>, parts)
  {
    if t > 0 {
      PartInGather(parts[1..], t - 1);
    }
  }

  /** What has been passed in the block of a current element is not below the shared minimum. */
  lemma PassedNotBelow(a: seq<Int32>, k: nat, s: Sys, t: nat)
    requires Inv(a, k, s) && t < k && s.pos[t] < Hi(a, k, t)
    ensures OwnerOf(a, k, s.pos[t]) == t
    ensures forall j :: Lo(a, k, t) <= j < s.pos[t] ==> s.minValue <= a[j]
  {
    OwnerUnique(|a|, k, s.pos[t], t);
    forall j | Lo(a, k, t) <= j < s.pos[t]
      ensures s.minValue <= a[j]
    {
      OwnerUnique(|a|, k, j, t);
      DoneHas(a, k, s.pos, j);
    }
  }

  lemma StepKeepsReached(a: seq<Int32>, k: nat, s: Sys, e: Step, j: nat)
    requires Shape(a, k, s) && Enabled(a, k, s, e) && j < |a|
    requires Reached(a, k, s, j) && Shape(a, k, Next(a, k, s, e))
    ensures Reached(a, k, Next(a, k, s, e), j)
  {
  }

  /** A successful exchange is made for a strict record of the block. */
  lemma ExchangeIsRecord(a: seq<Int32>, k: nat, s: Sys, e: Step)
    requires Inv(a, k, s) && Enabled(a, k, s, e)
    requires Next(a, k, s, e).minValue != s.minValue
    requires Shape(a, k, Next(a, k, s, e))
    ensures var i := s.pos[e.t];
            && Next(a, k, s, e).minValue == a[i] && Record(a, k, i, true)
            && Reached(a, k, Next(a, k, s, e), i)
  {
    PassedNotBelow(a, k, s, e.t);
    assert ThreadInv(a, k, s, e.t);
  }

  lemma StepKeepsProvenance(a: seq<Int32>, k: nat, s: Sys, e: Step)
    requires Inv(a, k, s) && Provenance(a, k, s) && Enabled(a, k, s, e)
    requires Shape(a, k, Next(a, k, s, e))
    ensures Provenance(a, k, Next(a, k, s, e))
  {
    if Next(a, k, s, e).minValue != s.minValue {
      ExchangeIsRecord(a, k, s, e);
    } else if s.minValue != INT_MAX {
      var j: nat :| j < |a| && a[j] == s.minValue && Record(a, k, j, true) && Reached(a, k, s, j);
      StepKeepsReached(a, k, s, e, j);
    }
  }

  /** A thread that finds the minimum equal to its element owns a matchable element. */
  lemma EqualMeansMatchable(a: seq<Int32>, k: nat, s: Sys, t: nat)
    requires Inv(a, k, s) && Provenance(a, k, s)
    requires t < k && s.pos[t] < Hi(a, k, t) && s.pc[t] == Check && a[s.pos[t]] == s.minValue
    ensures OwnerOf(a, k, s.pos[t]) == t && Matchable(a, k, s.pos[t])
    ensures s.minValue != INT_MAX ==>
              exists j: nat :: j < |a| && j != s.pos[t] && a[j] == a[s.pos[t]]
  {
    PassedNotBelow(a, k, s, t);
    if s.minValue != INT_MAX {
      var j: nat :| j < |a| && a[j] == s.minValue && Record(a, k, j, true) && Reached(a, k, s, j);
      assert j != s.pos[t];
    }
  }

  /** With a lone minimum at b, no other block ever adds, and once b is processed the count is 1. */
  predicate LoneInv(a: seq<Int32>, k: nat, s: Sys, b: nat)
    requires k > 0 && b < |a| && Shape(a, k, s)
  {
    var owner := OwnerOf(a, k, b);
    && (forall t :: 0 <= t < k && t != owner ==> !s.pc[t].Add?)
    && (s.pos[owner] >= b ==> !s.pc[owner].Add?)
    && (s.pos[owner] > b ==> s.count == 1)
  }

  /** With a lone minimum at b, only its owner finds its element equal to the shared minimum,
      and only before b; and at b itself the owner never gets as far as the equality test. */
  predicate ChecksBefore(a: seq<Int32>, k: nat, s: Sys, t: nat, b: nat)
    requires Shape(a, k, s) && b < |a| && t < k && s.pos[t] < Hi(a, k, t)
  {
    s.pc[t].Check? ==>
      && (a[s.pos[t]] == s.minValue ==> t == OwnerOf(a, k, b) && s.pos[t] < b)
      && (t == OwnerOf(a, k, b) ==> s.pos[t] != b)
  }

  lemma CheckAtMinimum(a: seq<Int32>, k: nat, s: Sys, t: nat)
    requires Inv(a, k, s) && t < k && s.pos[t] < Hi(a, k, t) && s.pc[t].Check?
    requires IsMinimum(a, a[s.pos[t]])
    ensures s.minValue == a[s.pos[t]]
  {
    assert ThreadInv(a, k, s, t);
  }

  lemma LoneChecksBefore(a: seq<Int32>, k: nat, s: Sys, t: nat, b: nat)
    requires Inv(a, k, s) && Provenance(a, k, s) && t < k && s.pos[t] < Hi(a, k, t)
    requires LoneMinimum(a, k, b) && a[b] != INT_MAX
    ensures ChecksBefore(a, k, s, t, b)
  {
    if s.pc[t].Check? {
      var i := s.pos[t];
      if i == b {
        CheckAtMinimum(a, k, s, t);
      }
      if a[i] == s.minValue {
        EqualMeansMatchable(a, k, s, t);
        if i > b {
          MinimumReached(a, k, s, b);
        }
      }
    }
  }

  lemma StepKeepsLone(a: seq<Int32>, k: nat, s: Sys, e: Step, b: nat)
    requires Shape(a, k, s) && Enabled(a, k, s, e) && b < |a|
    requires ChecksBefore(a, k, s, e.t, b) && LoneInv(a, k, s, b)
    requires Shape(a, k, Next(a, k, s, e))
    ensures LoneInv(a, k, Next(a, k, s, e), b)
  {
  }

  lemma MinimumReached(a: seq<Int32>, k: nat, s: Sys, b: nat)
    requires Inv(a, k, s) && b < |a| && IsMinimum(a, a[b])
    requires s.pos[OwnerOf(a, k, b)] > b
    ensures s.minValue == a[b]
  {
    DoneHas(a, k, s.pos, b);
  }

  lemma {:induction false} RunKeepsLone(a: seq<Int32>, k: nat, s: Sys, run: seq<Step>, b: nat)
    requires Inv(a, k, s) && Provenance(a, k, s) && Legal(a, k, s, run)
    requires LoneMinimum(a, k, b) && a[b] != INT_MAX && LoneInv(a, k, s, b)
    ensures Inv(a, k, Exec(a, k, s, run)) && LoneInv(a, k, Exec(a, k, s, run), b)
    decreases |run|
  {
    if run != [] {
      StepKeepsInv(a, k, s, run[0]);
      StepKeepsProvenance(a, k, s, run[0]);
      LoneChecksBefore(a, k, s, run[0].t, b);
      StepKeepsLone(a, k, s, run[0], b);
      RunKeepsLone(a, k, Next(a, k, s, run[0]), run[1..], b);
    }
  }

  lemma OccursOnce(a: seq<Int32>, b: nat)
    requires b < |a| && forall j :: 0 <= j < |a| && j != b ==> a[j] != a[b]
    ensures multiset(a)[a[b]] == 1
  {
    assert a == a[..b] + [a[b]] + a[b + 1..];
    assert a[b] !in a[..b] && a[b] !in a[b + 1..];
    assert multiset(a[..b])[a[b]] == 0 && multiset(a[b + 1..])[a[b]] == 0;
  }

  lemma LoneMinimumExact(a: seq<Int32>, k: nat, run: seq<Step>, b: nat)
    requires k > 0 && LoneMinimum(a, k, b) && a[b] != INT_MAX
    requires Legal(a, k, Init(a, k), run) && Finished(a, k, Exec(a, k, Init(a, k), run).pos)
    ensures IsMinCount(multiset(a), Pair(Exec(a, k, Init(a, k), run)))
  {
    InitInv(a, k);
    var owner := OwnerOf(a, k, b);
    RunKeepsLone(a, k, Init(a, k), run, b);
    var s := Exec(a, k, Init(a, k), run);
    assert s.pos[owner] == Hi(a, k, owner) > b;
    MinimumReached(a, k, s, b);
    OccursOnce(a, b);
    forall x | x in multiset(a) ensures a[b] <= x {
      assert x in a;
    }
  }

  // ---- every element INT_MAX ----

  lemma {:induction false} AllIntMaxCount(a: seq<Int32>)
    requires AllIntMax(a)
    ensures multiset(a)[INT_MAX] == |a|
  {
    if a != [] {
      AllIntMaxCount(a[1..]);
      assert a == [a[0]] + a[1..];
    }
  }

  lemma AllIntMaxExact(a: seq<Int32>, k: nat, run: seq<Step>)
    requires a != [] && k > 0 && AllIntMax(a)
    requires Legal(a, k, Init(a, k), run) && Finished(a, k, Exec(a, k, Init(a, k), run).pos)
    ensures IsMinCount(multiset(a), Pair(Exec(a, k, Init(a, k), run)))
  {
    LockFreeCountBounds(a, k, run);
    LockFreeMinimum(a, k, run);
    AllIntMaxCount(a);
    assert a[0] in multiset(a);
    forall x | x in multiset(a) ensures x == INT_MAX {
      assert x in a;
    }
  }

  lemma MinimumIntMax(a: seq<Int32>, b: nat)
    requires b < |a| && IsMinimum(a, a[b])
    ensures a[b] == INT_MAX ==> AllIntMax(a)
  {
    forall i | 0 <= i < |a| ensures a[b] <= a[i] {
      assert a[i] in a;
    }
  }

  lemma SafeRunIsExact(a: seq<Int32>, k: nat, run: seq<Step>)
    requires a != [] && k > 0 && CountSafe(a, k)
    requires Legal(a, k, Init(a, k), run) && Finished(a, k, Exec(a, k, Init(a, k), run).pos)
    ensures IsMinCount(multiset(a), Pair(Exec(a, k, Init(a, k), run)))
  {
    if AllIntMax(a) {
      AllIntMaxExact(a, k, run);
    } else if k == 1 || |a| == 1 {
      InitInv(a, k);
      SoleThreadUndisturbed(a, k, Init(a, k), run);
      var locks := UndisturbedIsExact(a, k, run);
    } else {
      var b: nat :| b < |a| && LoneMinimum(a, k, b);
      MinimumIntMax(a, b);
      LoneMinimumExact(a, k, run, b);
    }
  }

  lemma SafeIsExact(a: seq<Int32>, k: nat)
    requires a != [] && k > 0 && CountSafe(a, k)
    ensures ExactOnAllSchedules(a, k)
  {
    forall run | Legal(a, k, Init(a, k), run) && Finished(a, k, Exec(a, k, Init(a, k), run).pos)
      ensures IsMinCount(multiset(a), Pair(Exec(a, k, Init(a, k), run)))
    {
      SafeRunIsExact(a, k, run);
    }
  }

  /** The run of a search, and what the search knows of the state it has led to. */
  ghost predicate Searching(a: seq<Int32>, k: nat, run: seq<Step>, s: Sys)
    requires k > 0
  {
    Legal(a, k, Init(a, k), run) && Exec(a, k, Init(a, k), run) == s && Inv(a, k, s)
  }

  lemma SearchOn(a: seq<Int32>, k: nat, run: seq<Step>, s: Sys, e: Step)
    requires k > 0 && Searching(a, k, run, s) && Enabled(a, k, s, e)
    ensures Searching(a, k, run + [e], Next(a, k, s, e))
    ensures Measure(a, k, Next(a, k, s, e)) <= Measure(a, k, s)
    ensures !e.spurious ==> Measure(a, k, Next(a, k, s, e)) < Measure(a, k, s)
  {
    hide Legal, Exec, Inv, Next, Enabled, Measure;
    OneStep(a, k, s, e);
    LegalAppend(a, k, Init(a, k), run, [e]);
    MeasureShrinks(a, k, s, e);
  }

  lemma SearchStarts(a: seq<Int32>, k: nat)
    requires k > 0
    ensures Searching(a, k, [], Init(a, k))
  {
    hide Inv;
    InitInv(a, k);
  }

  lemma SearchEnds(a: seq<Int32>, k: nat, run: seq<Step>, s: Sys)
    requires a != [] && k > 0 && Searching(a, k, run, s) && Finished(a, k, s.pos)
    ensures IsMinimum(a, s.minValue) && 1 <= s.count <= |a|
    ensures CountSafe(a, k) ==> IsMinCount(multiset(a), Pair(s))
    ensures OfSomeSchedule(a, k, Pair(s))
  {
    hide CountSafe;
    CountAtEnd(a, k, s);
    MinimumAtEnd(a, k, s);
    if CountSafe(a, k) {
      SafeRunIsExact(a, k, run);
    }
  }

  /** Some interleaving of the atomic operations, run to the end, leaves r behind. */
  ghost predicate OfSomeSchedule(a: seq<Int32>, k: nat, r: MinResult)
    requires k > 0
  {
    exists run :: Legal(a, k, Init(a, k), run) && Finished(a, k, Exec(a, k, Init(a, k), run).pos)
                  && r == MinResult(Exec(a, k, Init(a, k), run).minValue, Exec(a, k, Init(a, k), run).count)
  }

  /** The lock-free search; the scheduler picks any thread, and any finite number of exchanges
      may fail spuriously. The answer is that of the interleaving it picks. */
  method FindMinAndCountParallelAtomic(a: seq<Int32>, threadCount: nat) returns (r: MinResult)
    requires threadCount > 0
    ensures a == [] ==> r == MinResult(0, 0)
    ensures a != [] ==> IsMinimum(a, r.minValue) && 1 <= r.count <= |a|
    ensures a != [] && CountSafe(a, threadCount) ==> IsMinCount(multiset(a), r)
    ensures a != [] ==> OfSomeSchedule(a, threadCount, r)
  {
    if |a| == 0 {
      return MinResult(0, 0);
    }
    var blocks := HandOutBlocks(|a|, threadCount);
    var s := Init(a, threadCount);
    ghost var run: seq<Step> := [];
    SearchStarts(a, threadCount);
    var failures: nat :| true;
    while exists t :: 0 <= t < threadCount && s.pos[t] < blocks[t].1
      invariant Searching(a, threadCount, run, s)
      decreases failures, Measure(a, threadCount, s)
    {
      hide BlockStart, MinInv, CountInv, Measure, Legal, Exec;
      var t: nat :| t < threadCount && s.pos[t] < blocks[t].1;
      var spurious: bool :| spurious ==> failures > 0 && s.pc[t] == Cas(s.minValue);
      var e := Step(t, spurious);
      SearchOn(a, threadCount, run, s, e);
      run := run + [e];
      failures := if spurious then failures - 1 else failures;
      s := Next(a, threadCount, s, e);
    }
    SearchEnds(a, threadCount, run, s);
    r := Pair(s);
  }
}
