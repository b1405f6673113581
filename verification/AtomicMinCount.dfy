/** The lock-free search, one step per atomic operation, under sequentially consistent
    interleaving and with spurious failures of the weak compare-exchange. */
module AtomicMinCount {
  import opened Blocks
  import opened Folds
  import opened MinCount

  /** Where a thread is within its current element; the local comparison that follows an atomic
      operation is part of that operation's step. */
  datatype Pc =
    | Load                 // about to load the shared minimum
    | Cas(current: Int32)  // the element is below current: about to compare-exchange
    | Store                // the exchange succeeded: about to store 1 into the count
    | Check                // the element is not below the minimum seen: about to load it again
    | Add                  // that load returned the element: about to add 1 to the count

  datatype Sys = Sys(
    pos: seq<nat>,
    pc: seq<Pc>,
    minValue: Int32,
    count: nat,
    writes: nat            // history: elements whose store or add has been made
  )

  datatype Step = Step(t: nat, spurious: bool)

  function Init(a: seq<Int32>, k: nat): Sys
    requires k > 0
  {
    Sys(StartPos(a, k), seq(k, _ => Load), INT_MAX, 0, 0)
  }

  predicate Shape(a: seq<Int32>, k: nat, s: Sys) {
    InBlocks(a, k, s.pos) && |s.pc| == k
  }

  predicate Enabled(a: seq<Int32>, k: nat, s: Sys, e: Step) {
    && Shape(a, k, s) && e.t < k && s.pos[e.t] < Hi(a, k, e.t)
    && (e.spurious ==> s.pc[e.t] == Cas(s.minValue))
  }

  /** After an unsuccessful look at the minimum, try to exchange or go on to the equality test. */
  function Decide(value: Int32, current: Int32): Pc {
    if value < current then Cas(current) else Check
  }

  function Stay(s: Sys, t: nat, pc: Pc): Sys
    requires t < |s.pc|
  {
    s.(pc := s.pc[t := pc])
  }

  function Advance(s: Sys, t: nat): Sys
    requires t < |s.pc| && t < |s.pos|
  {
    s.(pos := s.pos[t := s.pos[t] + 1], pc := s.pc[t := Load])
  }

  function Next(a: seq<Int32>, k: nat, s: Sys, e: Step): Sys
    requires Enabled(a, k, s, e)
  {
    var t := e.t;
    var value := a[s.pos[t]];
    match s.pc[t]
    case Load => Stay(s, t, Decide(value, s.minValue))
    case Cas(current) =>
      if s.minValue == current && !e.spurious then Stay(s, t, Store).(minValue := value)
      else Stay(s, t, Decide(value, s.minValue))
    case Store => Advance(s, t).(count := 1, writes := s.writes + 1)
    case Check => if value == s.minValue then Stay(s, t, Add) else Advance(s, t)
    case Add => Advance(s, t).(count := s.count + 1, writes := s.writes + 1)
  }

  predicate Legal(a: seq<Int32>, k: nat, s: Sys, run: seq<Step>)
    decreases |run|
  {
    run == [] || (Enabled(a, k, s, run[0]) && Legal(a, k, Next(a, k, s, run[0]), run[1..]))
  }

  function Exec(a: seq<Int32>, k: nat, s: Sys, run: seq<Step>): Sys
    requires Legal(a, k, s, run)
    decreases |run|
  {
    if run == [] then s else Exec(a, k, Next(a, k, s, run[0]), run[1..])
  }

  lemma OneStep(a: seq<Int32>, k: nat, s: Sys, e: Step)
    requires Enabled(a, k, s, e)
    ensures Legal(a, k, s, [e]) && Exec(a, k, s, [e]) == Next(a, k, s, e)
  {
  }

  lemma {:induction false} LegalAppend(a: seq<Int32>, k: nat, s: Sys, run: seq<Step>, run': seq<Step>)
    requires Legal(a, k, s, run) && Legal(a, k, Exec(a, k, s, run), run')
    ensures Legal(a, k, s, run + run')
    ensures Exec(a, k, s, run + run') == Exec(a, k, Exec(a, k, s, run), run')
    decreases |run|
  {
    hide Next, Enabled;
    if run == [] {
      assert run + run' == run';
    } else {
      LegalAppend(a, k, Next(a, k, s, run[0]), run[1..], run');
      assert (run + run')[1..] == run[1..] + run';
    }
  }

  // ---- the invariant ----

  predicate Seen(a: seq<Int32>, x: Int32) {
    x == INT_MAX || x in a
  }

  /** What a thread in the middle of an element knows: the value it compared against was seen
      and is no less than the shared minimum, and past the exchange loop the element is not
      below the minimum any more. */
  predicate LocalInv(a: seq<Int32>, minValue: Int32, value: Int32, pc: Pc) {
    match pc
    case Load => true
    case Cas(current) => value < current && minValue <= current && Seen(a, current)
    case Store => minValue <= value < INT_MAX
    case _ => minValue <= value
  }

  predicate ThreadInv(a: seq<Int32>, k: nat, s: Sys, t: nat)
    requires Shape(a, k, s) && t < k
  {
    if s.pos[t] == Hi(a, k, t) then s.pc[t] == Load
    else LocalInv(a, s.minValue, a[s.pos[t]], s.pc[t])
  }

  predicate SomeStore(s: Sys) {
    exists t :: 0 <= t < |s.pc| && s.pc[t].Store?
  }

  predicate CountInv(a: seq<Int32>, k: nat, s: Sys)
    requires Shape(a, k, s)
  {
    && s.count <= s.writes <= |Done(a, k, s.pos)|
    && (s.minValue == INT_MAX ==> s.count == |Done(a, k, s.pos)|)
    && (s.minValue < INT_MAX ==> s.count >= 1 || SomeStore(s))
  }

  predicate MinInv(a: seq<Int32>, k: nat, s: Sys)
    requires Shape(a, k, s)
  {
    && Seen(a, s.minValue)
    && (forall x :: x in Done(a, k, s.pos) ==> s.minValue <= x)
    && (forall t :: 0 <= t < k ==> ThreadInv(a, k, s, t))
  }

  predicate Inv(a: seq<Int32>, k: nat, s: Sys) {
    Shape(a, k, s) && MinInv(a, k, s) && CountInv(a, k, s)
  }

  lemma InitInv(a: seq<Int32>, k: nat)
    requires k > 0
    ensures Inv(a, k, Init(a, k))
  {
    DoneAtStart(a, k);
  }

  /** The shared minimum never increases, a step touches only the stepping thread, and a spurious
      failure, which only an exchange can have, leaves everything as it was. */
  lemma StepFrame(a: seq<Int32>, k: nat, s: Sys, e: Step)
    requires Shape(a, k, s) && MinInv(a, k, s) && Enabled(a, k, s, e)
    ensures var s' := Next(a, k, s, e);
            && s'.minValue <= s.minValue
            && Shape(a, k, s')
            && (forall u :: 0 <= u < k && u != e.t ==> s'.pos[u] == s.pos[u] && s'.pc[u] == s.pc[u])
            && (s'.pos == s.pos || s'.pos == s.pos[e.t := s.pos[e.t] + 1])
            && (e.spurious ==> s.pc[e.t] == Cas(s.minValue) && s' == s)
  {
    assert ThreadInv(a, k, s, e.t);
    if e.spurious {
      assert Next(a, k, s, e).pc == s.pc;
    }
  }

  lemma StepKeepsMin(a: seq<Int32>, k: nat, s: Sys, e: Step)
    requires Shape(a, k, s) && MinInv(a, k, s) && Enabled(a, k, s, e)
    ensures Shape(a, k, Next(a, k, s, e)) && MinInv(a, k, Next(a, k, s, e))
  {
    var s' := Next(a, k, s, e);
    StepFrame(a, k, s, e);
    DoneStep(a, k, s.pos, e.t);
    assert ThreadInv(a, k, s, e.t);
    forall t | 0 <= t < k
      ensures ThreadInv(a, k, s', t)
    {
      assert ThreadInv(a, k, s, t);
    }
  }

  /** Once the minimum is below INT_MAX the count is positive or a store of 1 is under way. */
  lemma StepKeepsStore(a: seq<Int32>, k: nat, s: Sys, e: Step)
    requires Shape(a, k, s) && MinInv(a, k, s) && Enabled(a, k, s, e)
    requires s.minValue < INT_MAX ==> s.count >= 1 || SomeStore(s)
    ensures var s' := Next(a, k, s, e);
            s'.minValue < INT_MAX ==> s'.count >= 1 || SomeStore(s')
  {
    hide BlockStart;
    var s' := Next(a, k, s, e);
    if SomeStore(s) && !s.pc[e.t].Store? {
      var u :| 0 <= u < |s.pc| && s.pc[u].Store?;
      assert s'.pc[u].Store?;
    }
    if s'.minValue != s.minValue {
      assert s'.pc[e.t].Store?;
    }
  }

  lemma StepKeepsCount(a: seq<Int32>, k: nat, s: Sys, e: Step)
    requires Inv(a, k, s) && Enabled(a, k, s, e)
    requires Shape(a, k, Next(a, k, s, e))
    ensures CountInv(a, k, Next(a, k, s, e))
  {
    hide BlockStart, SomeStore, Done;
    assert ThreadInv(a, k, s, e.t);
    DoneGrows(a, k, s, e);
    StepKeepsStore(a, k, s, e);
  }

  lemma DoneGrows(a: seq<Int32>, k: nat, s: Sys, e: Step)
    requires Shape(a, k, s) && Enabled(a, k, s, e)
    requires Shape(a, k, Next(a, k, s, e))
    ensures |Done(a, k, Next(a, k, s, e).pos)| ==
            |Done(a, k, s.pos)| + (if Next(a, k, s, e).pos == s.pos then 0 else 1)
  {
    hide BlockStart, Done;
    DoneStep(a, k, s.pos, e.t);
  }

  lemma StepKeepsInv(a: seq<Int32>, k: nat, s: Sys, e: Step)
    requires Inv(a, k, s) && Enabled(a, k, s, e)
    ensures Inv(a, k, Next(a, k, s, e))
  {
    StepKeepsMin(a, k, s, e);
    StepKeepsCount(a, k, s, e);
  }

  lemma {:induction false} RunKeepsInv(a: seq<Int32>, k: nat, s: Sys, run: seq<Step>)
    requires Inv(a, k, s) && Legal(a, k, s, run)
    ensures Inv(a, k, Exec(a, k, s, run))
    ensures Exec(a, k, s, run).minValue <= s.minValue
    decreases |run|
  {
    if run != [] {
      StepFrame(a, k, s, run[0]);
      StepKeepsInv(a, k, s, run[0]);
      RunKeepsInv(a, k, Next(a, k, s, run[0]), run[1..]);
    }
  }

  // ---- theorems over all interleavings ----

  predicate IsMinimum(a: seq<Int32>, m: Int32) {
    m in a && forall x :: x in a ==> m <= x
  }

  /** The minimum is right in every interleaving, with any number of spurious failures. */
  lemma LockFreeMinimum(a: seq<Int32>, k: nat, run: seq<Step>)
    requires a != [] && k > 0 && Legal(a, k, Init(a, k), run)
    ensures var s := Exec(a, k, Init(a, k), run);
            && (s.minValue == 0x7fff_ffff || s.minValue in a)
            && Shape(a, k, s)
            && (forall x :: x in Done(a, k, s.pos) ==> s.minValue <= x)
            && (forall t :: 0 <= t < k && s.pc[t].Cas? ==> s.minValue <= s.pc[t].current)
            && (Finished(a, k, s.pos) ==> IsMinimum(a, s.minValue))
  {
    InitInv(a, k);
    RunKeepsInv(a, k, Init(a, k), run);
    var s := Exec(a, k, Init(a, k), run);
    forall t | 0 <= t < k && s.pc[t].Cas?
      ensures s.minValue <= s.pc[t].current
    {
      assert ThreadInv(a, k, s, t);
    }
    if Finished(a, k, s.pos) {
      MinimumAtEnd(a, k, s);
    }
  }

  lemma MinimumAtEnd(a: seq<Int32>, k: nat, s: Sys)
    requires a != [] && Inv(a, k, s) && Finished(a, k, s.pos)
    ensures IsMinimum(a, s.minValue)
  {
    DoneAtEnd(a, k, s.pos);
    forall x | x in a ensures s.minValue <= x {
      assert x in multiset(a);
    }
    assert a[0] in a;
  }

  /** The count is not exact in general, but in every interleaving it stays within the elements
      that have made their store or add; at the end it is between 1 and n, and it is n when
      every element is INT_MAX. */
  lemma LockFreeCountBounds(a: seq<Int32>, k: nat, run: seq<Step>)
    requires a != [] && k > 0 && Legal(a, k, Init(a, k), run)
    ensures var s := Exec(a, k, Init(a, k), run);
            && Shape(a, k, s)
            && s.count <= s.writes <= |Done(a, k, s.pos)|
            && (Finished(a, k, s.pos) ==> 1 <= s.count <= |a|)
            && (Finished(a, k, s.pos) && (forall x :: x in a ==> x == 0x7fff_ffff) ==> s.count == |a|)
  {
    InitInv(a, k);
    RunKeepsInv(a, k, Init(a, k), run);
    var s := Exec(a, k, Init(a, k), run);
    if Finished(a, k, s.pos) {
      CountAtEnd(a, k, s);
    }
  }

  lemma CountAtEnd(a: seq<Int32>, k: nat, s: Sys)
    requires a != [] && Inv(a, k, s) && Finished(a, k, s.pos)
    ensures 1 <= s.count <= |a|
    ensures (forall x :: x in a ==> x == INT_MAX) ==> s.count == |a|
  {
    DoneAtEnd(a, k, s.pos);
    MinimumAtEnd(a, k, s);
    assert |multiset(a)| == |a|;
    forall t | 0 <= t < k
      ensures s.pc[t] == Load
    {
      assert ThreadInv(a, k, s, t);
    }
  }

  // ---- termination ----

  /** How many elements lie below x. */
  function Below(a: seq<Int32>, x: Int32): nat {
    if a == [] then 0 else (if a[0] < x then 1 else 0) + Below(a[1..], x)
  }

  lemma {:induction false} BelowBound(a: seq<Int32>, x: Int32)
    ensures Below(a, x) <= |a|
  {
    if a != [] {
      BelowBound(a[1..], x);
    }
  }

  lemma {:induction false} BelowMonotone(a: seq<Int32>, x: Int32, y: Int32)
    requires x <= y
    ensures Below(a, x) <= Below(a, y)
  {
    if a != [] {
      BelowMonotone(a[1..], x, y);
    }
  }

  lemma {:induction false} BelowStrict(a: seq<Int32>, x: Int32, y: Int32)
    requires x < y && x in a
    ensures Below(a, x) < Below(a, y)
  {
    if a[0] == x {
      BelowMonotone(a[1..], x, y);
    } else {
      BelowStrict(a[1..], x, y);
    }
  }

  /** Steps left on the current element: a failed exchange is paid for by the descent of the
      minimum through values of the array. */
  function Phase(a: seq<Int32>, pc: Pc): nat {
    match pc
    case Load => |a| + 4
    case Cas(current) => Below(a, current) + 3
    case Check => 2
    case _ => 1
  }

  function Cost(a: seq<Int32>, left: nat, pc: Pc): nat {
    if left == 0 then 0 else (left - 1) * (|a| + 4) + Phase(a, pc)
  }

  function Costs(a: seq<Int32>, k: nat, s: Sys): seq<nat>
    requires Shape(a, k, s)
  {
    seq(k, t requires 0 <= t < k => Cost(a, Hi(a, k, t) - s.pos[t], s.pc[t]))
  }

  /** Non-spurious steps that the whole system can still make. */
  function Measure(a: seq<Int32>, k: nat, s: Sys): nat
    requires Shape(a, k, s)
  {
    SumBy(Same<nat>, Costs(a, k, s))
  }

  lemma CostShrinks(a: seq<Int32>, k: nat, s: Sys, e: Step)
    requires Inv(a, k, s) && Enabled(a, k, s, e)
    requires Shape(a, k, Next(a, k, s, e))
    ensures Costs(a, k, Next(a, k, s, e))[e.t] <= Costs(a, k, s)[e.t]
    ensures !e.spurious ==> Costs(a, k, Next(a, k, s, e))[e.t] < Costs(a, k, s)[e.t]
  {
    hide BlockStart, CountInv, Done;
    var t := e.t;
    var s' := Next(a, k, s, e);
    var left := Hi(a, k, t) - s.pos[t];
    assert ThreadInv(a, k, s, t);
    BelowBound(a, s.minValue);
    if s.pc[t].Cas? && s.minValue < s.pc[t].current {
      BelowStrict(a, s.minValue, s.pc[t].current);
    }
    if s'.pos[t] == s.pos[t] + 1 && left > 1 {
      assert (left - 1) * (|a| + 4) == (left - 2) * (|a| + 4) + (|a| + 4);
    }
  }

  lemma MeasureShrinks(a: seq<Int32>, k: nat, s: Sys, e: Step)
    requires Inv(a, k, s) && Enabled(a, k, s, e)
    ensures Inv(a, k, Next(a, k, s, e))
    ensures Measure(a, k, Next(a, k, s, e)) <= Measure(a, k, s)
    ensures !e.spurious ==> Measure(a, k, Next(a, k, s, e)) < Measure(a, k, s)
  {
    hide BlockStart, MinInv, CountInv, Cost;
    var s' := Next(a, k, s, e);
    StepKeepsInv(a, k, s, e);
    StepFrame(a, k, s, e);
    CostShrinks(a, k, s, e);
    var costs, costs' := Costs(a, k, s), Costs(a, k, s');
    assert costs' == costs[e.t := costs'[e.t]];
    SumByUpdate(Same<nat>, costs, e.t, costs'[e.t]);
  }

  function RealSteps(run: seq<Step>): nat {
    if run == [] then 0 else (if run[0].spurious then 0 else 1) + RealSteps(run[1..])
  }

  lemma {:induction false} RunMeasure(a: seq<Int32>, k: nat, s: Sys, run: seq<Step>)
    requires Inv(a, k, s) && Legal(a, k, s, run)
    ensures Inv(a, k, Exec(a, k, s, run))
    ensures RealSteps(run) + Measure(a, k, Exec(a, k, s, run)) <= Measure(a, k, s)
    decreases |run|
  {
    if run != [] {
      MeasureShrinks(a, k, s, run[0]);
      RunMeasure(a, k, Next(a, k, s, run[0]), run[1..]);
    }
  }

  lemma FreshCost(a: seq<Int32>, left: nat)
    ensures Cost(a, left, Load) == left * (|a| + 4)
  {
  }

  lemma Distribute(x: int, y: int, z: int)
    ensures x * z + y * z == (x + y) * z
  {
  }

  lemma {:induction false} InitCosts(a: seq<Int32>, k: nat, t: nat)
    requires k > 0 && t <= k
    ensures Lo(a, k, t) <= |a|
    ensures SumBy(Same<nat>, Costs(a, k, Init(a, k))[t..]) == (|a| - Lo(a, k, t)) * (|a| + 4)
    decreases k - t
  {
    hide BlockStart, Cost, SumBy;
    BlockEnds(|a|, k);
    var costs := Costs(a, k, Init(a, k));
    if t < k {
      BlockInside(|a|, k, t);
      InitCosts(a, k, t + 1);
      SumFrom(costs, t);
      FreshCost(a, Hi(a, k, t) - Lo(a, k, t));
      Distribute(Hi(a, k, t) - Lo(a, k, t), |a| - Hi(a, k, t), |a| + 4);
    } else {
      SumOfNone(costs[t..]);
    }
  }

  lemma SumFrom(costs: seq<nat>, t: nat)
    requires t < |costs|
    ensures SumBy(Same<nat>, costs[t..]) == costs[t] + SumBy(Same<nat>, costs[t + 1..])
  {
  }

  lemma SumOfNone(costs: seq<nat>)
    requires costs == []
    ensures SumBy(Same<nat>, costs) == 0
  {
  }

  /** Spurious failures aside, every schedule makes at most n * (n + 4) steps, whatever the
      number of threads; and as long as an element is left some thread can make one. So every
      schedule without spurious failures halts with all elements processed. */
  lemma LockFreeTermination(a: seq<Int32>, k: nat, run: seq<Step>)
    requires k > 0 && Legal(a, k, Init(a, k), run)
    ensures RealSteps(run) <= |a| * (|a| + 4)
    ensures var s := Exec(a, k, Init(a, k), run);
            Finished(a, k, s.pos) || exists t :: Enabled(a, k, s, Step(t, false))
  {
    hide MinInv, CountInv, Done, Legal, Exec, Next;
    InitInv(a, k);
    RunMeasure(a, k, Init(a, k), run);
    InitCosts(a, k, 0);
    BlockEnds(|a|, k);
    assert Costs(a, k, Init(a, k))[0..] == Costs(a, k, Init(a, k));
    var s := Exec(a, k, Init(a, k), run);
    if !Finished(a, k, s.pos) {
      var t :| 0 <= t < k && s.pos[t] != Hi(a, k, t);
      assert Enabled(a, k, s, Step(t, false));
    }
  }
}
