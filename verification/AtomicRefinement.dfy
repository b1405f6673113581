/** Where the lock-free search is exact by scheduling: as long as no other thread steps between a
    successful exchange and its store, or between an equality load and its add, every run of it
    is a run of the mutex version. */
module AtomicRefinement {
  import opened Blocks
  import opened MinCount
  import opened AtomicMinCount

  predicate Pending(pc: Pc) { pc.Store? || pc.Add? }

  /** Nobody but t is between its decisive load or exchange and its write of the count. */
  predicate Quiet(s: Sys, t: nat) {
    forall u :: 0 <= u < |s.pc| && u != t ==> !Pending(s.pc[u])
  }

  predicate Undisturbed(a: seq<Int32>, k: nat, s: Sys, run: seq<Step>)
    requires Legal(a, k, s, run)
    decreases |run|
  {
    run == [] || (Quiet(s, run[0].t) && Undisturbed(a, k, Next(a, k, s, run[0]), run[1..]))
  }

  predicate OnePending(s: Sys) {
    forall u, v :: 0 <= u < |s.pc| && 0 <= v < |s.pc| && Pending(s.pc[u]) && Pending(s.pc[v]) ==> u == v
  }

  function CreditedPos(s: Sys): seq<nat> {
    seq(|s.pos|, t requires 0 <= t < |s.pos| => s.pos[t] + (if t < |s.pc| && Pending(s.pc[t]) then 1 else 0))
  }

  /** The pair as it will be once a pending write has been made. */
  function CreditedPair(s: Sys): MinResult {
    if SomeStore(s) then MinResult(s.minValue, 1)
    else if exists t :: 0 <= t < |s.pc| && s.pc[t].Add? then MinResult(s.minValue, s.count + 1)
    else MinResult(s.minValue, s.count)
  }

  /** The state of the mutex version that a lock-free state stands for: an element counts as
      processed from its successful exchange or its equality load on. */
  function Credited(s: Sys): Locked {
    Locked(CreditedPos(s), CreditedPair(s))
  }

  lemma CreditedWhenQuiet(s: Sys, t: nat)
    requires |s.pc| == |s.pos| && t < |s.pc| && Quiet(s, t)
    ensures OnePending(s)
    ensures CreditedPos(s) == s.pos[t := s.pos[t] + (if Pending(s.pc[t]) then 1 else 0)]
    ensures CreditedPair(s) == match s.pc[t]
                               case Store => MinResult(s.minValue, 1)
                               case Add => MinResult(s.minValue, s.count + 1)
                               case _ => MinResult(s.minValue, s.count)
  {
  }

  lemma StepKeepsQuiet(a: seq<Int32>, k: nat, s: Sys, e: Step)
    requires Inv(a, k, s) && Enabled(a, k, s, e) && Quiet(s, e.t)
    ensures Quiet(Next(a, k, s, e), e.t)
  {
  }

  /** A step without a pending rival is a critical section of the mutex version or no step of it. */
  lemma StepRefines(a: seq<Int32>, k: nat, s: Sys, e: Step)
    requires Inv(a, k, s) && Enabled(a, k, s, e) && Quiet(s, e.t)
    ensures || Credited(Next(a, k, s, e)) == Credited(s)
            || (CanLock(a, k, Credited(s), e.t) && Credited(Next(a, k, s, e)) == LockStep(a, k, Credited(s), e.t))
  {
    StepKeepsQuiet(a, k, s, e);
    CreditedWhenQuiet(s, e.t);
    CreditedWhenQuiet(Next(a, k, s, e), e.t);
    assert ThreadInv(a, k, s, e.t);
  }

  lemma {:induction false} RunRefines(a: seq<Int32>, k: nat, s: Sys, run: seq<Step>) returns (locks: seq<nat>)
    requires Inv(a, k, s) && Legal(a, k, s, run) && Undisturbed(a, k, s, run)
    requires OnePending(s)
    ensures LegalLocks(a, k, Credited(s), locks)
    ensures ExecLocks(a, k, Credited(s), locks) == Credited(Exec(a, k, s, run))
    decreases |run|
  {
    if run == [] {
      locks := [];
    } else {
      var e, s' := run[0], Next(a, k, s, run[0]);
      StepKeepsInv(a, k, s, e);
      StepKeepsQuiet(a, k, s, e);
      StepRefines(a, k, s, e);
      CreditedWhenQuiet(s', e.t);
      var rest := RunRefines(a, k, s', run[1..]);
      if Credited(s') == Credited(s) {
        locks := rest;
      } else {
        locks := [e.t] + rest;
        assert locks[1..] == rest;
      }
    }
  }

  lemma CreditedAtStart(a: seq<Int32>, k: nat)
    requires k > 0
    ensures Credited(Init(a, k)) == LockedStart(a, k)
  {
  }

  lemma CreditedAtEnd(a: seq<Int32>, k: nat, s: Sys)
    requires Inv(a, k, s) && Finished(a, k, s.pos)
    ensures Credited(s) == Locked(s.pos, MinResult(s.minValue, s.count))
  {
    forall t | 0 <= t < k
      ensures s.pc[t] == Load
    {
      assert ThreadInv(a, k, s, t);
    }
    CreditedWhenQuiet(s, 0);
  }

  /** Every undisturbed run refines a run of the mutex version, so once finished its minimum and
      its count are those of the array. */
  lemma UndisturbedIsExact(a: seq<Int32>, k: nat, run: seq<Step>) returns (locks: seq<nat>)
    requires a != [] && k > 0
    requires Legal(a, k, Init(a, k), run) && Undisturbed(a, k, Init(a, k), run)
    ensures LegalLocks(a, k, LockedStart(a, k), locks)
    ensures ExecLocks(a, k, LockedStart(a, k), locks) == Credited(Exec(a, k, Init(a, k), run))
    ensures var s := Exec(a, k, Init(a, k), run);
            Finished(a, k, s.pos) ==> IsMinCount(multiset(a), MinResult(s.minValue, s.count))
  {
    InitInv(a, k);
    RunKeepsInv(a, k, Init(a, k), run);
    CreditedAtStart(a, k);
    locks := RunRefines(a, k, Init(a, k), run);
    MutexIsExact(a, k, locks);
    var s := Exec(a, k, Init(a, k), run);
    if Finished(a, k, s.pos) {
      CreditedAtEnd(a, k, s);
    }
  }
}
