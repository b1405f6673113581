/** The other half: on every input outside the condition some schedule ends with a wrong count.
    Two schedules do it, a store that comes too late and an add that comes too late. */
module CountSchedules {
  import opened Blocks
  import opened Folds
  import opened MinCount
  import opened AtomicMinCount
  import opened CountSafety

  ghost predicate Reaches(a: seq<Int32>, k: nat, s: Sys, s': Sys) {
    exists run :: Legal(a, k, s, run) && Exec(a, k, s, run) == s'
  }

  lemma ReachSelf(a: seq<Int32>, k: nat, s: Sys)
    ensures Reaches(a, k, s, s)
  {
    assert Legal(a, k, s, []) && Exec(a, k, s, []) == s;
  }

  lemma ReachStep(a: seq<Int32>, k: nat, s: Sys, e: Step)
    requires Enabled(a, k, s, e)
    ensures Reaches(a, k, s, Next(a, k, s, e))
  {
    OneStep(a, k, s, e);
    assert Exec(a, k, s, [e]) == Next(a, k, s, e);
  }

  lemma ReachTrans(a: seq<Int32>, k: nat, s: Sys, s': Sys, s'': Sys)
    requires Reaches(a, k, s, s') && Reaches(a, k, s', s'')
    ensures Reaches(a, k, s, s'')
  {
    var run :| Legal(a, k, s, run) && Exec(a, k, s, run) == s';
    var run' :| Legal(a, k, s', run') && Exec(a, k, s', run') == s'';
    LegalAppend(a, k, s, run, run');
  }

  lemma StepOn(a: seq<Int32>, k: nat, s: Sys, t: nat) returns (s': Sys)
    requires Inv(a, k, s) && Enabled(a, k, s, Step(t, false))
    ensures s' == Next(a, k, s, Step(t, false)) && Inv(a, k, s') && Reaches(a, k, s, s')
  {
    s' := Next(a, k, s, Step(t, false));
    StepKeepsInv(a, k, s, Step(t, false));
    ReachStep(a, k, s, Step(t, false));
  }

  // ---- a thread running on its own ----

  /** Load a minimum above the element and exchange the element for it. */
  lemma TakeLower(a: seq<Int32>, k: nat, s: Sys, t: nat) returns (s': Sys)
    requires Inv(a, k, s) && t < k && s.pos[t] < Hi(a, k, t) && s.pc[t] == Load
    requires a[s.pos[t]] < s.minValue
    ensures Inv(a, k, s') && Reaches(a, k, s, s')
    ensures s'.pos == s.pos && s'.pc == s.pc[t := Store] && Pair(s') == MinResult(a[s.pos[t]], s.count)
  {
    hide Reaches, BlockStart;
    var s1 := StepOn(a, k, s, t);
    s' := StepOn(a, k, s1, t);
    ReachTrans(a, k, s, s1, s');
    assert s1 == Stay(s, t, Cas(s.minValue));
  }

  /** Load a minimum not above the element, and load it again for the equality test. */
  lemma TakeOther(a: seq<Int32>, k: nat, s: Sys, t: nat) returns (s': Sys)
    requires Inv(a, k, s) && t < k && s.pos[t] < Hi(a, k, t) && s.pc[t] == Load
    requires a[s.pos[t]] >= s.minValue
    ensures Inv(a, k, s') && Reaches(a, k, s, s') && Pair(s') == Pair(s)
    ensures a[s.pos[t]] == s.minValue ==> s'.pos == s.pos && s'.pc == s.pc[t := Add]
    ensures a[s.pos[t]] != s.minValue ==> s'.pos == s.pos[t := s.pos[t] + 1] && s'.pc == s.pc
  {
    hide Reaches, BlockStart;
    var s1 := StepOn(a, k, s, t);
    s' := StepOn(a, k, s1, t);
    ReachTrans(a, k, s, s1, s');
    assert s1 == Stay(s, t, Check);
    assert s1.pc[t := Load] == s.pc;
  }

  /** The pending write of the count. */
  lemma WriteCount(a: seq<Int32>, k: nat, s: Sys, t: nat) returns (s': Sys)
    requires Inv(a, k, s) && t < k && s.pos[t] < Hi(a, k, t) && (s.pc[t].Store? || s.pc[t].Add?)
    ensures Inv(a, k, s') && Reaches(a, k, s, s')
    ensures s'.pos == s.pos[t := s.pos[t] + 1] && s'.pc == s.pc[t := Load]
    ensures Pair(s') == MinResult(s.minValue, if s.pc[t].Store? then 1 else s.count + 1)
  {
    hide Reaches, BlockStart, MinInv, CountInv;
    s' := StepOn(a, k, s, t);
  }

  /** One element processed without interruption is one critical section of the mutex version. */
  lemma SoloElement(a: seq<Int32>, k: nat, s: Sys, t: nat) returns (s': Sys)
    requires Inv(a, k, s) && t < k && s.pos[t] < Hi(a, k, t) && s.pc[t] == Load
    ensures Inv(a, k, s') && Reaches(a, k, s, s')
    ensures s'.pos == s.pos[t := s.pos[t] + 1] && s'.pc == s.pc
    ensures Pair(s') == Absorb(Pair(s), a[s.pos[t]])
  {
    hide Reaches, BlockStart;
    if a[s.pos[t]] < s.minValue {
      s' := TakeLower(a, k, s, t);
    } else {
      s' := TakeOther(a, k, s, t);
    }
    if s'.pos == s.pos {
      var s1 := s';
      s' := WriteCount(a, k, s1, t);
      ReachTrans(a, k, s, s1, s');
      assert s'.pc == s.pc;
    }
  }

  /** Count minus the occurrences of the shared minimum among the processed elements. */
  function Excess(a: seq<Int32>, k: nat, s: Sys): int
    requires Shape(a, k, s)
  {
    s.count - Done(a, k, s.pos)[s.minValue]
  }

  predicate Least(a: seq<Int32>, m: Int32) {
    forall x :: x in a ==> m <= x
  }

  predicate Exactly(a: seq<Int32>, k: nat, s: Sys)
    requires Shape(a, k, s)
  {
    Tracks(Done(a, k, s.pos), Pair(s))
  }

  lemma ElementEffect(a: seq<Int32>, k: nat, s: Sys, s': Sys, t: nat)
    requires Shape(a, k, s) && Shape(a, k, s') && t < k && s.pos[t] < Hi(a, k, t)
    requires s'.pos == s.pos[t := s.pos[t] + 1]
    requires Pair(s') == Absorb(Pair(s), a[s.pos[t]])
    ensures Exactly(a, k, s) ==> Exactly(a, k, s')
    ensures Least(a, s.minValue) ==> s'.minValue == s.minValue && Excess(a, k, s') == Excess(a, k, s)
  {
    DoneStep(a, k, s.pos, t);
    if Exactly(a, k, s) {
      AbsorbTracks(Done(a, k, s.pos), Pair(s), a[s.pos[t]]);
    }
    if Least(a, s.minValue) {
      assert a[s.pos[t]] in a;
    }
  }

  /** Running alone keeps an exact pair exact, and once the minimum is found keeps any excess. */
  lemma {:induction false} SoloTo(a: seq<Int32>, k: nat, s: Sys, t: nat, p: nat) returns (s': Sys)
    requires Inv(a, k, s) && t < k && s.pos[t] <= p <= Hi(a, k, t) && s.pc[t] == Load
    ensures Inv(a, k, s') && Reaches(a, k, s, s')
    ensures s'.pos == s.pos[t := p] && s'.pc == s.pc
    ensures Exactly(a, k, s) ==> Exactly(a, k, s')
    ensures Least(a, s.minValue) ==> s'.minValue == s.minValue && Excess(a, k, s') == Excess(a, k, s)
    decreases p - s.pos[t]
  {
    hide Reaches, BlockStart;
    if s.pos[t] == p {
      s' := s;
      ReachSelf(a, k, s);
    } else {
      var s1 := SoloElement(a, k, s, t);
      ElementEffect(a, k, s, s1, t);
      s' := SoloTo(a, k, s1, t, p);
      ReachTrans(a, k, s, s1, s');
    }
  }

  predicate AtRest(s: Sys) {
    forall t :: 0 <= t < |s.pc| ==> s.pc[t] == Load
  }

  lemma {:induction false} RunOut(a: seq<Int32>, k: nat, s: Sys, t: nat) returns (s': Sys)
    requires Inv(a, k, s) && AtRest(s) && t <= k
    requires forall u :: 0 <= u < t ==> s.pos[u] == Hi(a, k, u)
    requires Least(a, s.minValue)
    ensures Inv(a, k, s') && Reaches(a, k, s, s') && Finished(a, k, s'.pos)
    ensures s'.minValue == s.minValue && Excess(a, k, s') == Excess(a, k, s)
    decreases k - t
  {
    hide Reaches, BlockStart;
    if t == k {
      s' := s;
      ReachSelf(a, k, s);
    } else {
      var s1 := SoloTo(a, k, s, t, Hi(a, k, t));
      s' := RunOut(a, k, s1, t + 1);
      ReachTrans(a, k, s, s1, s');
    }
  }

  /** An excess that remains when the minimum is found and everybody is at rest ends wrong. */
  lemma ExcessEndsWrong(a: seq<Int32>, k: nat, s: Sys)
    requires k > 0 && Reaches(a, k, Init(a, k), s)
    requires Inv(a, k, s) && AtRest(s) && Least(a, s.minValue) && Excess(a, k, s) != 0
    ensures !ExactOnAllSchedules(a, k)
  {
    var s' := RunOut(a, k, s, 0);
    ReachTrans(a, k, Init(a, k), s, s');
    DoneAtEnd(a, k, s'.pos);
    assert !IsMinCount(multiset(a), Pair(s'));
    var run :| Legal(a, k, Init(a, k), run) && Exec(a, k, Init(a, k), run) == s';
  }

  // ---- what has been processed ----

  lemma {:induction false} GatherFrom(parts: seq<multiset<Int32>>, x: Int32) returns (t: nat)
    requires x in GatherBy(Same<multiset<Int32>>, parts)
    ensures t < |parts| && x in parts[t]
  {
    if x in parts[0] {
      t := 0;
    } else {
      t := GatherFrom(parts[1..], x);
      t := t + 1;
    }
  }

  lemma DoneFrom(a: seq<Int32>, k: nat, pos: seq<nat>, x: Int32) returns (j: nat)
    requires InBlocks(a, k, pos) && x in Done(a, k, pos)
    ensures j < |a| && a[j] == x && j < pos[OwnerOf(a, k, j)]
  {
    hide BlockStart;
    var t := GatherFrom(DoneParts(a, k, pos), x);
    var slice := a[Lo(a, k, t)..pos[t]];
    assert x in slice;
    var d: nat :| d < |slice| && slice[d] == x;
    j := Lo(a, k, t) + d;
    OwnerUnique(|a|, k, j, t);
  }

  /** With an exact pair, a bound on all processed elements bounds the shared minimum. */
  lemma MinAtLeast(a: seq<Int32>, k: nat, s: Sys, v: Int32)
    requires Shape(a, k, s) && Exactly(a, k, s)
    requires forall j: nat :: j < |a| && j < s.pos[OwnerOf(a, k, j)] ==> v <= a[j]
    ensures v <= s.minValue
  {
    if s.minValue != INT_MAX {
      var j := DoneFrom(a, k, s.pos, s.minValue);
    }
  }

  lemma StartExactly(a: seq<Int32>, k: nat)
    requires k > 0
    ensures Inv(a, k, Init(a, k)) && AtRest(Init(a, k)) && Exactly(a, k, Init(a, k))
    ensures Reaches(a, k, Init(a, k), Init(a, k))
  {
    InitInv(a, k);
    DoneAtStart(a, k);
    ReachSelf(a, k, Init(a, k));
  }

  // ---- the late add ----

  /** Let the owner of i come up to i, everybody else at the start. */
  lemma ComeUpTo(a: seq<Int32>, k: nat, i: nat, v: Int32) returns (s: Sys)
    requires k > 0 && i < |a|
    requires forall j :: Lo(a, k, OwnerOf(a, k, i)) <= j < i ==> v <= a[j]
    ensures Inv(a, k, s) && Reaches(a, k, Init(a, k), s) && AtRest(s) && Exactly(a, k, s)
    ensures s.pos == StartPos(a, k)[OwnerOf(a, k, i) := i]
    ensures v <= s.minValue
  {
    hide Reaches, BlockStart;
    var t := OwnerOf(a, k, i);
    StartExactly(a, k);
    s := SoloTo(a, k, Init(a, k), t, i);
    MinAtLeast(a, k, s, v);
  }

  /** A matchable element can be met by its own value in the shared minimum, before b is reached. */
  lemma MeetMatchable(a: seq<Int32>, k: nat, i: nat, b: nat) returns (s: Sys)
    requires k > 0 && i < |a| && b < |a| && Matchable(a, k, i) && a[b] < a[i]
    requires OwnerOf(a, k, i) != OwnerOf(a, k, b)
    ensures Inv(a, k, s) && Reaches(a, k, Init(a, k), s) && AtRest(s) && Exactly(a, k, s)
    ensures s.pos[OwnerOf(a, k, i)] == i && s.pos[OwnerOf(a, k, b)] <= b
    ensures s.minValue == a[i]
  {
    hide Reaches, BlockStart, MinInv, CountInv, GatherBy;
    s := ComeUpTo(a, k, i, a[i]);
    if a[i] != INT_MAX {
      var j: nat :| j < |a| && j != i && a[j] == a[i] && Record(a, k, j, true);
      if OwnerOf(a, k, j) != OwnerOf(a, k, i) {
        s := PassRecord(a, k, s, i, j, b);
      }
      DoneHas(a, k, s.pos, j);
    }
  }

  /** From there let the owner of a strict record with the same value pass it. */
  lemma PassRecord(a: seq<Int32>, k: nat, s: Sys, i: nat, j: nat, b: nat) returns (s': Sys)
    requires k > 0 && i < |a| && j < |a| && b < |a| && a[j] == a[i] && a[b] < a[i]
    requires OwnerOf(a, k, j) != OwnerOf(a, k, i) && OwnerOf(a, k, i) != OwnerOf(a, k, b)
    requires Record(a, k, i, false) && Record(a, k, j, true)
    requires Inv(a, k, s) && Reaches(a, k, Init(a, k), s) && AtRest(s) && Exactly(a, k, s)
    requires s.pos == StartPos(a, k)[OwnerOf(a, k, i) := i]
    ensures Inv(a, k, s') && Reaches(a, k, Init(a, k), s') && AtRest(s') && Exactly(a, k, s')
    ensures s'.pos == s.pos[OwnerOf(a, k, j) := j + 1]
    ensures s'.pos[OwnerOf(a, k, b)] <= b && a[i] <= s'.minValue
  {
    hide Reaches, BlockStart;
    s' := SoloTo(a, k, s, OwnerOf(a, k, j), j + 1);
    ReachTrans(a, k, Init(a, k), s, s');
    MinAtLeast(a, k, s', a[i]);
  }

  lemma ReachVia(a: seq<Int32>, k: nat, s: Sys, s1: Sys, s2: Sys, s3: Sys)
    requires k > 0 && Reaches(a, k, Init(a, k), s)
    requires Reaches(a, k, s, s1) && Reaches(a, k, s1, s2) && Reaches(a, k, s2, s3)
    ensures Reaches(a, k, Init(a, k), s3)
  {
    hide Reaches, BlockStart;
    ReachTrans(a, k, Init(a, k), s, s1);
    ReachTrans(a, k, Init(a, k), s1, s2);
    ReachTrans(a, k, Init(a, k), s2, s3);
  }

  lemma LateAddOverCounts(a: seq<Int32>, k: nat, s: Sys, s': Sys, t: nat)
    requires Shape(a, k, s) && Shape(a, k, s') && Exactly(a, k, s)
    requires t < k && s.pos[t] < Hi(a, k, t) && a[s.pos[t]] != s.minValue
    requires s'.pos == s.pos[t := s.pos[t] + 1] && Pair(s') == MinResult(s.minValue, s.count + 1)
    ensures Excess(a, k, s') == 1
  {
    DoneStep(a, k, s.pos, t);
  }

  /** The owner of i loads the equal minimum; before it adds, the owner of b finds the true
      minimum. The add then counts an element that is not a minimum. */
  lemma LateAdd(a: seq<Int32>, k: nat, i: nat, b: nat)
    requires k > 0 && i < |a| && b < |a| && Matchable(a, k, i) && a[b] < a[i]
    requires OwnerOf(a, k, i) != OwnerOf(a, k, b) && IsMinimum(a, a[b])
    ensures !ExactOnAllSchedules(a, k)
  {
    hide Reaches, BlockStart, MinInv, CountInv, Done, Matchable;
    var t, u := OwnerOf(a, k, i), OwnerOf(a, k, b);
    var s := MeetMatchable(a, k, i, b);
    var s1 := TakeOther(a, k, s, t);
    var s2 := SoloTo(a, k, s1, u, Hi(a, k, u));
    MinimumReached(a, k, s2, b);
    var s3 := WriteCount(a, k, s2, t);
    ReachVia(a, k, s, s1, s2, s3);
    LateAddOverCounts(a, k, s2, s3, t);
    ExcessEndsWrong(a, k, s3);
  }

  // ---- the late store ----

  lemma TwiceInPart(a: seq<Int32>, k: nat, pos: seq<nat>, b: nat, b': nat)
    requires InBlocks(a, k, pos) && b < b' < |a| && a[b] == a[b']
    requires OwnerOf(a, k, b) == OwnerOf(a, k, b') && b' < pos[OwnerOf(a, k, b)]
    ensures Done(a, k, pos)[a[b]] >= 2
  {
    hide BlockStart, GatherBy;
    var t := OwnerOf(a, k, b);
    var slice := a[Lo(a, k, t)..pos[t]];
    var d := b' - Lo(a, k, t);
    assert slice == slice[..d] + [slice[d]] + slice[d + 1..];
    assert slice[..d][b - Lo(a, k, t)] == a[b];
    assert multiset(slice[..d])[a[b]] >= 1;
    PartInGather(DoneParts(a, k, pos), t);
  }

  lemma LateStoreUnderCounts(a: seq<Int32>, k: nat, s: Sys, s': Sys, t: nat)
    requires Shape(a, k, s) && Shape(a, k, s') && t < k && s.pos[t] < Hi(a, k, t)
    requires s'.pos == s.pos[t := s.pos[t] + 1] && Pair(s') == MinResult(s.minValue, 1)
    requires Done(a, k, s.pos)[s.minValue] + (if a[s.pos[t]] == s.minValue then 1 else 0) >= 2
    ensures Excess(a, k, s') < 0
  {
    DoneStep(a, k, s.pos, t);
  }

  /** The owner of i exchanges a[i] into the minimum; before it stores 1, the owner of b runs
      through its block. The store then wipes out a count of two or more, or one of two. */
  lemma LateStore(a: seq<Int32>, k: nat, i: nat, b: nat, b': nat)
    requires k > 0 && i < |a| && b < |a| && b' < |a|
    requires OwnerOf(a, k, i) != OwnerOf(a, k, b) && IsMinimum(a, a[b])
    requires Record(a, k, i, true) && a[i] < INT_MAX
    requires a[i] == a[b] || (b < b' && OwnerOf(a, k, b') == OwnerOf(a, k, b) && a[b'] == a[b])
    ensures !ExactOnAllSchedules(a, k)
  {
    hide Reaches, BlockStart, MinInv, CountInv, GatherBy;
    var t, u := OwnerOf(a, k, i), OwnerOf(a, k, b);
    var s := ComeUpTo(a, k, i, a[i] + 1);
    var s1 := TakeLower(a, k, s, t);
    var s2 := SoloTo(a, k, s1, u, Hi(a, k, u));
    MinimumReached(a, k, s2, b);
    var s3 := WriteCount(a, k, s2, t);
    ReachVia(a, k, s, s1, s2, s3);
    DoneHas(a, k, s2.pos, b);
    if a[i] != a[b] {
      TwiceInPart(a, k, s2.pos, b, b');
    }
    LateStoreUnderCounts(a, k, s2, s3, t);
    ExcessEndsWrong(a, k, s3);
  }

  // ---- every unsafe input ----

  lemma MinimumAt(a: seq<Int32>) returns (b: nat)
    requires a != []
    ensures b < |a| && IsMinimum(a, a[b])
  {
    b := 0;
    for i := 1 to |a|
      invariant b < |a| && forall j :: 0 <= j < i ==> a[b] <= a[j]
    {
      if a[i] < a[b] {
        b := i;
      }
    }
  }

  /** The first element of a block with the value of the minimum is a strict record. */
  lemma FirstOfMinimum(a: seq<Int32>, k: nat, b: nat) returns (i: nat)
    requires k > 0 && b < |a| && IsMinimum(a, a[b])
    ensures i < |a| && OwnerOf(a, k, i) == OwnerOf(a, k, b) && a[i] == a[b] && Record(a, k, i, true)
  {
    var t := OwnerOf(a, k, b);
    i := Lo(a, k, t);
    while a[i] != a[b]
      invariant Lo(a, k, t) <= i <= b
      invariant forall j :: Lo(a, k, t) <= j < i ==> a[j] != a[b]
      decreases b - i
    {
      i := i + 1;
    }
    OwnerUnique(|a|, k, i, t);
    forall j | Lo(a, k, t) <= j < i ensures a[b] < a[j] {
      assert a[j] in a;
    }
  }

  /** Two threads and two elements give a second block that is not empty. */
  lemma OtherBlock(a: seq<Int32>, k: nat, b: nat) returns (i: nat)
    requires k >= 2 && |a| >= 2 && b < |a|
    ensures i < |a| && OwnerOf(a, k, i) != OwnerOf(a, k, b)
    ensures i == Lo(a, k, OwnerOf(a, k, i))
  {
    var t := if OwnerOf(a, k, b) == 0 then 1 else 0;
    BlockNonEmptyAtFront(|a|, k, t);
    BlockInside(|a|, k, t);
    i := Lo(a, k, t);
    OwnerUnique(|a|, k, i, t);
  }

  lemma TwoMinimaWrong(a: seq<Int32>, k: nat, b: nat, b': nat)
    requires k >= 2 && b < b' < |a| && a[b] == a[b'] && IsMinimum(a, a[b]) && a[b] < INT_MAX
    ensures !ExactOnAllSchedules(a, k)
  {
    if OwnerOf(a, k, b) != OwnerOf(a, k, b') {
      var i := FirstOfMinimum(a, k, b);
      LateStore(a, k, i, b', b);
    } else {
      var i := OtherBlock(a, k, b);
      if a[i] == INT_MAX {
        LateAdd(a, k, i, b);
      } else {
        LateStore(a, k, i, b, b');
      }
    }
  }

  lemma LoneUnsafeWrong(a: seq<Int32>, k: nat, b: nat)
    requires k > 0 && b < |a| && IsMinimum(a, a[b])
    requires forall j :: 0 <= j < |a| && j != b ==> a[j] != a[b]
    requires !LoneMinimum(a, k, b)
    ensures !ExactOnAllSchedules(a, k)
  {
    var i: nat :| i < |a| && Matchable(a, k, i) && OwnerOf(a, k, i) != OwnerOf(a, k, b);
    assert a[i] in a;
    LateAdd(a, k, i, b);
  }

  lemma UnsafeIsWrong(a: seq<Int32>, k: nat)
    requires a != [] && k > 0 && !CountSafe(a, k)
    ensures !ExactOnAllSchedules(a, k)
  {
    var b := MinimumAt(a);
    MinimumIntMax(a, b);
    if b': nat :| b' < |a| && b' != b && a[b'] == a[b] {
      TwoMinimaWrong(a, k, if b < b' then b else b', if b < b' then b' else b);
    } else {
      LoneUnsafeWrong(a, k, b);
    }
  }

  /** The lock-free count is right under every schedule exactly for the inputs that satisfy
      CountSafe: one thread, one element, nothing but INT_MAX, or a minimum that occurs once while
      no element of another block can meet its own value in the shared minimum. */
  lemma CountExactExactlyWhen(a: seq<Int32>, k: nat)
    requires a != [] && k > 0
    ensures ExactOnAllSchedules(a, k) <==> CountSafe(a, k)
  {
    if CountSafe(a, k) {
      SafeIsExact(a, k);
    } else {
      UnsafeIsWrong(a, k);
    }
  }

  /** A concrete input with a wrong count: two threads over two equal elements. */
  lemma TwoEqualElementsMiscounted()
    ensures !ExactOnAllSchedules([5, 5], 2)
  {
    var a: seq<Int32> := [5, 5];
    assert a[0] in a && a[1] in a;
    TwoMinimaWrong(a, 2, 0, 1);
  }
}
