/** Sums, counts and multisets gathered over the threads of a system. */
module Folds {

  function SumBy<T>(f: T -> nat, s: seq<T>): nat {
    if s == [] then 0 else f(s[0]) + SumBy(f, s[1..])
  }

  /** Changing one entry changes the sum by exactly the difference of the two weights. */
  lemma {:induction false} SumByUpdate<T>(f: T -> nat, s: seq<T>, i: nat, x: T)
    requires i < |s|
    ensures SumBy(f, s[i := x]) + f(s[i]) == SumBy(f, s) + f(x)
  {
    if i == 0 {
      assert s[0 := x][1..] == s[1..];
    } else {
      assert s[i := x][1..] == s[1..][i - 1 := x];
      SumByUpdate(f, s[1..], i - 1, x);
    }
  }

  lemma {:induction false} SumByPointwise<T>(f: T -> nat, s: seq<T>, s': seq<T>)
    requires |s| == |s'|
    requires forall i :: 0 <= i < |s| ==> f(s[i]) <= f(s'[i])
    ensures SumBy(f, s) <= SumBy(f, s')
  {
    if s != [] {
      SumByPointwise(f, s[1..], s'[1..]);
    }
  }

  lemma {:induction false} SumByBound<T>(f: T -> nat, s: seq<T>, bound: nat)
    requires forall i :: 0 <= i < |s| ==> f(s[i]) <= bound
    ensures SumBy(f, s) <= bound * |s|
  {
    if s != [] {
      SumByBound(f, s[1..], bound);
      assert bound * |s| == bound * |s[1..]| + bound;
    }
  }

  function GatherBy<T, E>(f: T -> multiset<E>, s: seq<T>): multiset<E> {
    if s == [] then multiset{} else f(s[0]) + GatherBy(f, s[1..])
  }

  lemma {:induction false} GatherByUpdate<T, E>(f: T -> multiset<E>, s: seq<T>, i: nat, x: T)
    requires i < |s|
    ensures GatherBy(f, s[i := x]) + f(s[i]) == GatherBy(f, s) + f(x)
  {
    if i == 0 {
      assert s[0 := x][1..] == s[1..];
    } else {
      var rest, rest' := s[1..], s[i := x][1..];
      assert rest' == rest[i - 1 := x];
      GatherByUpdate(f, rest, i - 1, x);
      var first, before, after := f(s[0]), GatherBy(f, rest), GatherBy(f, rest');
      assert after + f(s[i]) == before + f(x);
      assert (first + after) + f(s[i]) == first + (after + f(s[i]));
      assert (first + before) + f(x) == first + (before + f(x));
      assert GatherBy(f, s[i := x]) == first + after;
    }
  }

  lemma {:induction false} GatherBySame<T, E>(f: T -> multiset<E>, s: seq<T>, s': seq<T>)
    requires |s| == |s'|
    requires forall i :: 0 <= i < |s| ==> f(s[i]) == f(s'[i])
    ensures GatherBy(f, s) == GatherBy(f, s')
  {
    if s != [] {
      GatherBySame(f, s[1..], s'[1..]);
    }
  }

  lemma {:induction false} GatherByNothing<T, E>(f: T -> multiset<E>, s: seq<T>)
    requires forall i :: 0 <= i < |s| ==> f(s[i]) == multiset{}
    ensures GatherBy(f, s) == multiset{}
  {
    if s != [] {
      GatherByNothing(f, s[1..]);
    }
  }
}
