/** The block partition shared by the parallel searches: n items over k threads, the first
    n % k threads taking one extra item. */
module Blocks {

  /** Where block i starts, in closed form. */
  function BlockStart(n: nat, k: nat, i: nat): nat
    requires k > 0
  {
    i * (n / k) + (if i < n % k then i else n % k)
  }

  /** The closed form agrees with the running start that the spawning loops carry. */
  lemma BlockStep(n: nat, k: nat, i: nat)
    requires k > 0
    ensures BlockStart(n, k, i + 1) == BlockStart(n, k, i) + n / k + (if i < n % k then 1 else 0)
  {
  }

  lemma BlockEnds(n: nat, k: nat)
    requires k > 0
    ensures BlockStart(n, k, 0) == 0
    ensures BlockStart(n, k, k) == n
  {
  }

  lemma BlockMonotone(n: nat, k: nat, i: nat, j: nat)
    requires k > 0
    requires i <= j
    ensures BlockStart(n, k, i) <= BlockStart(n, k, j)
  {
  }

  /** Every block lies inside the range. */
  lemma BlockInside(n: nat, k: nat, i: nat)
    requires i < k
    ensures BlockStart(n, k, i) <= BlockStart(n, k, i + 1) <= n
  {
    BlockMonotone(n, k, i, i + 1);
    BlockMonotone(n, k, i + 1, k);
    BlockEnds(n, k);
  }

  /** With no more threads than items no block is empty. */
  lemma BlockNonEmpty(n: nat, k: nat, i: nat)
    requires i < k <= n
    ensures BlockStart(n, k, i) < BlockStart(n, k, i + 1) <= n
  {
    BlockInside(n, k, i);
    BlockStep(n, k, i);
    assert n / k >= 1;
  }

  /** The first thread always gets something if there is anything. */
  lemma FirstBlockNonEmpty(n: nat, k: nat)
    requires n > 0 && k > 0
    ensures 0 == BlockStart(n, k, 0) < BlockStart(n, k, 1) <= n
  {
    BlockInside(n, k, 0);
    BlockStep(n, k, 0);
    assert n == k * (n / k) + n % k;
  }

  lemma SmallDivision(n: nat, k: nat)
    requires n < k
    ensures n / k == 0 && n % k == n
  {
  }

  /** With two items and two threads the first two blocks are not empty. */
  lemma BlockNonEmptyAtFront(n: nat, k: nat, i: nat)
    requires n >= 2 && k >= 2 && i < 2
    ensures BlockStart(n, k, i) < BlockStart(n, k, i + 1) <= n
  {
    BlockInside(n, k, i);
    hide BlockStart;
    if k <= n {
      BlockNonEmpty(n, k, i);
    } else {
      BlockStep(n, k, i);
      SmallDivision(n, k);
    }
  }

  /** The blocks cover the range and are disjoint: each item has exactly one owner. */
  function Owner(n: nat, k: nat, x: nat): (t: nat)
    requires k > 0
    requires x < n
    ensures t < k
    ensures BlockStart(n, k, t) <= x < BlockStart(n, k, t + 1)
  {
    BlockEnds(n, k);
    OwnerFrom(n, k, x, 0)
  }

  function OwnerFrom(n: nat, k: nat, x: nat, t: nat): (r: nat)
    requires t < k
    requires BlockStart(n, k, t) <= x < n
    ensures r < k
    ensures BlockStart(n, k, r) <= x < BlockStart(n, k, r + 1)
    decreases k - t
  {
    if x < BlockStart(n, k, t + 1) then t
    else
      BlockEnds(n, k);
      OwnerFrom(n, k, x, t + 1)
  }

  lemma OwnerUnique(n: nat, k: nat, x: nat, t: nat)
    requires t < k
    requires x < n
    requires BlockStart(n, k, t) <= x < BlockStart(n, k, t + 1)
    ensures Owner(n, k, x) == t
  {
    var r := Owner(n, k, x);
    if r < t {
      BlockMonotone(n, k, r + 1, t);
    } else if t < r {
      BlockMonotone(n, k, t + 1, r);
    }
  }

  /** Seen from outside: the blocks are adjacent, and their sizes differ by at most one. */
  lemma BlockSizes(n: nat, k: nat, blocks: seq<(nat, nat)>)
    requires k > 0 && |blocks| == k
    requires forall i :: 0 <= i < k ==> blocks[i].0 == BlockStart(n, k, i) && blocks[i].1 == BlockStart(n, k, i + 1)
    ensures blocks[0].0 == 0 && blocks[k - 1].1 == n
    ensures forall i :: 0 < i < k ==> blocks[i].0 == blocks[i - 1].1
    ensures forall i :: 0 <= i < k ==> blocks[i].1 == blocks[i].0 + n / k + (if i < n % k then 1 else 0)
  {
    hide BlockStart;
    BlockEnds(n, k);
    assert blocks[0].0 == BlockStart(n, k, 0) && blocks[k - 1].1 == BlockStart(n, k, k);
    forall i | 0 < i < k
      ensures blocks[i].0 == blocks[i - 1].1
    {
      assert blocks[i].0 == BlockStart(n, k, i) && blocks[i - 1].1 == BlockStart(n, k, i);
    }
    forall i | 0 <= i < k
      ensures blocks[i].1 == blocks[i].0 + n / k + (if i < n % k then 1 else 0)
    {
      BlockStep(n, k, i);
    }
  }

  /** The two loops that hand out blocks keep only a running start; its value in round i is
      the closed form, and after the last round it is n. */
  method HandOutBlocks(n: nat, k: nat) returns (blocks: seq<(nat, nat)>)
    requires k > 0
    ensures |blocks| == k
    ensures forall i :: 0 <= i < k ==> blocks[i].0 == BlockStart(n, k, i) && blocks[i].1 == BlockStart(n, k, i + 1)
    ensures blocks[0].0 == 0 && blocks[k - 1].1 == n
    ensures forall i :: 0 < i < k ==> blocks[i].0 == blocks[i - 1].1
    ensures forall i :: 0 <= i < k ==> blocks[i].1 == blocks[i].0 + n / k + (if i < n % k then 1 else 0)
  {
    hide BlockStart;
    var blockSize, remainder := n / k, n % k;
    var blockStart := 0;
    blocks := [];
    BlockEnds(n, k);
    for threadIndex := 0 to k
      invariant blockStart == BlockStart(n, k, threadIndex)
      invariant |blocks| == threadIndex
      invariant forall i :: 0 <= i < threadIndex ==> blocks[i].0 == BlockStart(n, k, i) && blocks[i].1 == BlockStart(n, k, i + 1)
    {
      var extra := if threadIndex < remainder then 1 else 0;
      var blockEnd := blockStart + blockSize + extra;
      BlockStep(n, k, threadIndex);
      blocks := blocks + [(blockStart, blockEnd)];
      blockStart := blockEnd;
    }
    BlockSizes(n, k, blocks);
  }
}
