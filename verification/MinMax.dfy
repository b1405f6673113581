/** Minimum and maximum of a matrix: the sequential searches and the two fork-join ones, which
    split the rows into blocks, give each block to a thread with a result slot of its own, and
    merge the slots after the joins. */
module MinMax {
  import opened Blocks

  datatype MinMaxResult = MinMaxResult(minValue: int, maxValue: int)

  /** r holds the least and the greatest element of data. */
  predicate IsMinMax(data: seq<int>, r: MinMaxResult) {
    && r.minValue in data && r.maxValue in data
    && forall i :: 0 <= i < |data| ==> r.minValue <= data[i] <= r.maxValue
  }

  lemma MinMaxUnique(data: seq<int>, r: MinMaxResult, r': MinMaxResult)
    requires IsMinMax(data, r) && IsMinMax(data, r')
    ensures r == r'
  {
  }

  /** One element looked at. */
  function Widen(r: MinMaxResult, x: int): MinMaxResult {
    MinMaxResult(if x < r.minValue then x else r.minValue, if x > r.maxValue then x else r.maxValue)
  }

  lemma WidenIsMinMax(data: seq<int>, r: MinMaxResult, x: int)
    requires IsMinMax(data, r)
    ensures IsMinMax(data + [x], Widen(r, x))
  {
  }

  function Merge(r: MinMaxResult, r': MinMaxResult): MinMaxResult {
    MinMaxResult(if r'.minValue < r.minValue then r'.minValue else r.minValue,
                 if r'.maxValue > r.maxValue then r'.maxValue else r.maxValue)
  }

  /** Merging results is the result of the concatenation. */
  lemma MergeIsMinMax(data: seq<int>, r: MinMaxResult, data': seq<int>, r': MinMaxResult)
    requires IsMinMax(data, r) && IsMinMax(data', r')
    ensures IsMinMax(data + data', Merge(r, r'))
  {
  }

  /** A result of elements seen before changes nothing, which is why the slots of idle threads
      may hold the first element of the matrix. */
  lemma MergeNeutral(data: seq<int>, r: MinMaxResult, x: int)
    requires IsMinMax(data, r) && x in data
    ensures Merge(r, MinMaxResult(x, x)) == r
  {
  }

  /** The loop all variants share: start from the element at lo, go on to hi. */
  method Scan(data: seq<int>, lo: nat, hi: nat) returns (r: MinMaxResult)
    requires lo < hi <= |data|
    ensures IsMinMax(data[lo..hi], r)
  {
    r := MinMaxResult(data[lo], data[lo]);
    assert data[lo..lo + 1] == [data[lo]];
    for index := lo + 1 to hi
      invariant IsMinMax(data[lo..index], r)
    {
      WidenIsMinMax(data[lo..index], r, data[index]);
      assert data[lo..index + 1] == data[lo..index] + [data[index]];
      if data[index] < r.minValue {
        r := r.(minValue := data[index]);
      }
      if data[index] > r.maxValue {
        r := r.(maxValue := data[index]);
      }
    }
  }

  method FindMinMaxSequential(data: seq<int>) returns (r: MinMaxResult)
    requires data != []
    ensures IsMinMax(data, r)
  {
    r := Scan(data, 0, |data|);
    assert data[0..|data|] == data;
  }

  lemma RowBounds(rows: nat, cols: nat, lo: nat, hi: nat)
    requires lo <= hi <= rows
    ensures lo * cols <= hi * cols <= rows * cols
    ensures lo < hi && cols > 0 ==> lo * cols < hi * cols
  {
  }

  /** Slot i, once filled, is the result of the rows of block i. */
  predicate SlotFilled(data: seq<int>, rows: nat, cols: nat, k: nat, i: nat, slot: MinMaxResult)
    requires i < k <= rows && |data| == rows * cols && cols > 0
  {
    BlockNonEmpty(rows, k, i);
    var lo, hi := BlockStart(rows, k, i), BlockStart(rows, k, i + 1);
    RowBounds(rows, cols, lo, hi);
    IsMinMax(data[lo * cols..hi * cols], slot)
  }

  /** The fork-join search of the server. The threads finish in any order. */
  method FindMinMaxParallel(data: seq<int>, rows: nat, cols: nat, numThreads: nat) returns (r: MinMaxResult)
    requires data == [] || |data| == rows * cols
    ensures data == [] ==> r == MinMaxResult(0, 0)
    ensures data != [] ==> IsMinMax(data, r)
  {
    if |data| == 0 {
      return MinMaxResult(0, 0);
    }
    var k := numThreads;
    if k == 0 {
      k := 1;
    }
    if k == 1 || rows == 1 {
      r := FindMinMaxSequential(data);
      return;
    }
    if k > rows {
      k := rows;
    }
    var localResults := ForkJoin(data, rows, cols, k);
    r := MergeSlots(data, rows, cols, k, localResults);
  }

  function ThreadIds(k: nat): (ids: set<int>)
    ensures forall i :: i in ids <==> 0 <= i < k
  {
    if k == 0 then {} else ThreadIds(k - 1) + {k - 1}
  }

  method ForkJoin(data: seq<int>, rows: nat, cols: nat, k: nat) returns (localResults: array<MinMaxResult>)
    requires |data| == rows * cols && cols > 0 && 0 < k <= rows
    ensures fresh(localResults) && localResults.Length == k
    ensures forall i :: 0 <= i < k ==> SlotFilled(data, rows, cols, k, i, localResults[i])
  {
    hide BlockStart, IsMinMax;
    localResults := new MinMaxResult[k](_ => MinMaxResult(0, 0));
    var blocks := HandOutBlocks(rows, k);
    var running := ThreadIds(k);
    while running != {}
      invariant forall i :: i in running ==> 0 <= i < k
      invariant forall i :: 0 <= i < k && i !in running ==> SlotFilled(data, rows, cols, k, i, localResults[i])
      decreases |running|
    {
      var i :| i in running;
      BlockNonEmpty(rows, k, i);
      var (startRow, endRow) := blocks[i];
      RowBounds(rows, cols, startRow, endRow);
      var local := Scan(data, startRow * cols, endRow * cols);
      localResults[i] := local;
      running := running - {i};
    }
  }

  /** Merging the slot of the next block extends the result by the rows of that block. */
  lemma MergeSlot(data: seq<int>, rows: nat, cols: nat, k: nat, i: nat, r: MinMaxResult, slot: MinMaxResult)
    requires |data| == rows * cols && cols > 0 && i < k <= rows
    requires SlotFilled(data, rows, cols, k, i, slot)
    requires BlockStart(rows, k, i) * cols <= |data| && IsMinMax(data[..BlockStart(rows, k, i) * cols], r)
    ensures BlockStart(rows, k, i + 1) * cols <= |data|
    ensures IsMinMax(data[..BlockStart(rows, k, i + 1) * cols], Merge(r, slot))
  {
    hide BlockStart, IsMinMax, Merge;
    BlockNonEmpty(rows, k, i);
    RowBounds(rows, cols, BlockStart(rows, k, i), BlockStart(rows, k, i + 1));
    var done, next := BlockStart(rows, k, i) * cols, BlockStart(rows, k, i + 1) * cols;
    MergeIsMinMax(data[..done], r, data[done..next], slot);
    assert data[..next] == data[..done] + data[done..next];
  }

  lemma FirstSlot(data: seq<int>, rows: nat, cols: nat, k: nat, slot: MinMaxResult)
    requires |data| == rows * cols && cols > 0 && 0 < k <= rows
    requires SlotFilled(data, rows, cols, k, 0, slot)
    ensures BlockStart(rows, k, 1) * cols <= |data|
    ensures IsMinMax(data[..BlockStart(rows, k, 1) * cols], slot)
  {
    hide BlockStart;
    BlockEnds(rows, k);
    BlockNonEmpty(rows, k, 0);
    RowBounds(rows, cols, 0, BlockStart(rows, k, 1));
    assert data[0..BlockStart(rows, k, 1) * cols] == data[..BlockStart(rows, k, 1) * cols];
  }

  method MergeSlots(data: seq<int>, rows: nat, cols: nat, k: nat, localResults: array<MinMaxResult>)
    returns (r: MinMaxResult)
    requires |data| == rows * cols && cols > 0 && 0 < k <= rows && localResults.Length == k
    requires forall i :: 0 <= i < k ==> SlotFilled(data, rows, cols, k, i, localResults[i])
    ensures IsMinMax(data, r)
  {
    hide BlockStart, IsMinMax, SlotFilled;
    r := localResults[0];
    FirstSlot(data, rows, cols, k, r);
    for i := 1 to k
      invariant BlockStart(rows, k, i) * cols <= |data|
      invariant IsMinMax(data[..BlockStart(rows, k, i) * cols], r)
    {
      MergeSlot(data, rows, cols, k, i, r, localResults[i]);
      if localResults[i].minValue < r.minValue {
        r := r.(minValue := localResults[i].minValue);
      }
      if localResults[i].maxValue > r.maxValue {
        r := r.(maxValue := localResults[i].maxValue);
      }
    }
    BlockEnds(rows, k);
    assert data[..|data|] == data;
  }

  // ---- the matrix of rows and its search, where threads without rows exist ----

  datatype Matrix = Matrix(rows: nat, cols: nat, arr: seq<seq<int>>) {
    predicate Valid() {
      |arr| == rows && forall i :: 0 <= i < rows ==> |arr[i]| == cols
    }
  }

  /** The elements of the rows, one row after the other. */
  function Flat(rows: seq<seq<int>>): seq<int> {
    if rows == [] then [] else Flat(rows[..|rows| - 1]) + rows[|rows| - 1]
  }

  lemma {:induction false} FlatAppend(front: seq<seq<int>>, back: seq<seq<int>>)
    ensures Flat(front + back) == Flat(front) + Flat(back)
  {
    if back == [] {
      assert front + back == front;
    } else {
      var init, last := back[..|back| - 1], back[|back| - 1];
      FlatAppend(front, init);
      assert (front + back)[..|front + back| - 1] == front + init;
    }
  }

  lemma FlatNext(arr: seq<seq<int>>, lo: nat, i: nat)
    requires lo <= i < |arr|
    ensures Flat(arr[lo..i + 1]) == Flat(arr[lo..i]) + arr[i]
  {
    assert arr[lo..i + 1][..i - lo] == arr[lo..i];
  }

  /** The rows from startRow to endRow, starting from their first element. */
  method MinMaxWorker(matrix: Matrix, startRow: nat, endRow: nat) returns (r: MinMaxResult)
    requires matrix.Valid() && matrix.cols > 0 && startRow < endRow <= matrix.rows
    ensures IsMinMax(Flat(matrix.arr[startRow..endRow]), r)
  {
    var first := matrix.arr[startRow][0];
    r := MinMaxResult(first, first);
    assert [first] + Flat(matrix.arr[startRow..startRow]) == [first];
    for i := startRow to endRow
      invariant IsMinMax([first] + Flat(matrix.arr[startRow..i]), r)
    {
      r := ScanRow([first] + Flat(matrix.arr[startRow..i]), matrix.arr[i], r);
      FlatNext(matrix.arr, startRow, i);
      assert [first] + Flat(matrix.arr[startRow..i]) + matrix.arr[i] == [first] + Flat(matrix.arr[startRow..i + 1]);
    }
    FirstIsSeen(matrix, startRow, endRow);
    DropSeen(first, Flat(matrix.arr[startRow..endRow]), r);
  }

  method ScanRow(ghost seen: seq<int>, row: seq<int>, r0: MinMaxResult) returns (r: MinMaxResult)
    requires IsMinMax(seen, r0)
    ensures IsMinMax(seen + row, r)
  {
    r := r0;
    assert seen + row[..0] == seen;
    for j := 0 to |row|
      invariant IsMinMax(seen + row[..j], r)
    {
      WidenIsMinMax(seen + row[..j], r, row[j]);
      assert seen + row[..j + 1] == seen + row[..j] + [row[j]];
      var value := row[j];
      if value < r.minValue {
        r := r.(minValue := value);
      }
      if value > r.maxValue {
        r := r.(maxValue := value);
      }
    }
    assert row[..|row|] == row;
  }

  lemma {:induction false} FirstIsSeen(matrix: Matrix, lo: nat, hi: nat)
    requires matrix.Valid() && matrix.cols > 0 && lo < hi <= matrix.rows
    ensures matrix.arr[lo][0] in Flat(matrix.arr[lo..hi])
  {
    FlatNext(matrix.arr, lo, hi - 1);
    if lo + 1 < hi {
      FirstIsSeen(matrix, lo, hi - 1);
    }
  }

  lemma DropSeen(x: int, data: seq<int>, r: MinMaxResult)
    requires x in data && IsMinMax([x] + data, r)
    ensures IsMinMax(data, r)
  {
    forall i | 0 <= i < |data|
      ensures r.minValue <= data[i] <= r.maxValue
    {
      assert ([x] + data)[i + 1] == data[i];
    }
  }

  method FindMinMax(matrix: Matrix) returns (r: MinMaxResult)
    requires matrix.Valid() && matrix.rows > 0 && matrix.cols > 0
    ensures IsMinMax(Flat(matrix.arr), r)
  {
    r := MinMaxWorker(matrix, 0, matrix.rows);
    assert matrix.arr[0..matrix.rows] == matrix.arr;
  }

  /** Slot i is the result of block i, or the first element of the matrix if the block is empty. */
  predicate RowSlot(matrix: Matrix, k: nat, i: nat, slot: MinMaxResult)
    requires matrix.Valid() && matrix.rows > 0 && matrix.cols > 0 && i < k
  {
    BlockInside(matrix.rows, k, i);
    var lo, hi := BlockStart(matrix.rows, k, i), BlockStart(matrix.rows, k, i + 1);
    if lo < hi then IsMinMax(Flat(matrix.arr[lo..hi]), slot)
    else slot == MinMaxResult(matrix.arr[0][0], matrix.arr[0][0])
  }

  method FindMinMaxParallelRows(matrix: Matrix, numThreads: nat) returns (r: MinMaxResult)
    requires matrix.Valid() && matrix.rows > 0 && matrix.cols > 0 && numThreads > 0
    ensures IsMinMax(Flat(matrix.arr), r)
  {
    var localResults := ForkJoinRows(matrix, numThreads);
    r := MergeRowSlots(matrix, numThreads, localResults);
  }

  method MergeRowSlots(matrix: Matrix, k: nat, localResults: array<MinMaxResult>) returns (r: MinMaxResult)
    requires matrix.Valid() && matrix.rows > 0 && matrix.cols > 0 && k > 0 && localResults.Length == k
    requires forall i :: 0 <= i < k ==> RowSlot(matrix, k, i, localResults[i])
    ensures IsMinMax(Flat(matrix.arr), r)
  {
    hide BlockStart, IsMinMax, RowSlot, Flat;
    r := localResults[0];
    FirstRowSlot(matrix, k, r);
    for i := 1 to k
      invariant 0 < BlockStart(matrix.rows, k, i) <= matrix.rows
      invariant IsMinMax(Flat(matrix.arr[..BlockStart(matrix.rows, k, i)]), r)
    {
      MergeRowSlot(matrix, k, i, r, localResults[i]);
      if localResults[i].minValue < r.minValue {
        r := r.(minValue := localResults[i].minValue);
      }
      if localResults[i].maxValue > r.maxValue {
        r := r.(maxValue := localResults[i].maxValue);
      }
    }
    BlockEnds(matrix.rows, k);
    assert matrix.arr[..matrix.rows] == matrix.arr;
  }

  method ForkJoinRows(matrix: Matrix, k: nat) returns (localResults: array<MinMaxResult>)
    requires matrix.Valid() && matrix.rows > 0 && matrix.cols > 0 && k > 0
    ensures fresh(localResults) && localResults.Length == k
    ensures forall i :: 0 <= i < k ==> RowSlot(matrix, k, i, localResults[i])
  {
    hide BlockStart;
    localResults := new MinMaxResult[k](_ => MinMaxResult(0, 0));
    var blocks := HandOutBlocks(matrix.rows, k);
    var running := ThreadIds(k);
    while running != {}
      invariant forall i :: i in running ==> 0 <= i < k
      invariant forall i :: 0 <= i < k && i !in running ==> RowSlot(matrix, k, i, localResults[i])
      decreases |running|
    {
      var i :| i in running;
      BlockInside(matrix.rows, k, i);
      var (startRow, endRow) := blocks[i];
      if startRow < endRow {
        var local := MinMaxWorker(matrix, startRow, endRow);
        localResults[i] := local;
      } else {
        localResults[i] := MinMaxResult(matrix.arr[0][0], matrix.arr[0][0]);
      }
      running := running - {i};
    }
  }

  lemma FirstRowSlot(matrix: Matrix, k: nat, slot: MinMaxResult)
    requires matrix.Valid() && matrix.rows > 0 && matrix.cols > 0 && k > 0
    requires RowSlot(matrix, k, 0, slot)
    ensures 0 < BlockStart(matrix.rows, k, 1) <= matrix.rows
    ensures IsMinMax(Flat(matrix.arr[..BlockStart(matrix.rows, k, 1)]), slot)
  {
    FirstBlockNonEmpty(matrix.rows, k);
    assert matrix.arr[0..BlockStart(matrix.rows, k, 1)] == matrix.arr[..BlockStart(matrix.rows, k, 1)];
  }

  /** A working slot adds the rows of its block, an idle one changes nothing. */
  lemma MergeRowSlot(matrix: Matrix, k: nat, i: nat, r: MinMaxResult, slot: MinMaxResult)
    requires matrix.Valid() && matrix.rows > 0 && matrix.cols > 0 && 0 < i < k
    requires RowSlot(matrix, k, i, slot)
    requires 0 < BlockStart(matrix.rows, k, i) <= matrix.rows
    requires IsMinMax(Flat(matrix.arr[..BlockStart(matrix.rows, k, i)]), r)
    ensures 0 < BlockStart(matrix.rows, k, i + 1) <= matrix.rows
    ensures IsMinMax(Flat(matrix.arr[..BlockStart(matrix.rows, k, i + 1)]), Merge(r, slot))
  {
    hide BlockStart;
    BlockInside(matrix.rows, k, i);
    var lo, hi := BlockStart(matrix.rows, k, i), BlockStart(matrix.rows, k, i + 1);
    if lo < hi {
      MergeIsMinMax(Flat(matrix.arr[..lo]), r, Flat(matrix.arr[lo..hi]), slot);
      FlatAppend(matrix.arr[..lo], matrix.arr[lo..hi]);
      assert matrix.arr[..hi] == matrix.arr[..lo] + matrix.arr[lo..hi];
    } else {
      FirstIsSeen(matrix, 0, lo);
      assert matrix.arr[0..lo] == matrix.arr[..lo];
      MergeNeutral(Flat(matrix.arr[..lo]), r, matrix.arr[0][0]);
    }
  }
}
