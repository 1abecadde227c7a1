/** Anchored walk-forward folds: test blocks tile the rows after the head, each with its own training range. */
module Folds {
  import opened Wrappers
  import opened Arith

  datatype Range = Range(start: int, end: int)
  datatype Fold = Fold(id: nat, train: Option<Range>, embargo: Option<Range>, test: Range)
  datatype Partition = Partition(parentRows: int, excludedHead: int, folds: seq<Fold>, testRows: int)
  datatype FoldError = UndersizedParent(rows: int, required: int)

  // ---------- test blocks ----------

  /**
   The blocks follow one another from first to n; all have the wanted size but the last, which takes
   the remainder too small for a block of its own.
   */
  ghost predicate Tiles(ranges: seq<Range>, first: int, n: int, size: int) {
    && ranges != [] && ranges[0].start == first && ranges[|ranges| - 1].end == n
    && (forall i :: 0 <= i < |ranges| - 1 ==> ranges[i].end == ranges[i + 1].start && ranges[i].end - ranges[i].start == size)
    && size <= ranges[|ranges| - 1].end - ranges[|ranges| - 1].start < 2 * size
  }

  method ComputeTestRanges(n: int, size: int, first: int) returns (ranges: seq<Range>)
    requires size > 0
    ensures n - first < size ==> ranges == []
    ensures n - first >= size ==> Tiles(ranges, first, n, size)
  {
    ranges := [];
    if n - first < size {
      return;
    }
    var current := first;
    while current + size <= n
      invariant ranges == [] ==> current == first
      invariant ranges != [] ==> ranges[0].start == first && ranges[|ranges| - 1].end == current
      invariant forall i :: 0 <= i < |ranges| ==> ranges[i].end - ranges[i].start == size
      invariant forall i :: 0 <= i < |ranges| - 1 ==> ranges[i].end == ranges[i + 1].start
      invariant n - current >= size
      decreases n - current
    {
      var next := current + size;
      if n - next < size {
        ranges := ranges + [Range(current, n)];
        break;
      }
      ranges := ranges + [Range(current, next)];
      current := next;
    }
  }

  /** Block i starts i sizes after the first. */
  lemma {:induction false} TileStarts(ranges: seq<Range>, first: int, n: int, size: int, i: nat)
    requires Tiles(ranges, first, n, size) && i < |ranges|
    ensures ranges[i].start == first + i * size
  {
    if i > 0 {
      TileStarts(ranges, first, n, size, i - 1);
      assert ranges[i - 1].end == ranges[i - 1 + 1].start;
      assert i * size == (i - 1) * size + size;
    }
  }

  /** There are as many blocks as whole sizes fit. */
  lemma TileCount(ranges: seq<Range>, first: int, n: int, size: int)
    requires size > 0 && Tiles(ranges, first, n, size)
    ensures |ranges| == (n - first) / size
  {
    var last := |ranges| - 1;
    TileStarts(ranges, first, n, size, last);
    var rest := n - first - last * size;
    assert |ranges| * size == last * size + size;
    DivModUnique(n - first, |ranges|, rest - size, size);
  }

  /** The tiling is the only one. */
  lemma TilingIsUnique(a: seq<Range>, b: seq<Range>, first: int, n: int, size: int)
    requires size > 0 && Tiles(a, first, n, size) && Tiles(b, first, n, size)
    ensures a == b
  {
    TileCount(a, first, n, size);
    TileCount(b, first, n, size);
    forall i | 0 <= i < |a|
      ensures a[i] == b[i]
    {
      TileStarts(a, first, n, size, i);
      TileStarts(b, first, n, size, i);
    }
  }

  /** Every row after the head lies in exactly one block. */
  lemma EveryRowTestedOnce(ranges: seq<Range>, first: int, n: int, size: int, row: int)
    requires size > 0 && Tiles(ranges, first, n, size) && first <= row < n
    ensures exists i :: 0 <= i < |ranges| && Inside(ranges[i], row)
    ensures forall i, j :: 0 <= i < j < |ranges| ==> !(Inside(ranges[i], row) && Inside(ranges[j], row))
  {
    var q := (row - first) / size;
    TileCount(ranges, first, n, size);
    var last := |ranges| - 1;
    TileStarts(ranges, first, n, size, last);
    if row >= ranges[last].start {
      assert Inside(ranges[last], row);
    } else {
      BlockOf(row - first, size, last);
      TileStarts(ranges, first, n, size, q);
      assert Inside(ranges[q], row);
    }
    forall i, j | 0 <= i < j < |ranges|
      ensures !(Inside(ranges[i], row) && Inside(ranges[j], row))
    {
      TileStarts(ranges, first, n, size, i);
      TileStarts(ranges, first, n, size, j);
      BlocksApart(i, j, size);
      assert ranges[i].end == ranges[i + 1].start;
    }
  }

  predicate Inside(r: Range, row: int) {
    r.start <= row < r.end
  }

  lemma BlockOf(offset: int, size: int, last: nat)
    requires size > 0 && 0 <= offset < last * size
    ensures 0 <= offset / size < last
    ensures offset / size * size <= offset < offset / size * size + size
  {
    var q := offset / size;
    if q >= last {
      MulAtMost(last, q, size);
    }
  }

  lemma BlocksApart(i: nat, j: nat, size: int)
    requires i < j && size > 0
    ensures i * size + size <= j * size
  {
    MulAtMost(i + 1, j, size);
    assert (i + 1) * size == i * size + size;
  }

  // ---------- folds ----------

  /** Each fold trains on everything before its embargo, which ends where its test block starts. */
  ghost predicate GoodFold(f: Fold, id: nat, test: Range, embargo: int) {
    f == Fold(id, Some(Range(0, test.start - embargo)), Some(Range(test.start - embargo, test.start)), test)
  }

  ghost predicate GoodPartition(p: Partition, n: int, size: int, minTrain: int, embargo: int) {
    && p.parentRows == n && p.excludedHead == minTrain + embargo
    && p.testRows == n - p.excludedHead
    && exists ranges :: Tiles(ranges, minTrain + embargo, n, size) && FoldsOver(p.folds, ranges, embargo)
  }

  ghost predicate FoldsOver(folds: seq<Fold>, ranges: seq<Range>, embargo: int) {
    |folds| == |ranges| && forall i :: 0 <= i < |folds| ==> GoodFold(folds[i], i, ranges[i], embargo)
  }

  /** Sum of the sizes of the test ranges. */
  function TestRows(folds: seq<Fold>): int {
    if folds == [] then 0 else TestRows(folds[..|folds| - 1]) + (folds[|folds| - 1].test.end - folds[|folds| - 1].test.start)
  }

  lemma {:induction false} TestRowsTelescope(folds: seq<Fold>, ranges: seq<Range>, first: int, n: int, size: int, embargo: int, k: nat)
    requires Tiles(ranges, first, n, size) && FoldsOver(folds, ranges, embargo) && 0 < k <= |folds|
    ensures TestRows(folds[..k]) == ranges[k - 1].end - first
  {
    assert folds[..k][..k - 1] == folds[..k - 1];
    assert GoodFold(folds[k - 1], k - 1, ranges[k - 1], embargo);
    if k > 1 {
      TestRowsTelescope(folds, ranges, first, n, size, embargo, k - 1);
      assert ranges[k - 2].end == ranges[k - 2 + 1].start;
    } else {
      assert TestRows(folds[..0]) == 0;
    }
  }

  method BuildWalkforwardFolds(n: int, size: int, minTrain: nat, embargo: nat) returns (r: Result<Partition, FoldError>)
    requires size > 0
    ensures n < minTrain + embargo + size ==> r == Err(UndersizedParent(n, minTrain + embargo + size))
    ensures n >= minTrain + embargo + size ==> r.Ok? && GoodPartition(r.value, n, size, minTrain, embargo)
  {
    var required := minTrain + embargo + size;
    if n < required {
      return Err(UndersizedParent(n, required));
    }
    var first := minTrain + embargo;
    var ranges := ComputeTestRanges(n, size, first);
    var folds: seq<Fold> := [];
    for id := 0 to |ranges|
      invariant |folds| == id
      invariant forall i :: 0 <= i < id ==> GoodFold(folds[i], i, ranges[i], embargo)
    {
      var test := ranges[id];
      TrainLongEnough(ranges, first, n, size, id);
      var trainEnd := test.start - embargo;
      var train, gap: Option<Range> := None, None;
      if trainEnd >= minTrain {
        train, gap := Some(Range(0, trainEnd)), Some(Range(trainEnd, test.start));
      }
      folds := folds + [Fold(id, train, gap, test)];
    }
    var total := 0;
    for i := 0 to |folds|
      invariant total == TestRows(folds[..i])
    {
      assert folds[..i + 1][..i] == folds[..i];
      total := total + (folds[i].test.end - folds[i].test.start);
    }
    TestRowsTelescope(folds, ranges, first, n, size, embargo, |folds|);
    assert folds[..|folds|] == folds;
    assert FoldsOver(folds, ranges, embargo);
    r := Ok(Partition(n, first, folds, total));
  }

  /** No block starts before the first, so a training range is never missing. */
  lemma TrainLongEnough(ranges: seq<Range>, first: int, n: int, size: int, i: nat)
    requires size > 0 && Tiles(ranges, first, n, size) && i < |ranges|
    ensures ranges[i].start >= first && ranges[i].start < n
  {
    TileStarts(ranges, first, n, size, i);
    TileStarts(ranges, first, n, size, |ranges| - 1);
    MulAtMost(i, |ranges| - 1, size);
    assert i * size >= 0;
  }

  /** Every fold's training range ends exactly embargo rows before its nonempty test block. */
  lemma FoldShape(p: Partition, n: int, size: int, minTrain: nat, embargo: nat, i: nat)
    requires size > 0 && GoodPartition(p, n, size, minTrain, embargo) && i < |p.folds|
    ensures var f := p.folds[i];
      && f.train == Some(Range(0, f.test.start - embargo)) && f.embargo == Some(Range(f.test.start - embargo, f.test.start))
      && minTrain <= f.test.start - embargo && f.test.start < n
  {
    var ranges :| Tiles(ranges, minTrain + embargo, n, size) && FoldsOver(p.folds, ranges, embargo);
    assert GoodFold(p.folds[i], i, ranges[i], embargo);
    TrainLongEnough(ranges, minTrain + embargo, n, size, i);
  }
}
