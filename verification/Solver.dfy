/**
 Gauss-Jordan elimination with partial pivoting over exact reals.

 The augmented matrix is rewritten in place, row operation by row operation.  Everything the
 method promises is about the set of vectors its rows annihilate, which no step changes.
 */
module Solver {
  import opened Wrappers
  import opened Sums

  type Vector = seq<real>
  type Matrix = seq<seq<real>>

  datatype Error = ZeroPivot

  ghost predicate Shaped(m: Matrix, rows: nat, columns: nat) {
    |m| == rows && forall i :: 0 <= i < rows ==> |m[i]| == columns
  }

  ghost predicate Solves(a: Matrix, b: Vector, x: Vector) {
    |x| == |b| == |a| && forall i :: 0 <= i < |a| ==> Dot(|a|, a[i], x) == b[i]
  }

  /** The square matrix a sends some nonzero vector to zero. */
  ghost predicate Singular(a: Matrix) {
    exists v: Vector :: |v| == |a| && NonZero(v) && Solves(a, Zeros(|a|), v)
  }

  ghost predicate NonZero(v: Vector) {
    exists i :: 0 <= i < |v| && v[i] != 0.0
  }

  function Zeros(n: nat): (z: Vector)
    ensures |z| == n && forall i :: 0 <= i < n ==> z[i] == 0.0
  {
    seq(n, _ => 0.0)
  }

  // ---------- row operations keep the annihilated vectors ----------

  /** Every row of m is orthogonal to w. */
  ghost predicate Kernel(m: Matrix, w: Vector) {
    forall i :: 0 <= i < |m| ==> Dot(|w|, m[i], w) == 0.0
  }

  ghost predicate SameKernel(m: Matrix, m': Matrix, columns: nat) {
    forall w: Vector :: |w| == columns ==> (Kernel(m, w) <==> Kernel(m', w))
  }

  function SwapRows(m: Matrix, r: int, s: int): Matrix
    requires 0 <= r < |m| && 0 <= s < |m|
  {
    m[r := m[s]][s := m[r]]
  }

  function DivideFrom(row: Vector, c: int, p: real): Vector
    requires p != 0.0
  {
    seq(|row|, j requires 0 <= j < |row| => if j < c then row[j] else row[j] / p)
  }

  function SubtractFrom(row: Vector, pivotRow: Vector, c: int, f: real): Vector
    requires |row| == |pivotRow|
  {
    seq(|row|, j requires 0 <= j < |row| => if j < c then row[j] else row[j] - f * pivotRow[j])
  }

  lemma SwapKeepsKernel(m: Matrix, r: int, s: int, columns: nat)
    requires 0 <= r < |m| && 0 <= s < |m|
    ensures SameKernel(m, SwapRows(m, r, s), columns)
  {
    var m' := SwapRows(m, r, s);
    forall w: Vector | |w| == columns
      ensures Kernel(m, w) <==> Kernel(m', w)
    {
      if Kernel(m', w) {
        forall i | 0 <= i < |m|
          ensures Dot(|w|, m[i], w) == 0.0
        {
          assert m[i] == m'[if i == r then s else if i == s then r else i];
        }
      }
    }
  }

  /** Replacing one row by another that vanishes on the same vectors keeps the kernel. */
  lemma ReplaceRow(m: Matrix, k: int, row: Vector, w: Vector)
    requires 0 <= k < |m|
    requires (Dot(|w|, row, w) == 0.0 && Others(m, k, w)) <==> (Dot(|w|, m[k], w) == 0.0 && Others(m, k, w))
    ensures Kernel(m, w) <==> Kernel(m[k := row], w)
  {
    hide Dot;
    var m' := m[k := row];
    assert m'[k] == row;
    assert forall i :: 0 <= i < |m| && i != k ==> m'[i] == m[i];
  }

  ghost predicate Others(m: Matrix, k: int, w: Vector) {
    forall i :: 0 <= i < |m| && i != k ==> Dot(|w|, m[i], w) == 0.0
  }

  lemma DivideKeepsKernel(m: Matrix, c: int, p: real, columns: nat)
    requires Shaped(m, |m|, columns) && 0 <= c < |m| && p != 0.0
    requires forall j :: 0 <= j < c && j < columns ==> m[c][j] == 0.0
    ensures SameKernel(m, m[c := DivideFrom(m[c], c, p)], columns)
  {
    hide Kernel, Dot, Others;
    var row := DivideFrom(m[c], c, p);
    forall w: Vector | |w| == columns
      ensures Kernel(m, w) <==> Kernel(m[c := row], w)
    {
      DividedDot(m[c], c, p, w);
      ReplaceRow(m, c, row, w);
    }
  }

  lemma DividedDot(row: Vector, c: int, p: real, w: Vector)
    requires |w| == |row| && p != 0.0
    requires forall j :: 0 <= j < c && j < |row| ==> row[j] == 0.0
    ensures Dot(|w|, row, w) == p * Dot(|w|, DivideFrom(row, c, p), w)
  {
    hide Sum;
    var divided := DivideFrom(row, c, p);
    SumLinear(|w|, i => At(row, i) * At(w, i), p, i => At(divided, i) * At(w, i), 0.0, i => 0.0);
  }

  lemma SubtractedDot(row: Vector, pivotRow: Vector, c: int, f: real, w: Vector)
    requires |w| == |row| == |pivotRow|
    requires forall j :: 0 <= j < c && j < |row| ==> pivotRow[j] == 0.0
    ensures Dot(|w|, SubtractFrom(row, pivotRow, c, f), w) == Dot(|w|, row, w) - f * Dot(|w|, pivotRow, w)
  {
    hide Sum;
    SumLinear(|w|, i => At(SubtractFrom(row, pivotRow, c, f), i) * At(w, i), 1.0, i => At(row, i) * At(w, i),
              -f, i => At(pivotRow, i) * At(w, i));
  }

  lemma SubtractKeepsKernel(m: Matrix, c: int, k: int, f: real, columns: nat)
    requires Shaped(m, |m|, columns) && 0 <= c < |m| && 0 <= k < |m| && k != c
    requires forall j :: 0 <= j < c && j < columns ==> m[c][j] == 0.0
    ensures SameKernel(m, m[k := SubtractFrom(m[k], m[c], c, f)], columns)
  {
    hide Kernel, Dot;
    var row := SubtractFrom(m[k], m[c], c, f);
    forall w: Vector | |w| == columns
      ensures Kernel(m, w) <==> Kernel(m[k := row], w)
    {
      SubtractedDot(m[k], m[c], c, f, w);
      assert Others(m, k, w) ==> Dot(|w|, m[c], w) == 0.0;
      ReplaceRow(m, k, row, w);
    }
  }

  // ---------- what elimination has reached ----------

  /** The first `columns` columns are those of the identity. */
  ghost predicate Reduced(m: Matrix, columns: nat) {
    forall i, j :: 0 <= i < |m| && 0 <= j < columns && j < |m[i]| ==> m[i][j] == if i == j then 1.0 else 0.0
  }

  function Augment(a: Matrix, b: Vector): (m: Matrix)
    requires |a| == |b|
    ensures |m| == |a| && forall i :: 0 <= i < |a| ==> m[i] == a[i] + [b[i]]
  {
    seq(|a|, i requires 0 <= i < |a| => a[i] + [b[i]])
  }

  lemma {:induction false} DotExtend(n: nat, row: Vector, last: real, x: Vector, y: real)
    requires |row| == n && |x| == n
    ensures Dot(n + 1, row + [last], x + [y]) == Dot(n, row, x) + last * y
  {
    SumEqual(n, i => At(row + [last], i) * At(x + [y], i), i => At(row, i) * At(x, i));
  }

  /** Solutions of the system, and of the homogeneous one, read off the augmented kernel. */
  lemma KernelMeansSolution(a: Matrix, b: Vector, x: Vector)
    requires |a| == |b| == |x| && Shaped(a, |a|, |a|)
    ensures Kernel(Augment(a, b), x + [-1.0]) <==> Solves(a, b, x)
    ensures Kernel(Augment(a, b), x + [0.0]) <==> Solves(a, Zeros(|a|), x)
  {
    forall i | 0 <= i < |a|
      ensures Dot(|a| + 1, Augment(a, b)[i], x + [-1.0]) == Dot(|a|, a[i], x) - b[i]
      ensures Dot(|a| + 1, Augment(a, b)[i], x + [0.0]) == Dot(|a|, a[i], x)
    {
      DotExtend(|a|, a[i], b[i], x, -1.0);
      DotExtend(|a|, a[i], b[i], x, 0.0);
    }
  }

  function LastColumn(m: Matrix): Vector
    requires forall i :: 0 <= i < |m| ==> |m[i]| == |m| + 1
  {
    seq(|m|, i requires 0 <= i < |m| => m[i][|m|])
  }

  /** Once fully reduced, the annihilated vectors are the multiples of (last column, -1). */
  lemma ReducedKernel(m: Matrix, x: Vector, y: real)
    requires Shaped(m, |m|, |m| + 1) && Reduced(m, |m|) && |x| == |m|
    ensures Kernel(m, x + [y]) <==> forall i :: 0 <= i < |m| ==> x[i] == -y * LastColumn(m)[i]
  {
    forall i | 0 <= i < |m|
      ensures Dot(|m| + 1, m[i], x + [y]) == x[i] + m[i][|m|] * y
    {
      var w := x + [y];
      SumSingle(|m|, j => At(m[i], j) * At(w, j), i);
    }
    assert |x + [y]| == |m| + 1;
  }

  /** With no usable pivot in column c, that column depends on the earlier ones. */
  lemma NoPivotMeansSingular(a: Matrix, b: Vector, m: Matrix, c: nat)
    requires |a| == |b| && Shaped(a, |a|, |a|) && Shaped(m, |a|, |a| + 1) && c < |a|
    requires SameKernel(Augment(a, b), m, |a| + 1)
    requires Reduced(m, c)
    requires forall i :: c <= i < |a| ==> m[i][c] == 0.0
    ensures Singular(a)
  {
    var v := seq(|a|, i requires 0 <= i < |a| => if i < c then -m[i][c] else if i == c then 1.0 else 0.0);
    var w := v + [0.0];
    forall i | 0 <= i < |m|
      ensures Dot(|w|, m[i], w) == 0.0
    {
      DependentColumn(m[i], v, w, i, c);
    }
    assert Kernel(m, w);
    KernelMeansSolution(a, b, v);
    assert v[c] != 0.0;
    assert NonZero(v);
  }

  lemma DependentColumn(row: Vector, v: Vector, w: Vector, i: nat, c: nat)
    requires |row| == |v| + 1 && w == v + [0.0] && c < |v| && i < |v|
    requires forall j :: 0 <= j < c ==> row[j] == if i == j then 1.0 else 0.0
    requires forall j :: c <= j < |v| ==> v[j] == if j == c then 1.0 else 0.0
    requires if i < c then v[i] == -row[c] else row[c] == 0.0
    ensures Dot(|w|, row, w) == 0.0
  {
    var f := j => At(row, j) * At(w, j);
    if i < c {
      var g := j => if j == i then f(i) else 0.0;
      var h := j => if j == c then f(c) else 0.0;
      SumLinear(|w|, f, 1.0, g, 1.0, h);
      SumSingle(|w|, g, i);
      SumSingle(|w|, h, c);
    } else {
      SumZero(|w|, f);
    }
  }

  lemma ReducedMeansSolved(a: Matrix, b: Vector, m: Matrix)
    requires |a| == |b| && Shaped(a, |a|, |a|) && Shaped(m, |a|, |a| + 1)
    requires SameKernel(Augment(a, b), m, |a| + 1)
    requires Reduced(m, |a|)
    ensures forall x: Vector :: Solves(a, b, x) <==> x == LastColumn(m)
    ensures !Singular(a)
  {
    forall x: Vector | |x| == |a|
      ensures Solves(a, b, x) <==> x == LastColumn(m)
      ensures Solves(a, Zeros(|a|), x) ==> !NonZero(x)
    {
      ReducedDecides(a, b, m, x);
    }
  }

  lemma ReducedDecides(a: Matrix, b: Vector, m: Matrix, x: Vector)
    requires |a| == |b| == |x| && Shaped(a, |a|, |a|) && Shaped(m, |a|, |a| + 1)
    requires SameKernel(Augment(a, b), m, |a| + 1)
    requires Reduced(m, |a|)
    ensures Solves(a, b, x) <==> x == LastColumn(m)
    ensures Solves(a, Zeros(|a|), x) ==> !NonZero(x)
  {
    hide Kernel, Solves, Reduced, Augment;
    KernelMeansSolution(a, b, x);
    ReducedKernel(m, x, -1.0);
    ReducedKernel(m, x, 0.0);
    assert |x + [-1.0]| == |x + [0.0]| == |a| + 1;
  }

  // ---------- the in-place algorithm ----------

  function Abs(r: real): real {
    if r < 0.0 then -r else r
  }

  /** The current contents of the augmented matrix. */
  ghost function Contents(m: array2<real>): (s: Matrix)
    reads m
    ensures Shaped(s, m.Length0, m.Length1)
    ensures forall i, j :: 0 <= i < m.Length0 && 0 <= j < m.Length1 ==> s[i][j] == m[i, j]
  {
    seq(m.Length0, i requires 0 <= i < m.Length0 reads m =>
      seq(m.Length1, j requires 0 <= j < m.Length1 reads m => m[i, j]))
  }

  /** The first row at or below `column` with the largest entry there. */
  method PivotRow(m: array2<real>, column: nat) returns (best: nat)
    requires column < m.Length0 <= m.Length1
    ensures column <= best < m.Length0
    ensures forall i :: column <= i < m.Length0 ==> Abs(m[i, column]) <= Abs(m[best, column])
    ensures forall i :: column <= i < best ==> Abs(m[i, column]) < Abs(m[best, column])
  {
    best := column;
    for row := column to m.Length0
      invariant column <= best < m.Length0
      invariant forall i :: column <= i < row ==> Abs(m[i, column]) <= Abs(m[best, column])
      invariant forall i :: column <= i < best ==> Abs(m[i, column]) < Abs(m[best, column])
    {
      if Abs(m[row, column]) > Abs(m[best, column]) {
        best := row;
      }
    }
  }

  method Swap(m: array2<real>, r: nat, s: nat)
    requires r < m.Length0 && s < m.Length0 && r != s
    modifies m
    ensures Contents(m) == SwapRows(old(Contents(m)), r, s)
  {
    for j := 0 to m.Length1
      invariant forall i, k :: 0 <= i < m.Length0 && 0 <= k < m.Length1 ==>
        m[i, k] == old(m[if k < j && i == r then s else if k < j && i == s then r else i, k])
    {
      m[r, j], m[s, j] := m[s, j], m[r, j];
    }
    assert forall i :: 0 <= i < m.Length0 ==> Contents(m)[i] == SwapRows(old(Contents(m)), r, s)[i];
  }

  /** Divides the pivot row, from the pivot on, by the pivot. */
  method NormalizeRow(m: array2<real>, column: nat)
    requires column < m.Length0 && column < m.Length1 && m[column, column] != 0.0
    modifies m
    ensures Contents(m) == old(Contents(m)[column := DivideFrom(Contents(m)[column], column, m[column, column])])
  {
    var pivot := m[column, column];
    for j := column to m.Length1
      invariant forall i, k :: 0 <= i < m.Length0 && 0 <= k < m.Length1 ==>
        m[i, k] == if i == column && column <= k < j then old(m[i, k]) / pivot else old(m[i, k])
    {
      m[column, j] := m[column, j] / pivot;
    }
    ghost var was := old(Contents(m));
    forall i | 0 <= i < m.Length0
      ensures Contents(m)[i] == was[column := DivideFrom(was[column], column, pivot)][i]
    {
    }
  }

  /** Clears the pivot column of one other row. */
  method EliminateRow(m: array2<real>, column: nat, row: nat)
    requires column < m.Length0 && column < m.Length1 && row < m.Length0 && row != column
    modifies m
    ensures Contents(m) ==
      old(Contents(m)[row := SubtractFrom(Contents(m)[row], Contents(m)[column], column, m[row, column])])
  {
    var factor := m[row, column];
    for j := column to m.Length1
      invariant forall i, k :: 0 <= i < m.Length0 && 0 <= k < m.Length1 ==>
        m[i, k] == if i == row && column <= k < j then old(m[i, k]) - factor * old(m[column, k]) else old(m[i, k])
    {
      m[row, j] := m[row, j] - factor * m[column, j];
    }
    ghost var was := old(Contents(m));
    forall i, k | 0 <= i < m.Length0 && 0 <= k < m.Length1
      ensures Contents(m)[i][k] == was[row := SubtractFrom(was[row], was[column], column, factor)][i][k]
    {
      assert m[i, k] == if i == row && column <= k then was[i][k] - factor * was[column][k] else was[i][k];
    }
    EqualMatrices(Contents(m), was[row := SubtractFrom(was[row], was[column], column, factor)], m.Length1);
  }

  lemma EqualMatrices(m: Matrix, m': Matrix, columns: nat)
    requires Shaped(m, |m|, columns) && Shaped(m', |m|, columns)
    requires forall i, k :: 0 <= i < |m| && 0 <= k < columns ==> m[i][k] == m'[i][k]
    ensures m == m'
  {
    assert forall i :: 0 <= i < |m| ==> m[i] == m'[i];
  }

  lemma SameKernelTransitive(m0: Matrix, m1: Matrix, m2: Matrix, columns: nat)
    requires SameKernel(m0, m1, columns) && SameKernel(m1, m2, columns)
    ensures SameKernel(m0, m2, columns)
  {
    hide Kernel;
  }

  /** Column `column` is cleared in every row before `upTo` except the pivot row, where it is one. */
  ghost predicate Cleared(m: Matrix, column: nat, upTo: nat) {
    && column < |m| && upTo <= |m|
    && (forall i :: 0 <= i < |m| ==> column < |m[i]|)
    && m[column][column] == 1.0
    && forall i :: 0 <= i < upTo && i != column ==> m[i][column] == 0.0
  }

  lemma SwapStep(m: Matrix, column: nat, best: nat)
    requires Shaped(m, |m|, |m| + 1) && column <= best < |m| && Reduced(m, column)
    ensures var m' := SwapRows(m, column, best);
      Shaped(m', |m|, |m| + 1) && Reduced(m', column) && SameKernel(m, m', |m| + 1)
  {
    SwapKeepsKernel(m, column, best, |m| + 1);
  }

  lemma NormalizeStep(m: Matrix, column: nat)
    requires Shaped(m, |m|, |m| + 1) && column < |m| && Reduced(m, column) && m[column][column] != 0.0
    ensures var m' := m[column := DivideFrom(m[column], column, m[column][column])];
      Reduced(m', column) && Cleared(m', column, 0) && SameKernel(m, m', |m| + 1)
  {
    hide SameKernel;
    DivideKeepsKernel(m, column, m[column][column], |m| + 1);
  }

  lemma EliminateStep(m: Matrix, column: nat, row: nat)
    requires Shaped(m, |m|, |m| + 1) && row < |m| && row != column
    requires Reduced(m, column) && Cleared(m, column, row)
    ensures var m' := m[row := SubtractFrom(m[row], m[column], column, m[row][column])];
      Reduced(m', column) && Cleared(m', column, row + 1) && SameKernel(m, m', |m| + 1)
  {
    hide SameKernel;
    SubtractKeepsKernel(m, column, row, m[row][column], |m| + 1);
  }

  lemma ClearedMeansReduced(m: Matrix, column: nat)
    requires Shaped(m, |m|, |m| + 1) && Reduced(m, column) && Cleared(m, column, |m|)
    ensures Reduced(m, column + 1)
  {
  }

  lemma PivotRowIsCleared(m: Matrix, column: nat)
    requires Cleared(m, column, column)
    ensures Cleared(m, column, column + 1)
  {
  }

  /** One round of elimination: make column `column` a column of the identity. */
  method EliminateColumn(m: array2<real>, column: nat)
    requires m.Length1 == m.Length0 + 1 && column < m.Length0
    requires Reduced(Contents(m), column) && m[column, column] != 0.0
    modifies m
    ensures SameKernel(old(Contents(m)), Contents(m), m.Length1)
    ensures Reduced(Contents(m), column + 1)
  {
    hide SameKernel, Reduced, Cleared, DivideFrom, SubtractFrom, Contents;
    ghost var start := Contents(m);
    NormalizeStep(start, column);
    NormalizeRow(m, column);
    for row := 0 to m.Length0
      invariant SameKernel(start, Contents(m), m.Length1)
      invariant Reduced(Contents(m), column) && Cleared(Contents(m), column, row)
    {
      ghost var before := Contents(m);
      if row == column {
        PivotRowIsCleared(before, column);
      } else {
        EliminateStep(before, column, row);
        EliminateRow(m, column, row);
        SameKernelTransitive(start, before, Contents(m), m.Length1);
      }
    }
    ClearedMeansReduced(Contents(m), column);
  }

  /**
   Solves a square system.  A zero pivot is met exactly when the matrix is singular; otherwise the
   result is the one and only solution.
   */
  method Solve(a: Matrix, b: Vector) returns (r: Result<Vector, Error>)
    requires |a| == |b| && Shaped(a, |a|, |a|)
    ensures r.Err? <==> Singular(a)
    ensures r.Ok? ==> forall x: Vector :: Solves(a, b, x) <==> x == r.value
  {
    hide SameKernel, Reduced, Singular, Solves, Contents;
    var size := |b|;
    var m := new real[size, size + 1]((i, j) requires 0 <= i < size && 0 <= j < size + 1 =>
      if j < size then a[i][j] else b[i]);
    ghost var start := Augment(a, b);
    EqualMatrices(Contents(m), start, size + 1);
    NothingReduced(start);
    for column := 0 to size
      invariant SameKernel(start, Contents(m), size + 1)
      invariant Reduced(Contents(m), column)
    {
      ghost var before := Contents(m);
      var best := PivotRow(m, column);
      if m[best, column] == 0.0 {
        assert forall i :: column <= i < size ==> before[i][column] == 0.0;
        NoPivotMeansSingular(a, b, before, column);
        return Err(ZeroPivot);
      }
      if best != column {
        SwapStep(before, column, best);
        Swap(m, column, best);
      } else {
        SwapWithItself(before, column);
      }
      ghost var swapped := Contents(m);
      EliminateColumn(m, column);
      SameKernelTransitive(start, before, swapped, size + 1);
      SameKernelTransitive(start, swapped, Contents(m), size + 1);
    }
    ReducedMeansSolved(a, b, Contents(m));
    r := Ok(seq(size, i requires 0 <= i < size reads m => m[i, size]));
    assert r.value == LastColumn(Contents(m));
  }

  lemma NothingReduced(m: Matrix)
    ensures Reduced(m, 0) && forall columns: nat :: SameKernel(m, m, columns)
  {
  }

  lemma SwapWithItself(m: Matrix, column: nat)
    requires column < |m|
    ensures SwapRows(m, column, column) == m
    ensures SameKernel(m, m, |m| + 1)
  {
  }
}
