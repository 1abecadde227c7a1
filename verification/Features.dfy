/**
 The research table: four causal features and two forward labels per row.  Decimal arithmetic at fifty
 digits is a parameter; any operation may signal, which aborts the whole table.
 */
module Features {
  import opened Wrappers
  import opened Sums

  datatype Op = Divide | Subtract | Add | Multiply | Sqrt | Quantize

  /** The decimal context: a result, or nothing when it signals. */
  type Context = (Op, real, real) -> Option<real>

  const ROC_WINDOW: nat := 60
  const VOL_WINDOW: nat := 20
  const VOLUME_WINDOW: nat := 20

  /** An absent value is a typed null; Raised aborts the table. */
  datatype Outcome = Raised | Cell(value: Option<real>)

  datatype Parent = Parent(openTime: int, close: real, volume: real)
  datatype Column = Ret | Roc | Rvol | VolRatio

  function Computed(r: Option<real>): Outcome {
    if r.None? then Raised else Cell(r)
  }

  // ---------- single values ----------

  function ReturnOver(f: Context, closes: seq<real>, t: nat, lag: nat): Option<real>
    requires lag <= t < |closes|
  {
    var quotient :- f(Divide, closes[t], closes[t - lag]);
    f(Subtract, quotient, 1.0)
  }

  /** One-bar returns at lo..hi-1. */
  function Returns(f: Context, closes: seq<real>, lo: nat, hi: nat): (r: Option<seq<real>>)
    requires 1 <= lo <= hi <= |closes|
    ensures r.Some? ==> |r.value| == hi - lo
    decreases hi - lo
  {
    if lo == hi then Some([])
    else
      var front :- Returns(f, closes, lo, hi - 1);
      var last :- ReturnOver(f, closes, hi - 1, 1);
      Some(front + [last])
  }

  function Total(f: Context, values: seq<real>): Option<real> {
    if values == [] then Some(0.0)
    else
      var front :- Total(f, values[..|values| - 1]);
      f(Add, front, values[|values| - 1])
  }

  function SquaredDeviations(f: Context, values: seq<real>, mean: real): Option<real> {
    if values == [] then Some(0.0)
    else
      var front :- SquaredDeviations(f, values[..|values| - 1], mean);
      var deviation :- f(Subtract, values[|values| - 1], mean);
      var square :- f(Multiply, deviation, deviation);
      f(Add, front, square)
  }

  /** Sample deviation of a window of returns. */
  function Deviation(f: Context, window: seq<real>): Option<real> {
    var total :- Total(f, window);
    var mean :- f(Divide, total, VOL_WINDOW as real);
    var squares :- SquaredDeviations(f, window, mean);
    var variance :- f(Divide, squares, VOL_WINDOW as real - 1.0);
    f(Sqrt, variance, 0.0)
  }

  function VolatilityAt(f: Context, closes: seq<real>, t: nat): Option<real>
    requires VOL_WINDOW <= t < |closes|
  {
    var window :- Returns(f, closes, t - VOL_WINDOW + 1, t + 1);
    Deviation(f, window)
  }

  function VolumeRatioAt(f: Context, volumes: seq<real>, t: nat): Option<real>
    requires VOLUME_WINDOW <= t + 1 && t < |volumes|
  {
    var total :- Total(f, volumes[t + 1 - VOLUME_WINDOW..t + 1]);
    var mean :- f(Divide, total, VOLUME_WINDOW as real);
    f(Divide, volumes[t], mean)
  }

  /** A feature before storage; null during its warm-up. */
  function FeatureAt(f: Context, column: Column, closes: seq<real>, volumes: seq<real>, t: nat): Outcome
    requires t < |closes| == |volumes|
  {
    match column
    case Ret => if t < 1 then Cell(None) else Computed(ReturnOver(f, closes, t, 1))
    case Roc => if t < ROC_WINDOW then Cell(None) else Computed(ReturnOver(f, closes, t, ROC_WINDOW))
    case Rvol => if t < VOL_WINDOW then Cell(None) else Computed(VolatilityAt(f, closes, t))
    case VolRatio => if t < VOLUME_WINDOW - 1 then Cell(None) else Computed(VolumeRatioAt(f, volumes, t))
  }

  /** The forward return; null when the horizon runs past the last row. */
  function ForwardReturnAt(f: Context, closes: seq<real>, horizon: nat, t: nat): Outcome
    requires t < |closes|
  {
    if t + horizon >= |closes| then Cell(None)
    else
      var quotient := f(Divide, closes[t + horizon], closes[t]);
      if quotient.None? then Raised else Computed(f(Subtract, quotient.value, 1.0))
  }

  /** The exact sign of the forward move. */
  function DirectionAt(closes: seq<real>, horizon: nat, t: nat): Option<int>
    requires t < |closes|
  {
    if t + horizon >= |closes| then None
    else if closes[t + horizon] > closes[t] then Some(1)
    else if closes[t + horizon] < closes[t] then Some(-1)
    else Some(0)
  }

  /** Quantization at the storage boundary. */
  function Stored(f: Context, outcome: Outcome): Outcome {
    match outcome
    case Cell(Some(x)) => Computed(f(Quantize, x, 0.0))
    case _ => outcome
  }

  // ---------- whole rows ----------

  function Closes(parents: seq<Parent>): (c: seq<real>)
    ensures |c| == |parents| && forall i :: 0 <= i < |c| ==> c[i] == parents[i].close
  {
    seq(|parents|, i requires 0 <= i < |parents| => parents[i].close)
  }

  function Volumes(parents: seq<Parent>): (v: seq<real>)
    ensures |v| == |parents| && forall i :: 0 <= i < |v| ==> v[i] == parents[i].volume
  {
    seq(|parents|, i requires 0 <= i < |parents| => parents[i].volume)
  }

  datatype RowOutcome = RowOutcome(
    openTime: int, ret: Outcome, roc: Outcome, rvol: Outcome, volRatio: Outcome, forwardReturn: Outcome, direction: Option<int>)

  datatype ResearchRow = ResearchRow(
    openTime: int, ret: Option<real>, roc: Option<real>, rvol: Option<real>, volRatio: Option<real>,
    forwardReturn: Option<real>, direction: Option<int>)

  /** Row t of the table, column by column. */
  function RowAt(f: Context, parents: seq<Parent>, horizon: nat, t: nat): RowOutcome
    requires t < |parents|
  {
    var c, v := Closes(parents), Volumes(parents);
    RowOutcome(
      parents[t].openTime,
      Stored(f, FeatureAt(f, Ret, c, v, t)), Stored(f, FeatureAt(f, Roc, c, v, t)),
      Stored(f, FeatureAt(f, Rvol, c, v, t)), Stored(f, FeatureAt(f, VolRatio, c, v, t)),
      Stored(f, ForwardReturnAt(f, c, horizon, t)), DirectionAt(c, horizon, t))
  }

  predicate Signals(row: RowOutcome) {
    row.ret.Raised? || row.roc.Raised? || row.rvol.Raised? || row.volRatio.Raised? || row.forwardReturn.Raised?
  }

  /** The stored row a row outcome stands for. */
  ghost predicate Holds(row: ResearchRow, outcome: RowOutcome) {
    outcome == RowOutcome(row.openTime, Cell(row.ret), Cell(row.roc), Cell(row.rvol), Cell(row.volRatio),
                          Cell(row.forwardReturn), row.direction)
  }

  /** The table is complete and right, or some value of some row signalled. */
  ghost predicate IsTable(r: Option<seq<ResearchRow>>, f: Context, parents: seq<Parent>, horizon: nat) {
    match r
    case Some(rows) => |rows| == |parents| && forall t :: 0 <= t < |rows| ==> Holds(rows[t], RowAt(f, parents, horizon, t))
    case None => exists t :: 0 <= t < |parents| && Signals(RowAt(f, parents, horizon, t))
  }

  // ---------- what the cells mean ----------

  /** Whatever the context answers is the exact result; division by zero is never answered. */
  ghost predicate Exact(f: Context) {
    && (forall x, y :: f(Divide, x, y).Some? ==> y != 0.0 && f(Divide, x, y).value * y == x)
    && (forall x, y :: f(Subtract, x, y).Some? ==> f(Subtract, x, y).value == x - y)
    && (forall x, y :: f(Add, x, y).Some? ==> f(Add, x, y).value == x + y)
    && (forall x, y :: f(Multiply, x, y).Some? ==> f(Multiply, x, y).value == x * y)
    && (forall x, y :: f(Sqrt, x, y).Some? ==> f(Sqrt, x, y).value >= 0.0 && f(Sqrt, x, y).value * f(Sqrt, x, y).value == x)
  }

  /** x is the relative change from base to value. */
  ghost predicate IsReturn(x: real, base: real, value: real) {
    base != 0.0 && (1.0 + x) * base == value
  }

  lemma ReturnMeans(f: Context, closes: seq<real>, t: nat, lag: nat)
    requires Exact(f) && lag <= t < |closes| && ReturnOver(f, closes, t, lag).Some?
    ensures IsReturn(ReturnOver(f, closes, t, lag).value, closes[t - lag], closes[t])
  {
  }

  lemma {:induction false} ReturnsMean(f: Context, closes: seq<real>, lo: nat, hi: nat)
    requires Exact(f) && 1 <= lo <= hi <= |closes| && Returns(f, closes, lo, hi).Some?
    ensures forall k :: 0 <= k < hi - lo ==> IsReturn(Returns(f, closes, lo, hi).value[k], closes[lo + k - 1], closes[lo + k])
    decreases hi - lo
  {
    hide Exact, ReturnOver, IsReturn;
    if lo < hi {
      ReturnsMean(f, closes, lo, hi - 1);
      ReturnMeans(f, closes, hi - 1, 1);
    }
  }

  lemma {:induction false} TotalMeans(f: Context, values: seq<real>)
    requires Exact(f) && Total(f, values).Some?
    ensures Total(f, values).value == Sum(|values|, k => At(values, k))
  {
    if values != [] {
      var n := |values| - 1;
      TotalMeans(f, values[..n]);
      SumEqual(n, k => At(values[..n], k), k => At(values, k));
    }
  }

  function Square(x: real): real {
    x * x
  }

  lemma {:induction false} SquaresMean(f: Context, values: seq<real>, mean: real)
    requires Exact(f) && SquaredDeviations(f, values, mean).Some?
    ensures SquaredDeviations(f, values, mean).value == Sum(|values|, k => Square(At(values, k) - mean))
  {
    hide Square;
    if values != [] {
      var n := |values| - 1;
      var front := values[..n];
      SquaresMean(f, front, mean);
      SumEqual(n, k => Square(At(front, k) - mean), k => Square(At(values, k) - mean));
      LastSquare(f, values, mean);
    }
  }

  lemma LastSquare(f: Context, values: seq<real>, mean: real)
    requires Exact(f) && values != [] && SquaredDeviations(f, values, mean).Some?
    ensures var front := values[..|values| - 1];
      && SquaredDeviations(f, front, mean).Some?
      && SquaredDeviations(f, values, mean).value == SquaredDeviations(f, front, mean).value + Square(values[|values| - 1] - mean)
  {
  }

  /** x is the sample deviation of the values: 19 x^2 is their summed squared distance from their mean. */
  ghost predicate IsDeviation(x: real, values: seq<real>, mean: real) {
    && x >= 0.0 && 20.0 * mean == Sum(|values|, k => At(values, k))
    && 19.0 * Square(x) == Sum(|values|, k => Square(At(values, k) - mean))
  }

  lemma DeviationMeans(f: Context, window: seq<real>) returns (mean: real)
    requires Exact(f) && Deviation(f, window).Some?
    ensures IsDeviation(Deviation(f, window).value, window, mean)
  {
    hide Sum, Total, SquaredDeviations;
    var total := Total(f, window).value;
    TotalMeans(f, window);
    mean := f(Divide, total, 20.0).value;
    SquaresMean(f, window, mean);
    var squares := SquaredDeviations(f, window, mean).value;
    assert f(Divide, squares, 19.0).value * 19.0 == squares;
  }

  /** The window holds the twenty returns that end at bar t. */
  ghost predicate LastReturns(window: seq<real>, closes: seq<real>, t: nat) {
    |window| == 20 <= t < |closes| && forall k :: 0 <= k < 20 ==> IsReturn(window[k], closes[t - 20 + k], closes[t - 19 + k])
  }

  lemma VolatilityMeans(f: Context, closes: seq<real>, t: nat) returns (window: seq<real>, mean: real)
    requires Exact(f) && VOL_WINDOW <= t < |closes| && VolatilityAt(f, closes, t).Some?
    ensures LastReturns(window, closes, t) && IsDeviation(VolatilityAt(f, closes, t).value, window, mean)
  {
    hide Exact, Returns, Deviation, IsDeviation, IsReturn;
    window := Returns(f, closes, t - 19, t + 1).value;
    ReturnsMean(f, closes, t - 19, t + 1);
    mean := DeviationMeans(f, window);
    forall k | 0 <= k < 20
      ensures IsReturn(window[k], closes[t - 20 + k], closes[t - 19 + k])
    {
      assert t - 19 + k - 1 == t - 20 + k;
    }
  }

  /** x times the last twenty volumes together is twenty times the volume of bar t. */
  ghost predicate IsVolumeRatio(x: real, volumes: seq<real>, t: nat) {
    && t < |volumes|
    && Sum(20, k => At(volumes, t - 19 + k)) != 0.0
    && x * Sum(20, k => At(volumes, t - 19 + k)) == 20.0 * volumes[t]
  }

  lemma SumShifted(window: seq<real>, values: seq<real>, from: nat, n: nat)
    requires n <= |window| && from + |window| <= |values| && window == values[from..from + |window|]
    ensures Sum(n, k => At(window, k)) == Sum(n, k => At(values, from + k))
  {
    var f, g := (k: int) => At(window, k), (k: int) => At(values, from + k);
    assert forall k :: 0 <= k < |window| ==> window[k] == values[from + k];
    forall k | 0 <= k < n
      ensures f(k) == g(k)
    {
      assert f(k) == At(window, k) == window[k];
      assert g(k) == At(values, from + k) == values[from + k];
    }
    SumEqual(n, f, g);
    SumEqual(n, f, k => At(window, k));
    SumEqual(n, g, k => At(values, from + k));
  }

  lemma VolumeRatioMeans(f: Context, volumes: seq<real>, t: nat)
    requires Exact(f) && 19 <= t < |volumes| && VolumeRatioAt(f, volumes, t).Some?
    ensures IsVolumeRatio(VolumeRatioAt(f, volumes, t).value, volumes, t)
  {
    hide Sum, Total;
    var window := volumes[t + 1 - VOLUME_WINDOW..t + 1];
    TotalMeans(f, window);
    SumShifted(window, volumes, t - 19, 20);
    var total := Total(f, window).value;
    var mean := f(Divide, total, 20.0).value;
    RatioOfMean(VolumeRatioAt(f, volumes, t).value, mean, total, volumes[t]);
  }

  lemma RatioOfMean(x: real, mean: real, total: real, v: real)
    requires mean * 20.0 == total && mean != 0.0 && x * mean == v
    ensures total != 0.0 && x * total == 20.0 * v
  {
    assert x * total == x * mean * 20.0;
  }

  // ---------- what a stored row means ----------

  /** The stored value is the one quantization of x. */
  ghost predicate StoredAs(stored: Option<real>, f: Context, x: real) {
    stored.Some? && f(Quantize, x, 0.0) == stored
  }

  ghost predicate ReturnCell(stored: Option<real>, f: Context, base: real, value: real) {
    exists x :: StoredAs(stored, f, x) && IsReturn(x, base, value)
  }

  ghost predicate VolatilityCell(stored: Option<real>, f: Context, closes: seq<real>, t: nat) {
    exists x, window, mean :: StoredAs(stored, f, x) && LastReturns(window, closes, t) && IsDeviation(x, window, mean)
  }

  ghost predicate VolumeRatioCell(stored: Option<real>, f: Context, volumes: seq<real>, t: nat) {
    exists x :: StoredAs(stored, f, x) && IsVolumeRatio(x, volumes, t)
  }

  /** Row t in terms of the parents' closes and volumes alone; every column is null exactly outside its reach. */
  ghost predicate RowMeans(row: ResearchRow, f: Context, parents: seq<Parent>, horizon: nat, t: nat)
    requires t < |parents|
  {
    && row.openTime == parents[t].openTime
    && (if t < 1 then row.ret == None else ReturnCell(row.ret, f, parents[t - 1].close, parents[t].close))
    && (if t < 60 then row.roc == None else ReturnCell(row.roc, f, parents[t - 60].close, parents[t].close))
    && (if t < 20 then row.rvol == None else VolatilityCell(row.rvol, f, Closes(parents), t))
    && (if t < 19 then row.volRatio == None else VolumeRatioCell(row.volRatio, f, Volumes(parents), t))
    && (if t + horizon >= |parents| then row.forwardReturn == None && row.direction == None
        else
          && ReturnCell(row.forwardReturn, f, parents[t].close, parents[t + horizon].close)
          && var move := parents[t + horizon].close - parents[t].close;
             row.direction == Some(if move > 0.0 then 1 else if move < 0.0 then -1 else 0))
  }

  lemma StoredMeans(f: Context, outcome: Outcome, stored: Option<real>)
    requires Stored(f, outcome) == Cell(stored)
    ensures outcome == Cell(None) ==> stored == None
    ensures outcome.Cell? && outcome.value.Some? ==> StoredAs(stored, f, outcome.value.value)
    ensures outcome.Cell?
  {
  }

  lemma ReturnCellMeans(f: Context, parents: seq<Parent>, column: Column, lag: nat, t: nat, stored: Option<real>)
    requires Exact(f) && t < |parents| && ((column == Ret && lag == 1) || (column == Roc && lag == 60))
    requires Stored(f, FeatureAt(f, column, Closes(parents), Volumes(parents), t)) == Cell(stored)
    ensures if t < lag then stored == None else ReturnCell(stored, f, parents[t - lag].close, parents[t].close)
  {
    hide Exact, IsReturn, Stored, ReturnOver;
    var c := Closes(parents);
    StoredMeans(f, FeatureAt(f, column, c, Volumes(parents), t), stored);
    if lag <= t {
      ReturnMeans(f, c, t, lag);
      assert StoredAs(stored, f, ReturnOver(f, c, t, lag).value);
    }
  }

  lemma VolatilityCellMeans(f: Context, parents: seq<Parent>, t: nat, stored: Option<real>)
    requires Exact(f) && t < |parents|
    requires Stored(f, FeatureAt(f, Rvol, Closes(parents), Volumes(parents), t)) == Cell(stored)
    ensures if t < 20 then stored == None else VolatilityCell(stored, f, Closes(parents), t)
  {
    hide Exact, Stored, VolatilityAt, LastReturns, IsDeviation;
    var c := Closes(parents);
    StoredMeans(f, FeatureAt(f, Rvol, c, Volumes(parents), t), stored);
    if 20 <= t {
      var window, mean := VolatilityMeans(f, c, t);
      assert StoredAs(stored, f, VolatilityAt(f, c, t).value);
    }
  }

  lemma VolumeRatioCellMeans(f: Context, parents: seq<Parent>, t: nat, stored: Option<real>)
    requires Exact(f) && t < |parents|
    requires Stored(f, FeatureAt(f, VolRatio, Closes(parents), Volumes(parents), t)) == Cell(stored)
    ensures if t < 19 then stored == None else VolumeRatioCell(stored, f, Volumes(parents), t)
  {
    hide Exact, Stored, VolumeRatioAt, IsVolumeRatio;
    var v := Volumes(parents);
    StoredMeans(f, FeatureAt(f, VolRatio, Closes(parents), v, t), stored);
    if 19 <= t {
      VolumeRatioMeans(f, v, t);
      assert StoredAs(stored, f, VolumeRatioAt(f, v, t).value);
    }
  }

  lemma ForwardCellMeans(f: Context, parents: seq<Parent>, horizon: nat, t: nat, stored: Option<real>)
    requires Exact(f) && t < |parents|
    requires Stored(f, ForwardReturnAt(f, Closes(parents), horizon, t)) == Cell(stored)
    ensures if t + horizon >= |parents| then stored == None
            else ReturnCell(stored, f, parents[t].close, parents[t + horizon].close)
  {
    hide Stored;
    var c := Closes(parents);
    StoredMeans(f, ForwardReturnAt(f, c, horizon, t), stored);
    if t + horizon < |parents| {
      ForwardReturnMeans(f, c, horizon, t);
      assert StoredAs(stored, f, ForwardReturnAt(f, c, horizon, t).value.value);
    }
  }

  /** A forward return that is there relates the two closes, and for a positive base has the direction's sign. */
  lemma ForwardReturnMeans(f: Context, closes: seq<real>, horizon: nat, t: nat)
    requires Exact(f) && t + horizon < |closes| && ForwardReturnAt(f, closes, horizon, t).Cell?
    ensures ForwardReturnAt(f, closes, horizon, t).value.Some?
    ensures var x := ForwardReturnAt(f, closes, horizon, t).value.value;
      && IsReturn(x, closes[t], closes[t + horizon])
      && (closes[t] > 0.0 ==> DirectionAt(closes, horizon, t) == Some(if x > 0.0 then 1 else if x < 0.0 then -1 else 0))
  {
    var x := ForwardReturnAt(f, closes, horizon, t).value.value;
    if closes[t] > 0.0 {
      GrowthSign(x, closes[t], closes[t + horizon]);
    }
  }

  lemma GrowthSign(x: real, base: real, value: real)
    requires base > 0.0 && (1.0 + x) * base == value
    ensures (value > base <==> x > 0.0) && (value < base <==> x < 0.0)
  {
    assert value - base == x * base;
    if x > 0.0 {
      assert x * base > 0.0;
    } else if x < 0.0 {
      assert (-x) * base > 0.0;
    }
  }

  /** A finished table means what it should, row by row, whenever the context's answers are exact. */
  lemma TableMeans(f: Context, parents: seq<Parent>, horizon: nat, rows: seq<ResearchRow>, t: nat)
    requires Exact(f) && IsTable(Some(rows), f, parents, horizon) && t < |rows|
    ensures |rows| == |parents| && RowMeans(rows[t], f, parents, horizon, t)
  {
    hide Exact, FeatureAt, ForwardReturnAt, Stored, ReturnCell, VolatilityCell, VolumeRatioCell;
    assert Holds(rows[t], RowAt(f, parents, horizon, t));
    var row := rows[t];
    ReturnCellMeans(f, parents, Ret, 1, t, row.ret);
    ReturnCellMeans(f, parents, Roc, 60, t, row.roc);
    VolatilityCellMeans(f, parents, t, row.rvol);
    VolumeRatioCellMeans(f, parents, t, row.volRatio);
    ForwardCellMeans(f, parents, horizon, t, row.forwardReturn);
  }

  // ---------- the loops ----------

  type Cells = seq<Option<real>>

  /** The first n cells of a column. */
  ghost predicate IsColumn(cells: Cells, f: Context, column: Column, closes: seq<real>, volumes: seq<real>, n: nat)
    requires |closes| == |volumes|
  {
    n <= |closes| == |cells| && forall t :: 0 <= t < n ==> FeatureAt(f, column, closes, volumes, t) == Cell(cells[t])
  }

  ghost predicate SomeSignal(f: Context, column: Column, closes: seq<real>, volumes: seq<real>)
    requires |closes| == |volumes|
  {
    exists t :: 0 <= t < |closes| && FeatureAt(f, column, closes, volumes, t).Raised?
  }

  method SumWindow(f: Context, window: seq<real>) returns (r: Option<real>)
    ensures r == Total(f, window)
  {
    var total := 0.0;
    for i := 0 to |window|
      invariant Total(f, window[..i]) == Some(total)
    {
      assert window[..i + 1][..i] == window[..i];
      var next := f(Add, total, window[i]);
      if next.None? {
        TotalStops(f, window, i + 1);
        return None;
      }
      total := next.value;
    }
    assert window[..|window|] == window;
    r := Some(total);
  }

  lemma {:induction false} TotalStops(f: Context, window: seq<real>, k: nat)
    requires k <= |window| && Total(f, window[..k]).None?
    ensures Total(f, window).None?
    decreases |window|
  {
    if k == |window| {
      assert window[..k] == window;
    } else {
      var front := window[..|window| - 1];
      assert front[..k] == window[..k];
      TotalStops(f, front, k);
    }
  }

  lemma {:induction false} SquaresStop(f: Context, window: seq<real>, mean: real, k: nat)
    requires k <= |window| && SquaredDeviations(f, window[..k], mean).None?
    ensures SquaredDeviations(f, window, mean).None?
    decreases |window|
  {
    if k == |window| {
      assert window[..k] == window;
    } else {
      var front := window[..|window| - 1];
      assert front[..k] == window[..k];
      SquaresStop(f, front, mean, k);
    }
  }

  method SumSquares(f: Context, window: seq<real>, mean: real) returns (r: Option<real>)
    ensures r == SquaredDeviations(f, window, mean)
  {
    var total := 0.0;
    for i := 0 to |window|
      invariant SquaredDeviations(f, window[..i], mean) == Some(total)
    {
      assert window[..i + 1][..i] == window[..i];
      if SquaredDeviations(f, window[..i + 1], mean).None? {
        SquaresStop(f, window, mean, i + 1);
      }
      var deviation :- f(Subtract, window[i], mean);
      var square :- f(Multiply, deviation, deviation);
      total :- f(Add, total, square);
    }
    assert window[..|window|] == window;
    r := Some(total);
  }

  method WindowDeviation(f: Context, window: seq<real>) returns (r: Option<real>)
    ensures r == Deviation(f, window)
  {
    hide Total, SquaredDeviations;
    var total :- SumWindow(f, window);
    var mean :- f(Divide, total, VOL_WINDOW as real);
    var squares :- SumSquares(f, window, mean);
    var variance :- f(Divide, squares, VOL_WINDOW as real - 1.0);
    r := f(Sqrt, variance, 0.0);
  }

  method ReturnColumn(f: Context, closes: seq<real>, volumes: seq<real>, lag: nat, column: Column) returns (r: Option<Cells>)
    requires |closes| == |volumes| && ((column == Ret && lag == 1) || (column == Roc && lag == ROC_WINDOW))
    ensures r.Some? ==> IsColumn(r.value, f, column, closes, volumes, |closes|)
    ensures r.Some? && Exact(f) ==> |r.value| == |closes| && forall t :: 0 <= t < |closes| ==>
      if t < lag then r.value[t] == None
      else r.value[t].Some? && closes[t - lag] != 0.0 && (1.0 + r.value[t].value) * closes[t - lag] == closes[t]
    ensures r.None? ==> SomeSignal(f, column, closes, volumes)
  {
    hide Exact, ReturnOver;
    var cells: Cells := seq(|closes|, _ => None);
    var t := lag;
    while t < |closes|
      invariant lag <= t && |cells| == |closes|
      invariant forall k :: 0 <= k < t && k < |closes| ==> FeatureAt(f, column, closes, volumes, k) == Cell(cells[k])
      invariant Exact(f) ==> forall k :: 0 <= k < t && k < |closes| ==>
        if k < lag then cells[k] == None else cells[k].Some? && IsReturn(cells[k].value, closes[k - lag], closes[k])
    {
      var value := ReturnOver(f, closes, t, lag);
      if value.Some? && Exact(f) {
        ReturnMeans(f, closes, t, lag);
      }
      if value.None? {
        assert FeatureAt(f, column, closes, volumes, t).Raised?;
        return None;
      }
      cells := cells[t := value];
      t := t + 1;
    }
    r := Some(cells);
  }

  /** The window of stored returns is the window of returns. */
  lemma {:induction false} ReturnWindow(f: Context, closes: seq<real>, volumes: seq<real>, ret: Cells, lo: nat, hi: nat)
    requires |closes| == |volumes| && IsColumn(ret, f, Ret, closes, volumes, |closes|) && 1 <= lo <= hi <= |closes|
    ensures forall i :: lo <= i < hi ==> ret[i].Some?
    ensures Returns(f, closes, lo, hi) == Some(seq(hi - lo, i requires 0 <= i < hi - lo => ret[lo + i].value))
    decreases hi - lo
  {
    hide IsColumn;
    StoredReturns(f, closes, volumes, ret);
    var want := seq(hi - lo, i requires 0 <= i < hi - lo => ret[lo + i].value);
    if lo < hi {
      ReturnWindow(f, closes, volumes, ret, lo, hi - 1);
      assert Returns(f, closes, lo, hi - 1).value + [ret[hi - 1].value] == want;
    } else {
      assert want == [];
    }
  }

  lemma StoredReturns(f: Context, closes: seq<real>, volumes: seq<real>, ret: Cells)
    requires |closes| == |volumes| && IsColumn(ret, f, Ret, closes, volumes, |closes|)
    ensures |ret| == |closes| && forall i :: 1 <= i < |ret| ==> ret[i].Some? && ReturnOver(f, closes, i, 1) == ret[i]
  {
    hide ReturnOver;
    forall i | 1 <= i < |ret|
      ensures ret[i].Some? && ReturnOver(f, closes, i, 1) == ret[i]
    {
      assert FeatureAt(f, Ret, closes, volumes, i) == Cell(ret[i]);
    }
  }

  /** The volatility loop reads the stored returns. */
  method VolatilityColumn(f: Context, closes: seq<real>, volumes: seq<real>, ret: Cells) returns (r: Option<Cells>)
    requires |closes| == |volumes| && IsColumn(ret, f, Ret, closes, volumes, |closes|)
    ensures r.Some? ==> IsColumn(r.value, f, Rvol, closes, volumes, |closes|)
    ensures r.None? ==> SomeSignal(f, Rvol, closes, volumes)
  {
    hide Deviation, Returns, ReturnOver;
    var cells: Cells := seq(|closes|, _ => None);
    var t := VOL_WINDOW;
    while t < |closes|
      invariant VOL_WINDOW <= t && |cells| == |closes|
      invariant forall k :: 0 <= k < t && k < |closes| ==> FeatureAt(f, Rvol, closes, volumes, k) == Cell(cells[k])
    {
      var lo := t - VOL_WINDOW + 1;
      ReturnWindow(f, closes, volumes, ret, lo, t + 1);
      var window := seq(t + 1 - lo, i requires 0 <= i < t + 1 - lo => ret[lo + i].value);
      var value := WindowDeviation(f, window);
      assert value == VolatilityAt(f, closes, t);
      if value.None? {
        assert FeatureAt(f, Rvol, closes, volumes, t).Raised?;
        return None;
      }
      cells := cells[t := value];
      t := t + 1;
    }
    r := Some(cells);
  }

  method VolumeRatio(f: Context, volumes: seq<real>, t: nat) returns (r: Option<real>)
    requires VOLUME_WINDOW <= t + 1 && t < |volumes|
    ensures r == VolumeRatioAt(f, volumes, t)
  {
    var total :- SumWindow(f, volumes[t + 1 - VOLUME_WINDOW..t + 1]);
    var mean :- f(Divide, total, VOLUME_WINDOW as real);
    r := f(Divide, volumes[t], mean);
  }

  method VolumeRatioColumn(f: Context, closes: seq<real>, volumes: seq<real>) returns (r: Option<Cells>)
    requires |closes| == |volumes|
    ensures r.Some? ==> IsColumn(r.value, f, VolRatio, closes, volumes, |closes|)
    ensures r.None? ==> SomeSignal(f, VolRatio, closes, volumes)
  {
    hide VolumeRatioAt;
    var cells: Cells := seq(|closes|, _ => None);
    var t := VOLUME_WINDOW - 1;
    while t < |closes|
      invariant VOLUME_WINDOW - 1 <= t && |cells| == |closes|
      invariant forall k :: 0 <= k < t && k < |closes| ==> FeatureAt(f, VolRatio, closes, volumes, k) == Cell(cells[k])
    {
      var value := VolumeRatio(f, volumes, t);
      if value.None? {
        assert FeatureAt(f, VolRatio, closes, volumes, t).Raised?;
        return None;
      }
      cells := cells[t := value];
      t := t + 1;
    }
    r := Some(cells);
  }

  datatype FeatureLists = FeatureLists(ret: Cells, roc: Cells, rvol: Cells, volRatio: Cells)

  ghost predicate AreFeatures(l: FeatureLists, f: Context, closes: seq<real>, volumes: seq<real>)
    requires |closes| == |volumes|
  {
    && IsColumn(l.ret, f, Ret, closes, volumes, |closes|) && IsColumn(l.roc, f, Roc, closes, volumes, |closes|)
    && IsColumn(l.rvol, f, Rvol, closes, volumes, |closes|) && IsColumn(l.volRatio, f, VolRatio, closes, volumes, |closes|)
  }

  method ComputeFeatures(f: Context, closes: seq<real>, volumes: seq<real>) returns (r: Option<FeatureLists>)
    requires |closes| == |volumes|
    ensures r.Some? ==> AreFeatures(r.value, f, closes, volumes)
    ensures r.None? ==> exists column :: SomeSignal(f, column, closes, volumes)
  {
    hide IsColumn, SomeSignal;
    var ret := ReturnColumn(f, closes, volumes, 1, Ret);
    if ret.None? { return None; }
    var roc := ReturnColumn(f, closes, volumes, ROC_WINDOW, Roc);
    if roc.None? { return None; }
    var rvol := VolatilityColumn(f, closes, volumes, ret.value);
    if rvol.None? { return None; }
    var volRatio := VolumeRatioColumn(f, closes, volumes);
    if volRatio.None? { return None; }
    r := Some(FeatureLists(ret.value, roc.value, rvol.value, volRatio.value));
  }

  method ComputeLabels(f: Context, closes: seq<real>, horizon: nat) returns (r: Option<(Cells, seq<Option<int>>)>)
    ensures r.Some? ==>
      && |r.value.0| == |r.value.1| == |closes|
      && forall t :: 0 <= t < |closes| ==>
        ForwardReturnAt(f, closes, horizon, t) == Cell(r.value.0[t]) && DirectionAt(closes, horizon, t) == r.value.1[t]
    ensures r.None? ==> exists t :: 0 <= t < |closes| && ForwardReturnAt(f, closes, horizon, t).Raised?
  {
    var n := |closes|;
    var forward: Cells := seq(n, _ => None);
    var directions: seq<Option<int>> := seq(n, _ => None);
    var t := 0;
    while t < n - horizon
      invariant 0 <= t <= n && |forward| == |directions| == n
      invariant forall k :: 0 <= k < t ==>
        ForwardReturnAt(f, closes, horizon, k) == Cell(forward[k]) && DirectionAt(closes, horizon, k) == directions[k]
      invariant forall k :: t <= k < n ==> forward[k] == None && directions[k] == None
    {
      var future, base := closes[t + horizon], closes[t];
      var quotient := f(Divide, future, base);
      if quotient.None? {
        assert ForwardReturnAt(f, closes, horizon, t).Raised?;
        return None;
      }
      var value := f(Subtract, quotient.value, 1.0);
      if value.None? {
        assert ForwardReturnAt(f, closes, horizon, t).Raised?;
        return None;
      }
      forward := forward[t := value];
      directions := directions[t := Some(if future > base then 1 else if future < base then -1 else 0)];
      t := t + 1;
    }
    r := Some((forward, directions));
  }

  method StoreCell(f: Context, cell: Option<real>) returns (r: Option<Option<real>>)
    ensures r.Some? ==> Stored(f, Cell(cell)) == Cell(r.value)
    ensures r.None? ==> Stored(f, Cell(cell)).Raised?
  {
    if cell.None? {
      return Some(None);
    }
    var value := f(Quantize, cell.value, 0.0);
    r := if value.None? then None else Some(value);
  }

  lemma FeatureSignals(f: Context, parents: seq<Parent>, horizon: nat, column: Column)
    requires SomeSignal(f, column, Closes(parents), Volumes(parents))
    ensures exists t :: 0 <= t < |parents| && Signals(RowAt(f, parents, horizon, t))
  {
    hide FeatureAt, ForwardReturnAt, DirectionAt;
    var t :| 0 <= t < |parents| && FeatureAt(f, column, Closes(parents), Volumes(parents), t).Raised?;
    assert Signals(RowAt(f, parents, horizon, t));
  }

  method BuildResearchRows(f: Context, parents: seq<Parent>, horizon: nat) returns (r: Option<seq<ResearchRow>>)
    ensures IsTable(r, f, parents, horizon)
    ensures r.Some? && Exact(f) ==> |r.value| == |parents| && forall t :: 0 <= t < |parents| ==> RowMeans(r.value[t], f, parents, horizon, t)
  {
    hide Exact, RowMeans;
    hide FeatureAt, ForwardReturnAt, DirectionAt, Stored, SomeSignal, IsColumn;
    var closes, volumes := Closes(parents), Volumes(parents);
    var features := ComputeFeatures(f, closes, volumes);
    if features.None? {
      ghost var column :| SomeSignal(f, column, closes, volumes);
      FeatureSignals(f, parents, horizon, column);
      return None;
    }
    var labels := ComputeLabels(f, closes, horizon);
    if labels.None? {
      LabelSignals(f, parents, horizon);
      return None;
    }
    var rows: seq<ResearchRow> := [];
    for t := 0 to |parents|
      invariant |rows| == t
      invariant forall k :: 0 <= k < t ==> Holds(rows[k], RowAt(f, parents, horizon, k))
    {
      var row := StoreRow(f, parents, horizon, features.value, labels.value.0, labels.value.1, t);
      if row.None? {
        return None;
      }
      rows := rows + [row.value];
    }
    r := Some(rows);
    if Exact(f) {
      forall t | 0 <= t < |parents|
        ensures RowMeans(rows[t], f, parents, horizon, t)
      {
        TableMeans(f, parents, horizon, rows, t);
      }
    }
  }

  lemma LabelSignals(f: Context, parents: seq<Parent>, horizon: nat)
    requires exists t :: 0 <= t < |parents| && ForwardReturnAt(f, Closes(parents), horizon, t).Raised?
    ensures exists t :: 0 <= t < |parents| && Signals(RowAt(f, parents, horizon, t))
  {
    hide FeatureAt, ForwardReturnAt, DirectionAt;
    var t :| 0 <= t < |parents| && ForwardReturnAt(f, Closes(parents), horizon, t).Raised?;
    assert Signals(RowAt(f, parents, horizon, t));
  }

  method StoreRow(f: Context, parents: seq<Parent>, horizon: nat, l: FeatureLists, forward: Cells, directions: seq<Option<int>>, t: nat)
    returns (r: Option<ResearchRow>)
    requires AreFeatures(l, f, Closes(parents), Volumes(parents)) && t < |parents| == |forward| == |directions|
    requires ForwardReturnAt(f, Closes(parents), horizon, t) == Cell(forward[t])
    requires DirectionAt(Closes(parents), horizon, t) == directions[t]
    ensures r.Some? ==> Holds(r.value, RowAt(f, parents, horizon, t))
    ensures r.None? ==> Signals(RowAt(f, parents, horizon, t))
  {
    hide FeatureAt, ForwardReturnAt, DirectionAt, Stored;
    CellsAt(l, f, Closes(parents), Volumes(parents), t);
    var ret :- StoreCell(f, l.ret[t]);
    var roc :- StoreCell(f, l.roc[t]);
    var rvol :- StoreCell(f, l.rvol[t]);
    var volRatio :- StoreCell(f, l.volRatio[t]);
    var stored :- StoreCell(f, forward[t]);
    r := Some(ResearchRow(parents[t].openTime, ret, roc, rvol, volRatio, stored, directions[t]));
  }

  lemma CellsAt(l: FeatureLists, f: Context, closes: seq<real>, volumes: seq<real>, t: nat)
    requires |closes| == |volumes| && AreFeatures(l, f, closes, volumes) && t < |closes|
    ensures |l.ret| == |l.roc| == |l.rvol| == |l.volRatio| == |closes|
    ensures FeatureAt(f, Ret, closes, volumes, t) == Cell(l.ret[t]) && FeatureAt(f, Roc, closes, volumes, t) == Cell(l.roc[t])
    ensures FeatureAt(f, Rvol, closes, volumes, t) == Cell(l.rvol[t]) && FeatureAt(f, VolRatio, closes, volumes, t) == Cell(l.volRatio[t])
  {
    hide FeatureAt;
  }
}
