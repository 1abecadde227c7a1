/** Candle rows and exact totals over them.  Prices and volumes are whole numbers of 10^-18. */
module Bars {

  datatype Row = Row(
    identity: seq<string>, openTime: int, closeTime: int, availableTime: int,
    open: int, high: int, low: int, close: int,
    baseVolume: int, quoteVolume: int, tradeCount: int, takerBase: int, takerQuote: int,
    sourceIgnore: string)

  datatype Field = BaseVolume | QuoteVolume | TakerBase | TakerQuote | Trades

  function Get(row: Row, f: Field): int {
    match f
    case BaseVolume => row.baseVolume
    case QuoteVolume => row.quoteVolume
    case TakerBase => row.takerBase
    case TakerQuote => row.takerQuote
    case Trades => row.tradeCount
  }

  /** Sum of one field. */
  function Total(rows: seq<Row>, f: Field): int {
    if rows == [] then 0 else Total(rows[..|rows| - 1], f) + Get(rows[|rows| - 1], f)
  }

  /** Largest high. */
  function MaxHigh(rows: seq<Row>): (m: int)
    requires rows != []
    ensures forall i :: 0 <= i < |rows| ==> rows[i].high <= m
    ensures exists i :: 0 <= i < |rows| && rows[i].high == m
  {
    var last := rows[|rows| - 1].high;
    if |rows| == 1 then last
    else
      var rest := MaxHigh(rows[..|rows| - 1]);
      if last > rest then last else rest
  }

  /** Smallest low. */
  function MinLow(rows: seq<Row>): (m: int)
    requires rows != []
    ensures forall i :: 0 <= i < |rows| ==> rows[i].low >= m
    ensures exists i :: 0 <= i < |rows| && rows[i].low == m
  {
    var last := rows[|rows| - 1].low;
    if |rows| == 1 then last
    else
      var rest := MinLow(rows[..|rows| - 1]);
      if last < rest then last else rest
  }

  lemma {:induction false} TotalConcat(a: seq<Row>, b: seq<Row>, f: Field)
    ensures Total(a + b, f) == Total(a, f) + Total(b, f)
  {
    hide Get;
    if b == [] {
      assert a + b == a;
    } else {
      TotalConcat(a, b[..|b| - 1], f);
      assert (a + b)[..|a + b| - 1] == a + b[..|b| - 1];
    }
  }

  lemma {:induction false} HighConcat(a: seq<Row>, b: seq<Row>)
    requires a != [] && b != []
    ensures MaxHigh(a + b) == if MaxHigh(a) > MaxHigh(b) then MaxHigh(a) else MaxHigh(b)
  {
    var all := a + b;
    var i :| 0 <= i < |all| && all[i].high == MaxHigh(all);
    var j :| 0 <= j < |a| && a[j].high == MaxHigh(a);
    var k :| 0 <= k < |b| && b[k].high == MaxHigh(b);
    assert all[j] == a[j] && all[|a| + k] == b[k];
    if i < |a| {
      assert all[i] == a[i];
    } else {
      assert all[i] == b[i - |a|];
    }
  }

  lemma {:induction false} LowConcat(a: seq<Row>, b: seq<Row>)
    requires a != [] && b != []
    ensures MinLow(a + b) == if MinLow(a) < MinLow(b) then MinLow(a) else MinLow(b)
  {
    var all := a + b;
    var i :| 0 <= i < |all| && all[i].low == MinLow(all);
    var j :| 0 <= j < |a| && a[j].low == MinLow(a);
    var k :| 0 <= k < |b| && b[k].low == MinLow(b);
    assert all[j] == a[j] && all[|a| + k] == b[k];
    if i < |a| {
      assert all[i] == a[i];
    } else {
      assert all[i] == b[i - |a|];
    }
  }

  lemma {:induction false} TotalNonNegative(rows: seq<Row>, f: Field)
    requires forall i :: 0 <= i < |rows| ==> Get(rows[i], f) >= 0
    ensures Total(rows, f) >= 0
    ensures Total(rows, f) == 0 ==> forall i :: 0 <= i < |rows| ==> Get(rows[i], f) == 0
  {
    hide Get;
    if rows != [] {
      TotalNonNegative(rows[..|rows| - 1], f);
    }
  }

  lemma {:induction false} TotalMonotone(rows: seq<Row>, f: Field, g: Field)
    requires forall i :: 0 <= i < |rows| ==> Get(rows[i], f) <= Get(rows[i], g)
    ensures Total(rows, f) <= Total(rows, g)
  {
    hide Get;
    if rows != [] {
      TotalMonotone(rows[..|rows| - 1], f, g);
    }
  }
}
