/**
 What aggregation keeps: exact conservation, agreement of nested timeframes, and the step from a parent
 that passed its gate to derived bars that pass theirs.
 */
module DerivedBars {
  import opened Wrappers
  import opened Arith
  import opened Bars
  import opened Aggregation
  import Quality
  import DerivedQuality

  // ---------- successful aggregation cuts the minutes into equal blocks ----------

  /** All members of all groups, in order. */
  ghost function Flat(groups: seq<Group>): seq<Row> {
    if groups == [] then [] else Flat(groups[..|groups| - 1]) + groups[|groups| - 1].members
  }

  lemma FlatAdd(groups: seq<Group>, bucket: int, row: Row)
    ensures Flat(AddRow(groups, bucket, row)) == Flat(groups) + [row]
  {
    var g := AddRow(groups, bucket, row);
    if groups != [] && groups[|groups| - 1].bucket == bucket {
      assert g[..|g| - 1] == groups[..|groups| - 1];
      assert Flat(groups[..|groups| - 1]) + (groups[|groups| - 1].members + [row]) == Flat(groups) + [row];
    } else {
      assert g[..|g| - 1] == groups;
    }
  }

  /** Grouping loses and reorders nothing. */
  lemma {:induction false} FlatGroups(rows: seq<Row>, timeframe: int)
    requires timeframe > 0
    ensures Flat(Groups(rows, timeframe)) == rows
  {
    hide Bucket, AddRow, Flat;
    if rows == [] {
      NothingFlat(timeframe);
    } else {
      var n := |rows| - 1;
      FlatGroups(rows[..n], timeframe);
      FlatAdd(Groups(rows[..n], timeframe), Bucket(rows[n].openTime, timeframe), rows[n]);
      assert rows == rows[..n] + [rows[n]];
    }
  }

  lemma NothingFlat(timeframe: int)
    requires timeframe > 0
    ensures Flat(Groups([], timeframe)) == []
  {
  }

  /** Minutes i*m up to (i+1)*m. */
  function Block(rows: seq<Row>, m: nat, i: nat): (b: seq<Row>)
    requires (i + 1) * m <= |rows|
    ensures |b| == m
  {
    BlockBounds(m, i);
    rows[i * m..(i + 1) * m]
  }

  lemma BlockBounds(m: nat, i: nat)
    ensures 0 <= i * m && (i + 1) * m == i * m + m
  {
  }

  ghost predicate BlockBar(rows: seq<Row>, identity: seq<string>, timeframe: int, m: nat, i: nat, bar: Row)
    requires m > 0
  {
    && (i + 1) * m <= |rows|
    && Contiguous(Block(rows, m, i), bar.openTime, timeframe)
    && bar == BarOf(Block(rows, m, i), identity, bar.openTime, timeframe)
  }

  /** The bars are those of consecutive blocks of m minutes that cover all minutes. */
  ghost predicate Blocks(rows: seq<Row>, identity: seq<string>, timeframe: int, m: nat, bars: seq<Row>)
    requires m > 0
  {
    |rows| == |bars| * m && forall i :: 0 <= i < |bars| ==> BlockBar(rows, identity, timeframe, m, i, bars[i])
  }

  lemma LaterBound(i: nat, n: nat, m: nat)
    requires i < n
    ensures (i + 1) * m <= n * m
  {
  }

  lemma BlockOfPrefix(rows: seq<Row>, more: seq<Row>, m: nat, i: nat)
    requires (i + 1) * m <= |rows|
    ensures Block(rows + more, m, i) == Block(rows, m, i)
  {
    BlockBounds(m, i);
  }

  lemma LastBlock(rows: seq<Row>, more: seq<Row>, m: nat, n: nat)
    requires |rows| == n * m && |more| == m
    ensures (n + 1) * m == |rows + more| && Block(rows + more, m, n) == more
  {
    BlockBounds(m, n);
  }

  lemma AddBlock(rows: seq<Row>, identity: seq<string>, timeframe: int, m: nat, bars: seq<Row>, more: seq<Row>, bar: Row)
    requires m > 0 && Blocks(rows, identity, timeframe, m, bars)
    requires |more| == m && Contiguous(more, bar.openTime, timeframe) && bar == BarOf(more, identity, bar.openTime, timeframe)
    ensures Blocks(rows + more, identity, timeframe, m, bars + [bar])
  {
    hide Contiguous, BarOf, Block;
    var n := |bars|;
    LastBlock(rows, more, m, n);
    forall i | 0 <= i < n
      ensures BlockBar(rows + more, identity, timeframe, m, i, bars[i])
    {
      assert BlockBar(rows, identity, timeframe, m, i, bars[i]);
      BlockOfPrefix(rows, more, m, i);
    }
    assert BlockBar(rows + more, identity, timeframe, m, n, bar);
  }

  lemma GroupOk(g: Group, identity: seq<string>, timeframe: int)
    requires g.members != [] && GroupResult(g, identity, timeframe).Ok?
    ensures var bar := GroupResult(g, identity, timeframe).value;
      && |g.members| == timeframe / MINUTE && bar.openTime == g.bucket
      && Contiguous(g.members, g.bucket, timeframe) && bar == BarOf(g.members, identity, bar.openTime, timeframe)
  {
    hide Contiguous, Fits, Offenders, Total, MaxHigh, MinLow;
  }

  lemma {:induction false} GroupBarsAreBlocks(groups: seq<Group>, identity: seq<string>, timeframe: int)
    requires timeframe >= MINUTE && forall i :: 0 <= i < |groups| ==> groups[i].members != []
    requires GroupBars(groups, identity, timeframe).Ok?
    ensures Blocks(Flat(groups), identity, timeframe, timeframe / MINUTE, GroupBars(groups, identity, timeframe).value)
  {
    hide GroupResult, Blocks;
    if groups == [] {
      NoBlocks(identity, timeframe);
    } else {
      var n := |groups| - 1;
      GroupBarsAreBlocks(groups[..n], identity, timeframe);
      GroupOk(groups[n], identity, timeframe);
      AddBlock(Flat(groups[..n]), identity, timeframe, timeframe / MINUTE,
               GroupBars(groups[..n], identity, timeframe).value, groups[n].members,
               GroupResult(groups[n], identity, timeframe).value);
    }
  }

  lemma NoBlocks(identity: seq<string>, timeframe: int)
    requires timeframe >= MINUTE
    ensures Blocks([], identity, timeframe, timeframe / MINUTE, [])
  {
  }

  /** A timeframe shorter than a minute can only aggregate nothing. */
  lemma {:induction false} ShortTimeframe(groups: seq<Group>, identity: seq<string>, timeframe: int)
    requires timeframe < MINUTE && groups != [] && forall i :: 0 <= i < |groups| ==> groups[i].members != []
    ensures GroupBars(groups, identity, timeframe).Err?
  {
    hide Contiguous, Fits, Offenders, Total, MaxHigh, MinLow;
    assert timeframe / MINUTE <= 0;
    assert GroupResult(groups[|groups| - 1], identity, timeframe).Err?;
  }

  /** Whenever aggregation succeeds, every bar is the exact summary of its own block of minutes. */
  lemma SuccessMeansBlocks(minutes: seq<Row>, identity: seq<string>, timeframe: int)
    requires timeframe >= MINUTE && Aggregated(minutes, identity, timeframe).Ok?
    ensures Blocks(minutes, identity, timeframe, timeframe / MINUTE, Aggregated(minutes, identity, timeframe).value)
  {
    hide Groups, GroupBars, Blocks, Flat;
    FlatGroups(minutes, timeframe);
    GroupBarsAreBlocks(Groups(minutes, timeframe), identity, timeframe);
  }

  // ---------- conservation ----------

  lemma {:induction false} BlocksConserve(rows: seq<Row>, identity: seq<string>, timeframe: int, m: nat, bars: seq<Row>, f: Field)
    requires m > 0 && Blocks(rows, identity, timeframe, m, bars)
    ensures Total(rows, f) == Total(bars, f)
    decreases |bars|
  {
    hide Total, Get, Blocks, BarOf, Contiguous;
    if bars == [] {
      EmptyTotals(rows, identity, timeframe, m, f);
    } else {
      var n := |bars| - 1;
      DropBlock(rows, identity, timeframe, m, bars);
      BlocksConserve(rows[..n * m], identity, timeframe, m, bars[..n], f);
      assert rows == rows[..n * m] + Block(rows, m, n) by { BlockBounds(m, n); }
      TotalConcat(rows[..n * m], Block(rows, m, n), f);
      TotalConcat(bars[..n], [bars[n]], f);
      assert bars == bars[..n] + [bars[n]];
      BarKeepsTotal(Block(rows, m, n), identity, bars[n].openTime, timeframe, f);
    }
  }

  lemma EmptyTotals(rows: seq<Row>, identity: seq<string>, timeframe: int, m: nat, f: Field)
    requires m > 0 && Blocks(rows, identity, timeframe, m, [])
    ensures Total(rows, f) == Total([], f)
  {
    assert rows == [];
  }

  lemma BarKeepsTotal(members: seq<Row>, identity: seq<string>, bucket: int, timeframe: int, f: Field)
    requires members != []
    ensures Total([BarOf(members, identity, bucket, timeframe)], f) == Total(members, f)
  {
    hide MaxHigh, MinLow;
    var bar := BarOf(members, identity, bucket, timeframe);
    assert [bar][..0] == [];
    assert Total([], f) == 0;
    assert Get(bar, f) == Total(members, f);
  }

  /** Without the last bar and its block, the rest is still cut into blocks. */
  lemma DropBlock(rows: seq<Row>, identity: seq<string>, timeframe: int, m: nat, bars: seq<Row>)
    requires m > 0 && bars != [] && Blocks(rows, identity, timeframe, m, bars)
    ensures var n := |bars| - 1;
      && |rows| == n * m + m && 0 <= n * m
      && Blocks(rows[..n * m], identity, timeframe, m, bars[..n])
      && BlockBar(rows, identity, timeframe, m, n, bars[n])
  {
    hide Contiguous, BarOf;
    var n := |bars| - 1;
    BlockBounds(m, n);
    forall i | 0 <= i < n
      ensures BlockBar(rows[..n * m], identity, timeframe, m, i, bars[i])
    {
      LaterBound(i, n, m);
      assert BlockBar(rows, identity, timeframe, m, i, bars[i]);
      BlockOfPrefix(rows[..n * m], rows[n * m..], m, i);
      assert rows == rows[..n * m] + rows[n * m..];
    }
  }

  /** Aggregation conserves every volume and the trade count exactly. */
  lemma AggregationConserves(minutes: seq<Row>, identity: seq<string>, timeframe: int, f: Field)
    requires timeframe > 0 && Aggregated(minutes, identity, timeframe).Ok?
    ensures Total(Aggregated(minutes, identity, timeframe).value, f) == Total(minutes, f)
  {
    hide Groups, GroupBars, Blocks, Total;
    if timeframe >= MINUTE {
      SuccessMeansBlocks(minutes, identity, timeframe);
      BlocksConserve(minutes, identity, timeframe, timeframe / MINUTE, Aggregated(minutes, identity, timeframe).value, f);
    } else {
      NothingToAggregate(minutes, identity, timeframe);
    }
  }

  lemma NothingToAggregate(minutes: seq<Row>, identity: seq<string>, timeframe: int)
    requires 0 < timeframe < MINUTE && Aggregated(minutes, identity, timeframe).Ok?
    ensures minutes == Aggregated(minutes, identity, timeframe).value == []
  {
    hide GroupResult, Bucket;
    var groups := Groups(minutes, timeframe);
    if groups != [] {
      ShortTimeframe(groups, identity, timeframe);
    }
  }

  // ---------- nested timeframes ----------

  /** One bar of the coarse series summarizes the bars of the fine series that cover the same time. */
  ghost predicate Summarizes(coarse: Row, fine: seq<Row>)
  {
    && fine != []
    && coarse.openTime == fine[0].openTime && coarse.closeTime == fine[|fine| - 1].closeTime
    && coarse.open == fine[0].open && coarse.close == fine[|fine| - 1].close
    && coarse.high == MaxHigh(fine) && coarse.low == MinLow(fine)
    && forall f: Field :: Get(coarse, f) == Total(fine, f)
  }

  lemma {:induction false} BlocksKeepExtremes(rows: seq<Row>, identity: seq<string>, timeframe: int, m: nat, bars: seq<Row>)
    requires m > 0 && Blocks(rows, identity, timeframe, m, bars) && bars != []
    ensures rows != [] && MaxHigh(rows) == MaxHigh(bars) && MinLow(rows) == MinLow(bars)
    decreases |bars|
  {
    hide MaxHigh, MinLow, Blocks, Contiguous, Total;
    var n := |bars| - 1;
    DropBlock(rows, identity, timeframe, m, bars);
    var front, block := rows[..n * m], Block(rows, m, n);
    assert rows == front + block by { BlockBounds(m, n); }
    assert bars == bars[..n] + [bars[n]];
    OneRow(bars[n]);
    if n == 0 {
      assert front == [] && bars[..n] == [];
      assert rows == block && bars == [bars[0]];
    } else {
      BlocksKeepExtremes(front, identity, timeframe, m, bars[..n]);
      HighConcat(front, block);
      LowConcat(front, block);
      HighConcat(bars[..n], [bars[n]]);
      LowConcat(bars[..n], [bars[n]]);
    }
  }

  lemma OneRow(row: Row)
    ensures MaxHigh([row]) == row.high && MinLow([row]) == row.low
  {
  }

  lemma FirstAndLast(rows: seq<Row>, identity: seq<string>, timeframe: int, m: nat, bars: seq<Row>)
    requires m > 0 && Blocks(rows, identity, timeframe, m, bars) && bars != []
    ensures var last := |bars| - 1;
      && rows != [] && rows[0].open == bars[0].open && rows[|rows| - 1].close == bars[last].close
      && rows[0].openTime == bars[0].openTime && rows[|rows| - 1].openTime + MINUTE - 1 == bars[last].closeTime
  {
    hide MaxHigh, MinLow, Total;
    var last := |bars| - 1;
    assert BlockBar(rows, identity, timeframe, m, 0, bars[0]);
    assert BlockBar(rows, identity, timeframe, m, last, bars[last]);
    BlockBounds(m, last);
    assert Block(rows, m, 0)[0] == rows[0];
    assert Block(rows, m, last)[m - 1] == rows[|rows| - 1];
  }

  /** The fine bars that lie inside coarse bar j. */
  lemma InsideBlock(rows: seq<Row>, identity: seq<string>, timeframe: int, m: nat, bars: seq<Row>, k: nat, j: nat)
    requires m > 0 && k > 0 && Blocks(rows, identity, timeframe, m, bars) && (j + 1) * k <= |bars|
    ensures (j + 1) * (k * m) <= |rows| && 0 <= j * k
    ensures j * k + k <= |bars|
    ensures Blocks(Block(rows, k * m, j), identity, timeframe, m, bars[j * k..j * k + k])
  {
    hide Contiguous, BarOf;
    BlockBounds(k, j);
    BlockBounds(k * m, j);
    MulAssociates(j + 1, k, m);
    MulAssociates(j, k, m);
    assert (j + 1) * k * m <= |bars| * m by { MulAtMost((j + 1) * k, |bars|, m); }
    var inner, few := Block(rows, k * m, j), bars[j * k..j * k + k];
    forall i | 0 <= i < k
      ensures BlockBar(inner, identity, timeframe, m, i, few[i])
    {
      LaterBound(i, k, m);
      assert BlockBar(rows, identity, timeframe, m, j * k + i, bars[j * k + i]);
      ShiftedBlock(rows, m, k, j, i);
    }
  }

  lemma SliceOfSlice(rows: seq<Row>, a: nat, b: nat, c: nat, d: nat)
    requires a <= b <= |rows| && c <= d <= b - a
    ensures rows[a..b][c..d] == rows[a + c..a + d]
  {
    var x, y := rows[a..b][c..d], rows[a + c..a + d];
    assert |x| == |y| && forall i :: 0 <= i < |x| ==> x[i] == rows[a + c + i] == y[i];
  }

  lemma ShiftedIndex(m: nat, k: nat, j: nat, i: nat)
    ensures (j * k + i) * m == j * (k * m) + i * m
  {
    MulAssociates(j, k, m);
    SumTimes(j * k, i, m);
  }

  lemma ShiftedBlock(rows: seq<Row>, m: nat, k: nat, j: nat, i: nat)
    requires i < k && (j + 1) * (k * m) <= |rows| && 0 <= j * k && (i + 1) * m <= k * m
    ensures (j * k + i + 1) * m <= |rows| && Block(Block(rows, k * m, j), m, i) == Block(rows, m, j * k + i)
  {
    BlockBounds(m, i);
    BlockBounds(k * m, j);
    ShiftedIndex(m, k, j, i);
    ShiftedIndex(m, k, j, i + 1);
    assert j * k + (i + 1) == j * k + i + 1;
    SliceOfSlice(rows, j * (k * m), (j + 1) * (k * m), i * m, (i + 1) * m);
  }

  /** The minutes of coarse bar j, cut into fine blocks, summarize the same way. */
  lemma BarSummarizes(rows: seq<Row>, identity: seq<string>, identity': seq<string>, timeframe: int, timeframe': int,
                      m: nat, bars: seq<Row>, coarse: Row)
    requires m > 0 && bars != [] && rows != [] && Blocks(rows, identity, timeframe, m, bars)
    requires Contiguous(rows, coarse.openTime, timeframe') && coarse == BarOf(rows, identity', coarse.openTime, timeframe')
    ensures Summarizes(coarse, bars)
  {
    hide Blocks, MaxHigh, MinLow, Total;
    BlocksKeepExtremes(rows, identity, timeframe, m, bars);
    FirstAndLast(rows, identity, timeframe, m, bars);
    forall f: Field
      ensures Get(coarse, f) == Total(bars, f)
    {
      BlocksConserve(rows, identity, timeframe, m, bars, f);
    }
  }

  /**
   Nested timeframes agree: from the same minutes, bar j of the coarse series is the summary of fine
   bars j*k up to (j+1)*k.  A day from hours is k = 24.
   */
  lemma NestedTimeframesAgree(minutes: seq<Row>, fineId: seq<string>, coarseId: seq<string>, fine: int, k: nat, j: nat)
    requires fine >= MINUTE && fine % MINUTE == 0 && k > 0 && k * fine > 0
    requires Aggregated(minutes, fineId, fine).Ok? && Aggregated(minutes, coarseId, k * fine).Ok?
    requires j < |Aggregated(minutes, coarseId, k * fine).value|
    ensures 0 <= j * k && j * k + k <= |Aggregated(minutes, fineId, fine).value|
    ensures Summarizes(Aggregated(minutes, coarseId, k * fine).value[j],
                       Aggregated(minutes, fineId, fine).value[j * k..j * k + k])
  {
    hide Aggregated, Contiguous, BarOf, Summarizes;
    var bars, days := Aggregated(minutes, fineId, fine).value, Aggregated(minutes, coarseId, k * fine).value;
    var m: nat := fine / MINUTE;
    MinutesPerCoarse(fine, k);
    SuccessMeansBlocks(minutes, fineId, fine);
    SuccessMeansBlocks(minutes, coarseId, k * fine);
    assert BlockBar(minutes, coarseId, k * fine, k * m, j, days[j]);
    FineCount(|days|, |bars|, k, m);
    LaterBound(j, |days|, k);
    InsideBlock(minutes, fineId, fine, m, bars, k, j);
    BarSummarizes(Block(minutes, k * m, j), fineId, coarseId, fine, k * fine, m, bars[j * k..j * k + k], days[j]);
  }

  lemma MinutesPerCoarse(fine: int, k: nat)
    requires fine >= MINUTE && fine % MINUTE == 0 && k > 0
    ensures k * fine >= MINUTE && fine / MINUTE > 0 && k * (fine / MINUTE) > 0
    ensures k * fine / MINUTE == k * (fine / MINUTE)
  {
    var m := fine / MINUTE;
    assert fine == m * MINUTE;
    MulAssociates(k, m, MINUTE);
    assert k * m >= m;
    ExactQuotient(k * fine, MINUTE, k * m);
  }

  lemma FineCount(days: nat, bars: nat, k: nat, m: nat)
    requires m > 0 && days * (k * m) == bars * m
    ensures days * k == bars
  {
    MulAssociates(days, k, m);
    CancelFactor(days * k, bars, m);
  }
}
