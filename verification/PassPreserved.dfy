/**
 From a parent period that passed its gate to derived bars that pass theirs: grouping can only fail
 because a total does not fit, and otherwise yields exactly the expected series.
 */
module PassPreserved {
  import opened Wrappers
  import opened Arith
  import opened Bars
  import opened Aggregation
  import opened DerivedBars
  import Quality
  import DerivedQuality

  // ---------- the minutes are the grid ----------

  ghost predicate OnGrid(rows: seq<Row>, start: int) {
    forall i :: 0 <= i < |rows| ==> rows[i].openTime == start + MINUTE * i
  }

  lemma {:induction false} AdjacentIsGrid(rows: seq<Row>, start: int, n: nat)
    requires rows != [] && n <= |rows| && rows[0].openTime == start && Quality.Adjacent(rows, MINUTE)
    ensures OnGrid(rows[..n], start)
  {
    if n > 1 {
      AdjacentIsGrid(rows, start, n - 1);
      assert rows[..n - 1][n - 2] == rows[n - 2];
      assert rows[n - 2 + 1].openTime - rows[n - 2].openTime == MINUTE;
      assert forall i :: 0 <= i < n - 1 ==> rows[..n][i] == rows[..n - 1][i];
    }
  }

  /** A passing period of n rows is exactly the grid from its start to its end. */
  lemma PassedIsGrid(rows: seq<Row>, start: int, end: int, orderValid: bool, n: int)
    requires Quality.SoundPeriod(rows, start, end, orderValid, Some(n))
    ensures OnGrid(rows, start) && |rows| == n && end - start == MINUTE * n
    ensures forall i :: 0 <= i < |rows| ==> Quality.SoundMinute(rows[i])
  {
    hide Quality.SoundMinute;
    AdjacentIsGrid(rows, start, |rows|);
    assert rows[..|rows|] == rows;
  }

  // ---------- grouping the grid ----------

  lemma GroupsSnoc(rows: seq<Row>, row: Row, timeframe: int)
    requires timeframe > 0
    ensures Groups(rows + [row], timeframe) == AddRow(Groups(rows, timeframe), Bucket(row.openTime, timeframe), row)
  {
    hide Bucket, AddRow;
    assert (rows + [row])[..|rows|] == rows;
  }

  lemma {:induction false} NewGroup(rows: seq<Row>, more: seq<Row>, bucket: int, timeframe: int)
    requires timeframe > 0 && more != []
    requires forall i :: 0 <= i < |more| ==> Bucket(more[i].openTime, timeframe) == bucket
    requires rows != [] ==> Bucket(rows[|rows| - 1].openTime, timeframe) != bucket
    ensures Groups(rows + more, timeframe) == Groups(rows, timeframe) + [Group(bucket, more)]
    decreases |more|
  {
    hide Bucket, Groups;
    var n := |more| - 1;
    assert more == more[..n] + [more[n]];
    assert rows + more == rows + more[..n] + [more[n]];
    GroupsSnoc(rows + more[..n], more[n], timeframe);
    if n == 0 {
      assert rows + more[..n] == rows && more == [more[0]];
      StartsGroup(rows, timeframe, bucket);
    } else {
      NewGroup(rows, more[..n], bucket, timeframe);
      ExtendsGroup(Groups(rows, timeframe), bucket, more[..n], more[n]);
    }
  }

  lemma StartsGroup(rows: seq<Row>, timeframe: int, bucket: int)
    requires timeframe > 0 && (rows != [] ==> Bucket(rows[|rows| - 1].openTime, timeframe) != bucket)
    ensures var g := Groups(rows, timeframe); g != [] ==> g[|g| - 1].bucket != bucket
  {
    hide Bucket, AddRow;
  }

  lemma ExtendsGroup(g: seq<Group>, bucket: int, members: seq<Row>, row: Row)
    ensures AddRow(g + [Group(bucket, members)], bucket, row) == g + [Group(bucket, members + [row])]
  {
    assert (g + [Group(bucket, members)])[..|g|] == g;
  }

  lemma GridBucket(start: int, timeframe: int, j: nat, offset: int)
    requires timeframe > 0 && start % timeframe == 0 && 0 <= offset < timeframe
    ensures Bucket(start + j * timeframe + offset, timeframe) == start + j * timeframe
  {
    var s := start / timeframe;
    assert start == s * timeframe;
    SumTimes(s, j, timeframe);
    DivModUnique(start + j * timeframe + offset, s + j, offset, timeframe);
  }

  lemma GridTime(m: nat, timeframe: int, j: nat, r: int)
    requires timeframe == m * MINUTE
    ensures MINUTE * (j * m + r) == j * timeframe + MINUTE * r
  {
    MulAssociates(j, m, MINUTE);
  }

  ghost predicate GridShape(rows: seq<Row>, start: int, timeframe: int, m: nat, q: nat) {
    && timeframe == m * MINUTE && m > 0 && start % timeframe == 0
    && |rows| == q * m && OnGrid(rows, start)
  }

  /** The rows of block j all share bucket j. */
  lemma BlockBucket(rows: seq<Row>, start: int, timeframe: int, m: nat, q: nat, j: nat, r: nat)
    requires GridShape(rows, start, timeframe, m, q) && j < q && r < m
    ensures (j + 1) * m <= |rows|
    ensures Block(rows, m, j)[r].openTime == start + j * timeframe + MINUTE * r
    ensures Bucket(Block(rows, m, j)[r].openTime, timeframe) == start + j * timeframe
  {
    LaterBound(j, q, m);
    BlockBounds(m, j);
    assert Block(rows, m, j)[r] == rows[j * m + r];
    GridTime(m, timeframe, j, r);
    GridBucket(start, timeframe, j, MINUTE * r);
  }

  lemma GridPrefix(rows: seq<Row>, start: int, timeframe: int, m: nat, q: nat)
    requires GridShape(rows, start, timeframe, m, q) && q > 0
    ensures 0 <= (q - 1) * m && (q - 1) * m + m == |rows|
    ensures GridShape(rows[..(q - 1) * m], start, timeframe, m, q - 1)
    ensures rows == rows[..(q - 1) * m] + Block(rows, m, q - 1)
  {
    BlockBounds(m, q - 1);
  }

  ghost predicate GroupAt(g: seq<Group>, rows: seq<Row>, start: int, timeframe: int, m: nat, j: nat) {
    j < |g| && (j + 1) * m <= |rows| && g[j] == Group(start + j * timeframe, Block(rows, m, j))
  }

  /** An aligned grid falls into full groups. */
  lemma {:induction false} GroupsOfGrid(rows: seq<Row>, start: int, timeframe: int, m: nat, q: nat)
    requires GridShape(rows, start, timeframe, m, q)
    ensures |Groups(rows, timeframe)| == q
    ensures forall j :: 0 <= j < q ==> GroupAt(Groups(rows, timeframe), rows, start, timeframe, m, j)
  {
    hide Bucket, Block, Groups, OnGrid;
    if q == 0 {
      assert rows == [];
      EmptyGroups(timeframe);
    } else {
      GridPrefix(rows, start, timeframe, m, q);
      var front, more := rows[..(q - 1) * m], Block(rows, m, q - 1);
      GroupsOfGrid(front, start, timeframe, m, q - 1);
      forall r | 0 <= r < m
        ensures Bucket(more[r].openTime, timeframe) == start + (q - 1) * timeframe
      {
        BlockBucket(rows, start, timeframe, m, q, q - 1, r);
      }
      EarlierBucket(front, start, timeframe, m, q - 1);
      NewGroup(front, more, start + (q - 1) * timeframe, timeframe);
      forall j | 0 <= j < q
        ensures GroupAt(Groups(rows, timeframe), rows, start, timeframe, m, j)
      {
        BlockBounds(m, q - 1);
        if j < q - 1 {
          assert GroupAt(Groups(front, timeframe), front, start, timeframe, m, j);
          BlockOfPrefix(front, more, m, j);
        }
      }
    }
  }

  lemma EmptyGroups(timeframe: int)
    requires timeframe > 0
    ensures Groups([], timeframe) == []
  {
  }

  lemma EarlierBucket(front: seq<Row>, start: int, timeframe: int, m: nat, q: nat)
    requires GridShape(front, start, timeframe, m, q)
    ensures front != [] ==> Bucket(front[|front| - 1].openTime, timeframe) != start + q * timeframe
  {
    if front != [] {
      BlockBounds(m, q - 1);
      BlockBucket(front, start, timeframe, m, q, q - 1, m - 1);
      assert Block(front, m, q - 1)[m - 1] == front[|front| - 1];
      SumTimes(q - 1, 1, timeframe);
    }
  }

  // ---------- one group ----------

  lemma {:induction false} NoOffenders(members: seq<Row>)
    requires forall i :: 0 <= i < |members| ==> Quality.SoundMinute(members[i])
    ensures Offenders(members) == 0
  {
    if members != [] {
      NoOffenders(members[..|members| - 1]);
    }
  }

  /** Every total of the group can be stored. */
  ghost predicate TotalsFit(members: seq<Row>) {
    && Fits(Total(members, BaseVolume)) && Fits(Total(members, QuoteVolume))
    && Total(members, Trades) <= INT64_MAX
    && Fits(Total(members, TakerBase)) && Fits(Total(members, TakerQuote))
  }

  predicate Overflow(fault: Fault) {
    fault.VolumeOverflow? || fault.CountOverflow?
  }

  lemma BlockContiguous(members: seq<Row>, bucket: int, timeframe: int, m: nat)
    requires timeframe == m * MINUTE && |members| == m > 0
    requires forall r :: 0 <= r < m ==> members[r].openTime == bucket + MINUTE * r
    ensures Contiguous(members, bucket, timeframe)
  {
  }

  lemma SoundTotals(members: seq<Row>)
    requires forall i :: 0 <= i < |members| ==> Quality.SoundMinute(members[i])
    ensures Total(members, BaseVolume) >= Total(members, TakerBase) >= 0
    ensures Total(members, QuoteVolume) >= Total(members, TakerQuote) >= 0
    ensures Total(members, Trades) >= 0
  {
    hide Total;
    TotalNonNegative(members, TakerBase);
    TotalNonNegative(members, TakerQuote);
    TotalNonNegative(members, Trades);
    TotalMonotone(members, TakerBase, BaseVolume);
    TotalMonotone(members, TakerQuote, QuoteVolume);
  }

  /** A full contiguous group of sound minutes gives its bar exactly when its totals fit. */
  lemma SoundGroup(members: seq<Row>, identity: seq<string>, bucket: int, timeframe: int, m: nat)
    requires timeframe == m * MINUTE && |members| == m > 0
    requires forall r :: 0 <= r < m ==> members[r].openTime == bucket + MINUTE * r
    requires forall r :: 0 <= r < m ==> Quality.SoundMinute(members[r])
    ensures var r := GroupResult(Group(bucket, members), identity, timeframe);
      if TotalsFit(members) then r == Ok(BarOf(members, identity, bucket, timeframe)) else r.Err? && Overflow(r.error)
  {
    BlockContiguous(members, bucket, timeframe, m);
    NoOffenders(members);
    SoundTotals(members);
    ExactQuotient(timeframe, MINUTE, m);
    hide Contiguous, Offenders, Total, Fits, MaxHigh, MinLow, Quality.SoundMinute;
  }

  /** The bar of sound minutes is a sound bar. */
  lemma SoundMinutesMakeSoundBar(members: seq<Row>, identity: seq<string>, bucket: int, timeframe: int)
    requires members != [] && forall i :: 0 <= i < |members| ==> Quality.SoundMinute(members[i])
    ensures DerivedQuality.SoundBar(BarOf(members, identity, bucket, timeframe), timeframe)
  {
    hide Total, MaxHigh, MinLow;
    var bar := BarOf(members, identity, bucket, timeframe);
    assert Quality.SoundMinute(members[0]) && Quality.SoundMinute(members[|members| - 1]);
    var k :| 0 <= k < |members| && members[k].low == MinLow(members);
    assert Quality.SoundMinute(members[k]);
    SoundTotals(members);
    SomeVolume(members);
  }

  lemma SomeVolume(members: seq<Row>)
    requires members != [] && forall i :: 0 <= i < |members| ==> Quality.SoundMinute(members[i])
    ensures Total(members, BaseVolume) != 0 || Total(members, QuoteVolume) != 0
  {
    hide Total;
    TotalNonNegative(members, BaseVolume);
    TotalNonNegative(members, QuoteVolume);
    assert Quality.SoundMinute(members[0]);
    assert Get(members[0], BaseVolume) != 0 || Get(members[0], QuoteVolume) != 0;
  }

  // ---------- the whole period ----------

  ghost predicate SoundRows(rows: seq<Row>) {
    forall i :: 0 <= i < |rows| ==> Quality.SoundMinute(rows[i])
  }

  lemma BlockSound(rows: seq<Row>, start: int, timeframe: int, m: nat, q: nat, j: nat)
    requires GridShape(rows, start, timeframe, m, q) && SoundRows(rows) && j < q
    ensures (j + 1) * m <= |rows|
    ensures SoundRows(Block(rows, m, j))
    ensures forall r :: 0 <= r < m ==> Block(rows, m, j)[r].openTime == start + j * timeframe + MINUTE * r
  {
    hide Quality.SoundMinute, Bucket;
    LaterBound(j, q, m);
    BlockBounds(m, j);
    forall r | 0 <= r < m
      ensures Block(rows, m, j)[r].openTime == start + j * timeframe + MINUTE * r
    {
      BlockBucket(rows, start, timeframe, m, q, j, r);
    }
  }

  /** Block j's totals fit, for every j below n. */
  ghost predicate AllFit(rows: seq<Row>, m: int, n: int) {
    forall j :: 0 <= j < n ==> BlockFits(rows, m, j)
  }

  ghost predicate BlockFits(rows: seq<Row>, m: int, j: nat) {
    m >= 0 && (j + 1) * m <= |rows| && TotalsFit(Block(rows, m, j))
  }

  ghost predicate GridBars(bars: seq<Row>, rows: seq<Row>, identity: seq<string>, start: int, timeframe: int, m: nat, n: nat)
    requires m > 0
  {
    |bars| == n && forall j :: 0 <= j < n ==>
      (j + 1) * m <= |rows| && bars[j] == BarOf(Block(rows, m, j), identity, start + j * timeframe, timeframe)
  }

  /** The first n groups give their bars, or the first total that does not fit stops them. */
  ghost predicate Outcome(r: Result<seq<Row>, Fault>, rows: seq<Row>, identity: seq<string>, start: int, timeframe: int, m: nat, n: nat)
    requires m > 0
  {
    match r
    case Ok(bars) => AllFit(rows, m, n) && GridBars(bars, rows, identity, start, timeframe, m, n)
    case Err(fault) => !AllFit(rows, m, n) && Overflow(fault)
  }

  lemma NoOutcome(rows: seq<Row>, identity: seq<string>, start: int, timeframe: int, m: nat)
    requires m > 0
    ensures Outcome(Ok([]), rows, identity, start, timeframe, m, 0)
  {
  }

  /** One more block: its bar is appended, or its overflow ends the run. */
  lemma NextOutcome(front: Result<seq<Row>, Fault>, last: Result<Row, Fault>, rows: seq<Row>, identity: seq<string>,
                    start: int, timeframe: int, m: nat, n: nat)
    requires m > 0 && n > 0 && Outcome(front, rows, identity, start, timeframe, m, n - 1)
    requires (n - 1 + 1) * m <= |rows|
    requires if TotalsFit(Block(rows, m, n - 1)) then last == Ok(BarOf(Block(rows, m, n - 1), identity, start + (n - 1) * timeframe, timeframe))
             else last.Err? && Overflow(last.error)
    ensures var r := if front.Err? then front else if last.Err? then Err(last.error) else Ok(front.value + [last.value]);
      Outcome(r, rows, identity, start, timeframe, m, n)
  {
    hide BarOf, Block, TotalsFit, Overflow;
    assert BlockFits(rows, m, n - 1) <==> TotalsFit(Block(rows, m, n - 1));
    assert AllFit(rows, m, n) <==> AllFit(rows, m, n - 1) && BlockFits(rows, m, n - 1);
  }

  lemma BarsOfMore(g: seq<Group>, n: nat, identity: seq<string>, timeframe: int)
    requires 0 < n <= |g| && forall i :: 0 <= i < |g| ==> g[i].members != []
    ensures var front, last := GroupBars(g[..n - 1], identity, timeframe), GroupResult(g[n - 1], identity, timeframe);
      GroupBars(g[..n], identity, timeframe)
      == if front.Err? then front else if last.Err? then Err(last.error) else Ok(front.value + [last.value])
  {
    hide GroupResult;
    assert g[..n][..n - 1] == g[..n - 1];
  }

  lemma {:induction false} GridGroupBars(rows: seq<Row>, identity: seq<string>, start: int, timeframe: int, m: nat, q: nat, n: nat)
    requires GridShape(rows, start, timeframe, m, q) && SoundRows(rows) && n <= q == |Groups(rows, timeframe)|
    requires forall j :: 0 <= j < q ==> GroupAt(Groups(rows, timeframe), rows, start, timeframe, m, j)
    ensures Outcome(GroupBars(Groups(rows, timeframe)[..n], identity, timeframe), rows, identity, start, timeframe, m, n)
  {
    hide GroupResult, Groups, SoundRows, BarOf, Block, TotalsFit, OnGrid, GroupBars, Outcome, Overflow;
    var g := Groups(rows, timeframe);
    if n == 0 {
      NoOutcome(rows, identity, start, timeframe, m);
      assert g[..0] == [];
      NoGroupBars(identity, timeframe);
    } else {
      GridGroupBars(rows, identity, start, timeframe, m, q, n - 1);
      assert GroupAt(g, rows, start, timeframe, m, n - 1);
      BlockSound(rows, start, timeframe, m, q, n - 1);
      BlockResult(Block(rows, m, n - 1), identity, start + (n - 1) * timeframe, timeframe, m);
      NextOutcome(GroupBars(g[..n - 1], identity, timeframe), GroupResult(g[n - 1], identity, timeframe),
                  rows, identity, start, timeframe, m, n);
      BarsOfMore(g, n, identity, timeframe);
    }
  }

  lemma NoGroupBars(identity: seq<string>, timeframe: int)
    ensures GroupBars([], identity, timeframe) == Ok([])
  {
  }

  lemma BlockResult(members: seq<Row>, identity: seq<string>, bucket: int, timeframe: int, m: nat)
    requires timeframe == m * MINUTE && |members| == m > 0 && SoundRows(members)
    requires forall r :: 0 <= r < m ==> members[r].openTime == bucket + MINUTE * r
    ensures var r := GroupResult(Group(bucket, members), identity, timeframe);
      if TotalsFit(members) then r == Ok(BarOf(members, identity, bucket, timeframe)) else r.Err? && Overflow(r.error)
  {
    hide GroupResult, Quality.SoundMinute, TotalsFit, BarOf;
    SoundGroup(members, identity, bucket, timeframe, m);
  }

  lemma GridAscends(rows: seq<Row>, start: int)
    requires OnGrid(rows, start)
    ensures Disorder(rows).None?
  {
    OrderedMeansAscending(rows);
  }

  /** Bars over the grid form exactly the sound series the derived gate wants. */
  lemma GridBarsPass(bars: seq<Row>, rows: seq<Row>, identity: seq<string>, start: int, timeframe: int, m: nat, q: nat)
    requires GridShape(rows, start, timeframe, m, q) && SoundRows(rows) && q > 0
    requires GridBars(bars, rows, identity, start, timeframe, m, q)
    ensures DerivedQuality.SoundSeries(bars, start, timeframe, Some(q))
  {
    hide DerivedQuality.SoundBar, Quality.SoundMinute, OnGrid;
    forall j | 0 <= j < q
      ensures bars[j].openTime == start + j * timeframe && bars[j].closeTime == start + (j + 1) * timeframe - 1
      ensures DerivedQuality.SoundBar(bars[j], timeframe)
    {
      BlockSound(rows, start, timeframe, m, q, j);
      SoundMinutesMakeSoundBar(Block(rows, m, j), identity, start + j * timeframe, timeframe);
      SumTimes(j, 1, timeframe);
    }
    BarsAdjacent(bars, start, timeframe);
  }

  lemma BarsAdjacent(bars: seq<Row>, start: int, timeframe: int)
    requires forall j :: 0 <= j < |bars| ==> bars[j].openTime == start + j * timeframe
    ensures Quality.Adjacent(bars, timeframe)
  {
    forall j | 0 <= j < |bars| - 1
      ensures bars[j + 1].openTime - bars[j].openTime == timeframe
    {
      SumTimes(j, 1, timeframe);
    }
  }

  lemma PeriodShape(rows: seq<Row>, start: int, end: int, timeframe: int)
    requires OnGrid(rows, start) && end - start == MINUTE * |rows| && rows != []
    requires timeframe > 0 && timeframe % MINUTE == 0 && start % timeframe == 0 && (end - start) % timeframe == 0
    ensures GridShape(rows, start, timeframe, timeframe / MINUTE, (end - start) / timeframe) && (end - start) / timeframe > 0
  {
    var m, q := timeframe / MINUTE, (end - start) / timeframe;
    assert timeframe == m * MINUTE && end - start == q * timeframe;
    MulAssociates(q, m, MINUTE);
    CancelFactor(|rows|, q * m, MINUTE);
  }

  /** The parent's gate says PASS with the row count enforced. */
  ghost predicate ParentPasses(rows: seq<Row>, start: int, end: int, orderValid: bool, n: int) {
    Quality.StateOf(Quality.SourceFindings(rows, start, end, orderValid, Some(n)), Quality.SOURCE_BLOCKING).Passed?
  }

  /** The derived gate says PASS on reconciled bars. */
  ghost predicate BarsPass(bars: seq<Row>, start: int, timeframe: int, expected: int) {
    Quality.StateOf(DerivedQuality.DerivedFindings(bars, start, timeframe, Some(expected), true), Quality.DERIVED_BLOCKING).Passed?
  }

  /** Aggregation fails exactly when a total does not fit; otherwise exactly q bars come out and pass. */
  ghost predicate DerivedOutcome(r: Result<seq<Row>, Fault>, rows: seq<Row>, start: int, timeframe: int, q: int) {
    && (r.Err? ==> Overflow(r.error))
    && (r.Ok? <==> AllFit(rows, timeframe / MINUTE, q))
    && (r.Ok? ==> |r.value| == q && BarsPass(r.value, start, timeframe, q))
  }

  /**
   A parent that passed, with an aligned start and a whole number of timeframes: its minutes are the
   grid, aggregation returns exactly length/timeframe bars unless a total does not fit, and the bars
   pass the derived gate.
   */
  lemma ParentPassGivesDerivedPass(rows: seq<Row>, start: int, end: int, orderValid: bool, n: int,
                                   identity: seq<string>, timeframe: int)
    requires ParentPasses(rows, start, end, orderValid, n)
    requires timeframe > 0 && timeframe % MINUTE == 0 && start % timeframe == 0 && (end - start) % timeframe == 0
    ensures OnGrid(rows, start) && |rows| == n && end - start == MINUTE * n
    ensures DerivedOutcome(Aggregated(rows, identity, timeframe), rows, start, timeframe, (end - start) / timeframe)
  {
    hide Quality.StateOf, Quality.SourceFindings, Quality.SoundPeriod, DerivedQuality.DerivedFindings, DerivedQuality.SoundSeries,
      OnGrid, Groups, GroupBars, AllFit, GridBars, Quality.SoundMinute;
    Quality.SourcePassIsSound(rows, start, end, orderValid, Some(n));
    PassedIsGrid(rows, start, end, orderValid, n);
    PassedNonEmpty(rows, start, end, orderValid, n);
    PeriodShape(rows, start, end, timeframe);
    var m: nat, q: nat := timeframe / MINUTE, (end - start) / timeframe;
    GridAscends(rows, start);
    GroupsOfGrid(rows, start, timeframe, m, q);
    GridGroupBars(rows, identity, start, timeframe, m, q, q);
    var g := Groups(rows, timeframe);
    assert g[..q] == g;
    var r := Aggregated(rows, identity, timeframe);
    if r.Ok? {
      GridBarsPass(r.value, rows, identity, start, timeframe, m, q);
      BarCount(r.value, rows, identity, start, timeframe, m, q);
      DerivedQuality.DerivedPassIsSound(r.value, start, timeframe, Some(q), true);
    }
  }

  lemma PassedNonEmpty(rows: seq<Row>, start: int, end: int, orderValid: bool, n: int)
    requires Quality.SoundPeriod(rows, start, end, orderValid, Some(n))
    ensures rows != []
  {
  }

  lemma BarCount(bars: seq<Row>, rows: seq<Row>, identity: seq<string>, start: int, timeframe: int, m: nat, q: nat)
    requires m > 0 && GridBars(bars, rows, identity, start, timeframe, m, q)
    ensures |bars| == q
  {
  }
}
