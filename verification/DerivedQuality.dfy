/** The quality gate for derived bars, where a check that could not run blocks as well. */
module DerivedQuality {
  import opened Wrappers
  import opened Bars
  import opened Quality

  ghost function CountFindings(rows: seq<Row>, expected: Option<int>): seq<Finding> {
    if expected.None? then [Skipped("derived_row_count_matches_expected")]
    else [Recorded("derived_row_count_matches_expected", |rows| == expected.value, |rows|)]
  }

  ghost function BoundaryFindings(rows: seq<Row>, start: int, timeframe: int, expected: Option<int>): seq<Finding> {
    if rows != [] && expected.Some? && |rows| == expected.value then
      [Recorded("derived_first_boundary_exact", rows[0].openTime == start, 0),
       Recorded("derived_last_boundary_exact", rows[|rows| - 1].closeTime == start + |rows| * timeframe - 1, 0)]
    else
      [Skipped("derived_first_boundary_exact"), Skipped("derived_last_boundary_exact")]
  }

  ghost function SequenceFindings(rows: seq<Row>, timeframe: int): seq<Finding> {
    [Recorded("derived_unique_open_times", |Times(rows)| == |rows|, |rows| - |Times(rows)|),
     Recorded("derived_strictly_ascending_open_times", Ascending(rows), 0),
     Recorded("derived_adjacency_exactly_timeframe_ms", Adjacent(rows, timeframe), 0)]
  }

  ghost function RowFindings(rows: seq<Row>, timeframe: int): seq<Finding> {
    [Recorded("derived_ohlc_bounds_hold", BarTally(rows, Ohlc, timeframe) == 0, BarTally(rows, Ohlc, timeframe)),
     Recorded("derived_prices_strictly_positive", BarTally(rows, Prices, timeframe) == 0, BarTally(rows, Prices, timeframe)),
     Recorded("derived_volumes_and_counts_nonnegative", BarTally(rows, Volumes, timeframe) == 0, BarTally(rows, Volumes, timeframe)),
     Recorded("derived_taker_buy_within_counterpart_volumes", BarTally(rows, Taker, timeframe) == 0, BarTally(rows, Taker, timeframe)),
     Recorded("derived_close_time_relation", BarTally(rows, CloseTime, timeframe) == 0, BarTally(rows, CloseTime, timeframe)),
     Warned("derived_zero_volume_bucket", BarTally(rows, ZeroVolume, timeframe))]
  }

  ghost function ReconciliationFindings(ok: bool): seq<Finding> {
    [Recorded("derived_reconciliation_matches", ok, if ok then 0 else 1)]
  }

  /** All thirteen findings in order. */
  ghost function DerivedFindings(rows: seq<Row>, start: int, timeframe: int, expected: Option<int>, reconciled: bool): seq<Finding> {
    CountFindings(rows, expected) + BoundaryFindings(rows, start, timeframe, expected)
    + SequenceFindings(rows, timeframe) + RowFindings(rows, timeframe) + ReconciliationFindings(reconciled)
  }

  lemma NextTallies(rows: seq<Row>, i: nat, timeframe: int)
    requires i < |rows|
    ensures forall c :: BarTally(rows[..i + 1], c, timeframe) == BarTally(rows[..i], c, timeframe) + BarFaults(rows[i], c, timeframe)
  {
    hide BarFaults;
    assert rows[..i + 1][..i] == rows[..i];
  }

  lemma NothingTallied(timeframe: int)
    ensures forall c :: BarTally([], c, timeframe) == 0
  {
  }

  /** One pass over the bars with a counter for every check. */
  method TallyRows(rows: seq<Row>, timeframe: int)
    returns (ohlc: nat, prices: nat, volumes: nat, taker: nat, close: nat, zeroVolume: nat)
    ensures ohlc == BarTally(rows, Ohlc, timeframe) && prices == BarTally(rows, Prices, timeframe)
    ensures volumes == BarTally(rows, Volumes, timeframe) && taker == BarTally(rows, Taker, timeframe)
    ensures close == BarTally(rows, CloseTime, timeframe) && zeroVolume == BarTally(rows, ZeroVolume, timeframe)
  {
    hide BarTally, OhlcHolds, PricesPositive, VolumesNonNegative, TakerWithin, NoVolume;
    ohlc, prices, volumes, taker, close, zeroVolume := 0, 0, 0, 0, 0, 0;
    NothingTallied(timeframe);
    assert rows[..0] == [];
    for i := 0 to |rows|
      invariant ohlc == BarTally(rows[..i], Ohlc, timeframe) && prices == BarTally(rows[..i], Prices, timeframe)
      invariant volumes == BarTally(rows[..i], Volumes, timeframe) && taker == BarTally(rows[..i], Taker, timeframe)
      invariant close == BarTally(rows[..i], CloseTime, timeframe) && zeroVolume == BarTally(rows[..i], ZeroVolume, timeframe)
    {
      NextTallies(rows, i, timeframe);
      var row := rows[i];
      if !OhlcHolds(row) { ohlc := ohlc + 1; }
      if !PricesPositive(row) { prices := prices + 1; }
      if row.tradeCount < 0 || !VolumesNonNegative(row) { volumes := volumes + 1; }
      if !TakerWithin(row) { taker := taker + 1; }
      if row.closeTime != row.openTime + timeframe - 1 { close := close + 1; }
      if NoVolume(row) { zeroVolume := zeroVolume + 1; }
    }
    assert rows[..|rows|] == rows;
  }

  method CheckBoundaries(report: Report, rows: seq<Row>, start: int, timeframe: int, expected: Option<int>)
    modifies report
    ensures report.findings == old(report.findings) + (CountFindings(rows, expected) + BoundaryFindings(rows, start, timeframe, expected))
  {
    var complete := false;
    if expected.None? {
      report.Skip("derived_row_count_matches_expected");
    } else {
      complete := |rows| == expected.value;
      report.Record("derived_row_count_matches_expected", complete, |rows|);
    }
    if rows != [] && complete {
      report.Record("derived_first_boundary_exact", rows[0].openTime == start, 0);
      report.Record("derived_last_boundary_exact", rows[|rows| - 1].closeTime == start + |rows| * timeframe - 1, 0);
    } else {
      report.Skip("derived_first_boundary_exact");
      report.Skip("derived_last_boundary_exact");
    }
  }

  method CheckSequence(report: Report, rows: seq<Row>, timeframe: int)
    modifies report
    ensures report.findings == old(report.findings) + SequenceFindings(rows, timeframe)
  {
    hide Ascending, Adjacent, Times;
    var unique := UniqueTimes(rows);
    report.Record("derived_unique_open_times", unique == |rows|, |rows| - unique);
    var ascending := IsAscending(rows);
    report.Record("derived_strictly_ascending_open_times", ascending, 0);
    var adjacent := IsAdjacent(rows, timeframe);
    report.Record("derived_adjacency_exactly_timeframe_ms", adjacent, 0);
  }

  method CheckRows(report: Report, rows: seq<Row>, timeframe: int, reconciled: bool)
    modifies report
    ensures report.findings == old(report.findings) + (RowFindings(rows, timeframe) + ReconciliationFindings(reconciled))
  {
    hide BarTally;
    var ohlc, prices, volumes, taker, close, zeroVolume := TallyRows(rows, timeframe);
    report.Record("derived_ohlc_bounds_hold", ohlc == 0, ohlc);
    report.Record("derived_prices_strictly_positive", prices == 0, prices);
    report.Record("derived_volumes_and_counts_nonnegative", volumes == 0, volumes);
    report.Record("derived_taker_buy_within_counterpart_volumes", taker == 0, taker);
    report.Record("derived_close_time_relation", close == 0, close);
    report.WarnIf("derived_zero_volume_bucket", zeroVolume);
    assert report.findings == old(report.findings) + RowFindings(rows, timeframe);
    report.Record("derived_reconciliation_matches", reconciled, if reconciled then 0 else 1);
  }

  method EvaluateDerivedQuality(rows: seq<Row>, start: int, timeframe: int, expected: Option<int>, reconciled: bool)
    returns (findings: seq<Finding>, state: State)
    ensures findings == DerivedFindings(rows, start, timeframe, expected, reconciled)
    ensures state == StateOf(findings, DERIVED_BLOCKING)
  {
    hide SequenceFindings, RowFindings, ReconciliationFindings, CountFindings, BoundaryFindings, Has;
    var report := new Report();
    CheckBoundaries(report, rows, start, timeframe, expected);
    CheckSequence(report, rows, timeframe);
    CheckRows(report, rows, timeframe, reconciled);
    findings := report.findings;
    assert findings == DerivedFindings(rows, start, timeframe, expected, reconciled);
    var failed, blocked := Has(findings, {Fail}), Has(findings, {Warn, NotEvaluated});
    state := if failed then Failed else if blocked then WarnBlocked else Passed;
  }

  // ---------- what PASS means ----------

  /** Every row check that a bar must meet. */
  ghost predicate SoundBar(row: Row, timeframe: int) {
    UsableBar(row, timeframe) && (row.baseVolume != 0 || row.quoteVolume != 0)
  }

  /** The row checks whose violation fails a bar, as one chain of comparisons. */
  ghost predicate UsableBar(row: Row, timeframe: int) {
    && 0 < row.low <= row.open <= row.high && row.low <= row.close <= row.high
    && 0 <= row.takerBase <= row.baseVolume && 0 <= row.takerQuote <= row.quoteVolume && row.tradeCount >= 0
    && row.closeTime == row.openTime + timeframe - 1
  }

  /** The bars are exactly the expected number of adjacent sound bars from the start. */
  ghost predicate SoundSeries(rows: seq<Row>, start: int, timeframe: int, expected: Option<int>) {
    && rows != [] && expected == Some(|rows|)
    && rows[0].openTime == start && rows[|rows| - 1].closeTime == start + |rows| * timeframe - 1
    && Adjacent(rows, timeframe)
    && (forall i :: 0 <= i < |rows| ==> SoundBar(rows[i], timeframe))
  }

  ghost predicate NoFault(row: Row, timeframe: int) {
    && BarFaults(row, Ohlc, timeframe) == 0 && BarFaults(row, Prices, timeframe) == 0 && BarFaults(row, Volumes, timeframe) == 0
    && BarFaults(row, Taker, timeframe) == 0 && BarFaults(row, CloseTime, timeframe) == 0 && BarFaults(row, ZeroVolume, timeframe) == 0
  }

  lemma SoundMeansNoFault(row: Row, timeframe: int)
    ensures SoundBar(row, timeframe) <==> NoFault(row, timeframe)
  {
    UsableMeansNoHardFault(row, timeframe);
  }

  lemma UsableMeansNoHardFault(row: Row, timeframe: int)
    ensures UsableBar(row, timeframe) <==>
      && BarFaults(row, Ohlc, timeframe) == 0 && BarFaults(row, Prices, timeframe) == 0 && BarFaults(row, Volumes, timeframe) == 0
      && BarFaults(row, Taker, timeframe) == 0 && BarFaults(row, CloseTime, timeframe) == 0
  {
    assert BarFaults(row, Ohlc, timeframe) == 0 <==> OhlcHolds(row);
    assert BarFaults(row, Prices, timeframe) == 0 <==> PricesPositive(row);
    assert BarFaults(row, Volumes, timeframe) == 0 <==> VolumesNonNegative(row) && row.tradeCount >= 0;
    assert BarFaults(row, Taker, timeframe) == 0 <==> TakerWithin(row);
    assert BarFaults(row, CloseTime, timeframe) == 0 <==> row.closeTime == row.openTime + timeframe - 1;
  }

  lemma RowChecksClean(rows: seq<Row>, timeframe: int)
    ensures Clean(RowFindings(rows, timeframe)) <==>
      BarTally(rows, Ohlc, timeframe) == 0 && BarTally(rows, Prices, timeframe) == 0 && BarTally(rows, Volumes, timeframe) == 0
      && BarTally(rows, Taker, timeframe) == 0 && BarTally(rows, CloseTime, timeframe) == 0 && BarTally(rows, ZeroVolume, timeframe) == 0
  {
    hide BarTally;
    var f := RowFindings(rows, timeframe);
    assert f[0].outcome.Pass? <==> BarTally(rows, Ohlc, timeframe) == 0;
    assert f[1].outcome.Pass? <==> BarTally(rows, Prices, timeframe) == 0;
    assert f[2].outcome.Pass? <==> BarTally(rows, Volumes, timeframe) == 0;
    assert f[3].outcome.Pass? <==> BarTally(rows, Taker, timeframe) == 0;
    assert f[4].outcome.Pass? <==> BarTally(rows, CloseTime, timeframe) == 0;
    assert f[5].outcome.Pass? <==> BarTally(rows, ZeroVolume, timeframe) == 0;
  }

  lemma RowsClean(rows: seq<Row>, timeframe: int)
    ensures Clean(RowFindings(rows, timeframe)) <==> forall i :: 0 <= i < |rows| ==> SoundBar(rows[i], timeframe)
  {
    hide BarTally, SoundBar;
    NoBarFaults(rows, Ohlc, timeframe);
    NoBarFaults(rows, Prices, timeframe);
    NoBarFaults(rows, Volumes, timeframe);
    NoBarFaults(rows, Taker, timeframe);
    NoBarFaults(rows, CloseTime, timeframe);
    NoBarFaults(rows, ZeroVolume, timeframe);
    RowChecksClean(rows, timeframe);
    hide RowFindings, BarFaults;
    forall i | 0 <= i < |rows|
      ensures SoundBar(rows[i], timeframe) <==> NoFault(rows[i], timeframe)
    {
      SoundMeansNoFault(rows[i], timeframe);
    }
  }

  lemma BoundariesClean(rows: seq<Row>, start: int, timeframe: int, expected: Option<int>)
    ensures Clean(CountFindings(rows, expected)) && Clean(BoundaryFindings(rows, start, timeframe, expected)) <==>
      && rows != [] && expected == Some(|rows|)
      && rows[0].openTime == start && rows[|rows| - 1].closeTime == start + |rows| * timeframe - 1
  {
    var f, g := CountFindings(rows, expected), BoundaryFindings(rows, start, timeframe, expected);
    assert f[0].outcome.Pass? <==> expected == Some(|rows|);
    assert g[0].outcome.Pass? && g[1].outcome.Pass? <==> Clean(g);
  }

  lemma SequenceClean(rows: seq<Row>, timeframe: int)
    requires timeframe > 0
    ensures Clean(SequenceFindings(rows, timeframe)) <==> Adjacent(rows, timeframe)
  {
    hide Times;
    var f := SequenceFindings(rows, timeframe);
    assert f[2].outcome.Pass? <==> Adjacent(rows, timeframe);
    if Adjacent(rows, timeframe) {
      assert Ascending(rows);
      AscendingTimesUnique(rows);
    }
  }

  lemma ReconciliationClean(ok: bool)
    ensures Clean(ReconciliationFindings(ok)) <==> ok
  {
    assert ReconciliationFindings(ok)[0].outcome.Pass? <==> ok;
  }

  /** PASS is exactly a sound series that was reconciled. */
  lemma DerivedPassIsSound(rows: seq<Row>, start: int, timeframe: int, expected: Option<int>, reconciled: bool)
    requires timeframe > 0
    ensures StateOf(DerivedFindings(rows, start, timeframe, expected, reconciled), DERIVED_BLOCKING).Passed?
            <==> reconciled && SoundSeries(rows, start, timeframe, expected)
  {
    hide Has, Clean, Adjacent, SoundBar, CountFindings, BoundaryFindings, SequenceFindings, RowFindings, ReconciliationFindings;
    var a, b := CountFindings(rows, expected), BoundaryFindings(rows, start, timeframe, expected);
    var c, d, e := SequenceFindings(rows, timeframe), RowFindings(rows, timeframe), ReconciliationFindings(reconciled);
    assert DerivedFindings(rows, start, timeframe, expected, reconciled) == a + b + c + d + e;
    PassedMeansClean(a + b + c + d + e, DERIVED_BLOCKING);
    CleanConcat(a + b + c + d, e);
    CleanConcat(a + b + c, d);
    CleanConcat(a + b, c);
    CleanConcat(a, b);
    BoundariesClean(rows, start, timeframe, expected);
    SequenceClean(rows, timeframe);
    RowsClean(rows, timeframe);
    ReconciliationClean(reconciled);
  }

  // ---------- what each state means ----------

  /** The checks that fail a series of bars, in terms of its rows alone. */
  ghost predicate UsableSeries(rows: seq<Row>, start: int, timeframe: int, expected: Option<int>) {
    && (expected.Some? ==> |rows| == expected.value)
    && (rows != [] && expected.Some? ==>
          rows[0].openTime == start && rows[|rows| - 1].closeTime == start + |rows| * timeframe - 1)
    && (forall i :: 0 <= i < |rows| - 1 ==> rows[i + 1].openTime == rows[i].openTime + timeframe)
    && (forall i :: 0 <= i < |rows| ==> UsableBar(rows[i], timeframe))
  }

  lemma HardBoundaries(rows: seq<Row>, start: int, timeframe: int, expected: Option<int>)
    ensures Free(CountFindings(rows, expected) + BoundaryFindings(rows, start, timeframe, expected), {Fail}) <==>
      && (expected.Some? ==> |rows| == expected.value)
      && (rows != [] && expected.Some? ==>
            rows[0].openTime == start && rows[|rows| - 1].closeTime == start + |rows| * timeframe - 1)
    ensures expected.Some? && |rows| == expected.value ==>
      (Free(CountFindings(rows, expected) + BoundaryFindings(rows, start, timeframe, expected), {Warn, NotEvaluated}) <==> rows != [])
    ensures expected.None? ==>
      !Free(CountFindings(rows, expected) + BoundaryFindings(rows, start, timeframe, expected), {Warn, NotEvaluated})
  {
    var f, g := CountFindings(rows, expected), BoundaryFindings(rows, start, timeframe, expected);
    FreeConcat(f, g, {Fail});
    FreeConcat(f, g, {Warn, NotEvaluated});
    assert |f| == 1 && |g| == 2;
    assert Free(f, {Fail}) <==> f[0].outcome != Fail;
    assert Free(g, {Fail}) <==> g[0].outcome != Fail && g[1].outcome != Fail;
  }

  lemma SequenceNeverBlocks(rows: seq<Row>, timeframe: int)
    requires timeframe > 0
    ensures Free(SequenceFindings(rows, timeframe), {Fail}) <==>
      forall i :: 0 <= i < |rows| - 1 ==> rows[i + 1].openTime == rows[i].openTime + timeframe
    ensures Free(SequenceFindings(rows, timeframe), {Warn, NotEvaluated})
  {
    hide Times, Ascending;
    SequenceClean(rows, timeframe);
    RecordedOnly(SequenceFindings(rows, timeframe));
    hide SequenceFindings;
    assert Adjacent(rows, timeframe) <==> forall i :: 0 <= i < |rows| - 1 ==> rows[i + 1].openTime == rows[i].openTime + timeframe;
  }

  lemma ReconciliationNeverBlocks(ok: bool)
    ensures Free(ReconciliationFindings(ok), {Fail}) <==> ok
    ensures Free(ReconciliationFindings(ok), {Warn, NotEvaluated})
  {
    assert ReconciliationFindings(ok)[0].outcome.Pass? <==> ok;
  }

  lemma RowStates(rows: seq<Row>, timeframe: int)
    ensures Free(RowFindings(rows, timeframe), {Fail}) <==>
      && BarTally(rows, Ohlc, timeframe) == 0 && BarTally(rows, Prices, timeframe) == 0 && BarTally(rows, Volumes, timeframe) == 0
      && BarTally(rows, Taker, timeframe) == 0 && BarTally(rows, CloseTime, timeframe) == 0
    ensures Free(RowFindings(rows, timeframe), {Warn, NotEvaluated}) <==> BarTally(rows, ZeroVolume, timeframe) == 0
  {
    hide BarTally;
    var f := RowFindings(rows, timeframe);
    assert f[0].outcome.Pass? <==> BarTally(rows, Ohlc, timeframe) == 0;
    assert f[1].outcome.Pass? <==> BarTally(rows, Prices, timeframe) == 0;
    assert f[2].outcome.Pass? <==> BarTally(rows, Volumes, timeframe) == 0;
    assert f[3].outcome.Pass? <==> BarTally(rows, Taker, timeframe) == 0;
    assert f[4].outcome.Pass? <==> BarTally(rows, CloseTime, timeframe) == 0;
    assert f[5].outcome.Pass? <==> BarTally(rows, ZeroVolume, timeframe) == 0;
  }

  lemma HardRows(rows: seq<Row>, timeframe: int)
    ensures Free(RowFindings(rows, timeframe), {Fail}) <==> forall i :: 0 <= i < |rows| ==> UsableBar(rows[i], timeframe)
    ensures Free(RowFindings(rows, timeframe), {Warn, NotEvaluated}) <==>
      forall i :: 0 <= i < |rows| ==> rows[i].baseVolume != 0 || rows[i].quoteVolume != 0
  {
    hide BarTally, UsableBar, RowFindings, Free;
    NoBarFaults(rows, Ohlc, timeframe);
    NoBarFaults(rows, Prices, timeframe);
    NoBarFaults(rows, Volumes, timeframe);
    NoBarFaults(rows, Taker, timeframe);
    NoBarFaults(rows, CloseTime, timeframe);
    NoBarFaults(rows, ZeroVolume, timeframe);
    RowStates(rows, timeframe);
    forall i | 0 <= i < |rows|
      ensures BarFaults(rows[i], ZeroVolume, timeframe) == 0 <==> rows[i].baseVolume != 0 || rows[i].quoteVolume != 0
    {
    }
    hide BarFaults;
    forall i | 0 <= i < |rows|
      ensures UsableBar(rows[i], timeframe) <==>
        && BarFaults(rows[i], Ohlc, timeframe) == 0 && BarFaults(rows[i], Prices, timeframe) == 0 && BarFaults(rows[i], Volumes, timeframe) == 0
        && BarFaults(rows[i], Taker, timeframe) == 0 && BarFaults(rows[i], CloseTime, timeframe) == 0
    {
      UsableMeansNoHardFault(rows[i], timeframe);
    }
  }

  /**
   FAIL exactly for an unusable or unreconciled series; otherwise a missing row count, an empty series
   or a bar without volume blocks, and nothing else does.
   */
  lemma DerivedVerdict(rows: seq<Row>, start: int, timeframe: int, expected: Option<int>, reconciled: bool)
    requires timeframe > 0
    ensures StateOf(DerivedFindings(rows, start, timeframe, expected, reconciled), DERIVED_BLOCKING) ==
      if !reconciled || !UsableSeries(rows, start, timeframe, expected) then Failed
      else if expected.Some? && rows != [] && forall i :: 0 <= i < |rows| ==> rows[i].baseVolume != 0 || rows[i].quoteVolume != 0
        then Passed
      else WarnBlocked
  {
    hide Free, StateOf, UsableBar, CountFindings, BoundaryFindings, SequenceFindings, RowFindings, ReconciliationFindings;
    var a := CountFindings(rows, expected) + BoundaryFindings(rows, start, timeframe, expected);
    var b, c, d := SequenceFindings(rows, timeframe), RowFindings(rows, timeframe), ReconciliationFindings(reconciled);
    StateByFreedom(a + b + c + d, DERIVED_BLOCKING);
    FreeInParts(a, b, c, d, {Fail});
    FreeInParts(a, b, c, d, {Warn, NotEvaluated});
    HardBoundaries(rows, start, timeframe, expected);
    SequenceNeverBlocks(rows, timeframe);
    HardRows(rows, timeframe);
    ReconciliationNeverBlocks(reconciled);
  }
}
