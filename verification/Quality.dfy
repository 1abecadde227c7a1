/**
 The quality gates for source minutes and for derived bars: every check appends one finding, and the
 state is PASS only when nothing failed and nothing blocks.  Evidence texts are left out of findings.
 */
module Quality {
  import opened Wrappers
  import opened Bars

  const MINUTE: int := 60_000

  datatype Outcome = Pass | Warn | Fail | NotEvaluated
  datatype Severity = Hard | Warning
  datatype Finding = Finding(checkId: string, outcome: Outcome, severity: Severity, count: int)
  datatype State = Passed | WarnBlocked | Failed

  function Recorded(checkId: string, ok: bool, count: int): Finding {
    Finding(checkId, if ok then Pass else Fail, Hard, count)
  }

  function Warned(checkId: string, count: int): Finding {
    Finding(checkId, if count != 0 then Warn else Pass, Warning, count)
  }

  function Skipped(checkId: string): Finding {
    Finding(checkId, NotEvaluated, Warning, 0)
  }

  /** The list both evaluators append to. */
  class Report {
    var findings: seq<Finding>

    constructor ()
      ensures findings == []
    {
      findings := [];
    }

    method Record(checkId: string, ok: bool, count: int)
      modifies this
      ensures findings == old(findings) + [Recorded(checkId, ok, count)]
    {
      findings := findings + [Recorded(checkId, ok, count)];
    }

    method WarnIf(checkId: string, count: int)
      modifies this
      ensures findings == old(findings) + [Warned(checkId, count)]
    {
      findings := findings + [Warned(checkId, count)];
    }

    method Skip(checkId: string)
      modifies this
      ensures findings == old(findings) + [Skipped(checkId)]
    {
      findings := findings + [Skipped(checkId)];
    }
  }

  // ---------- the state of a list of findings ----------

  function Has(findings: seq<Finding>, outcomes: set<Outcome>): (b: bool)
    ensures b <==> exists i :: 0 <= i < |findings| && findings[i].outcome in outcomes
  {
    if findings == [] then false
    else findings[|findings| - 1].outcome in outcomes || Has(findings[..|findings| - 1], outcomes)
  }

  /** A failure decides first, then anything that blocks. */
  function StateOf(findings: seq<Finding>, blocking: set<Outcome>): State {
    if Has(findings, {Fail}) then Failed else if Has(findings, blocking) then WarnBlocked else Passed
  }

  const SOURCE_BLOCKING: set<Outcome> := {Warn}
  const DERIVED_BLOCKING: set<Outcome> := {Warn, NotEvaluated}

  ghost predicate Clean(findings: seq<Finding>) {
    forall i :: 0 <= i < |findings| ==> findings[i].outcome.Pass?
  }

  ghost predicate Evaluated(findings: seq<Finding>) {
    forall i :: 0 <= i < |findings| ==> !findings[i].outcome.NotEvaluated?
  }

  lemma CleanConcat(a: seq<Finding>, b: seq<Finding>)
    ensures Clean(a + b) <==> Clean(a) && Clean(b)
  {
    var all := a + b;
    assert forall i :: 0 <= i < |a| ==> all[i] == a[i];
    assert forall i :: 0 <= i < |b| ==> all[|a| + i] == b[i];
  }

  /** Failed exactly when some finding fails, blocked exactly when none fails and some blocks. */
  lemma StateMeans(findings: seq<Finding>, blocking: set<Outcome>)
    ensures StateOf(findings, blocking).Failed? <==> exists i :: 0 <= i < |findings| && findings[i].outcome == Fail
    ensures StateOf(findings, blocking).WarnBlocked? <==>
      && (forall i :: 0 <= i < |findings| ==> findings[i].outcome != Fail)
      && exists i :: 0 <= i < |findings| && findings[i].outcome in blocking
  {
  }

  /** No finding has one of these outcomes. */
  ghost predicate Free(findings: seq<Finding>, outcomes: set<Outcome>) {
    forall i :: 0 <= i < |findings| ==> findings[i].outcome !in outcomes
  }

  lemma FreeConcat(a: seq<Finding>, b: seq<Finding>, outcomes: set<Outcome>)
    ensures Free(a + b, outcomes) <==> Free(a, outcomes) && Free(b, outcomes)
  {
    var all := a + b;
    assert forall i :: 0 <= i < |a| ==> all[i] == a[i];
    assert forall i :: 0 <= i < |b| ==> all[|a| + i] == b[i];
  }

  lemma StateByFreedom(findings: seq<Finding>, blocking: set<Outcome>)
    ensures StateOf(findings, blocking) ==
      if !Free(findings, {Fail}) then Failed else if !Free(findings, blocking) then WarnBlocked else Passed
  {
  }

  lemma PassedMeansClean(findings: seq<Finding>, blocking: set<Outcome>)
    requires blocking == DERIVED_BLOCKING
          || (blocking == SOURCE_BLOCKING && Evaluated(findings))
    ensures StateOf(findings, blocking).Passed? <==> Clean(findings)
  {
  }

  // ---------- what is checked row by row ----------

  datatype Check = Ohlc | Prices | Volumes | CloseTime | Taker | ZeroVolume | Ignore

  predicate OhlcHolds(row: Row) {
    row.high >= row.open && row.high >= row.close && row.low <= row.open && row.low <= row.close && row.high >= row.low
  }

  predicate PricesPositive(row: Row) {
    row.open > 0 && row.high > 0 && row.low > 0 && row.close > 0
  }

  predicate VolumesNonNegative(row: Row) {
    row.baseVolume >= 0 && row.quoteVolume >= 0 && row.takerBase >= 0 && row.takerQuote >= 0
  }

  predicate TakerWithin(row: Row) {
    row.takerBase <= row.baseVolume && row.takerQuote <= row.quoteVolume
  }

  predicate NoVolume(row: Row) {
    row.baseVolume == 0 && row.quoteVolume == 0
  }

  function Flag(b: bool): nat {
    if b then 1 else 0
  }

  /** How many violations of a check one minute adds. */
  function MinuteFaults(row: Row, c: Check): nat {
    match c
    case Ohlc => Flag(!OhlcHolds(row))
    case Prices => Flag(!PricesPositive(row))
    case Volumes => Flag(!VolumesNonNegative(row)) + Flag(row.tradeCount < 0)
    case CloseTime => Flag(row.closeTime != row.openTime + 59_999)
    case Taker => Flag(!TakerWithin(row))
    case ZeroVolume => Flag(NoVolume(row))
    case Ignore => Flag(row.sourceIgnore != "0")
  }

  /** The same for a bar; a derived bar is not checked for source_ignore. */
  function BarFaults(row: Row, c: Check, timeframe: int): nat {
    match c
    case Volumes => Flag(row.tradeCount < 0 || !VolumesNonNegative(row))
    case CloseTime => Flag(row.closeTime != row.openTime + timeframe - 1)
    case Ignore => 0
    case _ => MinuteFaults(row, c)
  }

  function MinuteTally(rows: seq<Row>, c: Check): nat {
    if rows == [] then 0 else MinuteTally(rows[..|rows| - 1], c) + MinuteFaults(rows[|rows| - 1], c)
  }

  function BarTally(rows: seq<Row>, c: Check, timeframe: int): nat {
    if rows == [] then 0 else BarTally(rows[..|rows| - 1], c, timeframe) + BarFaults(rows[|rows| - 1], c, timeframe)
  }

  lemma {:induction false} NoMinuteFaults(rows: seq<Row>, c: Check)
    ensures MinuteTally(rows, c) == 0 <==> forall i :: 0 <= i < |rows| ==> MinuteFaults(rows[i], c) == 0
  {
    hide MinuteFaults;
    if rows != [] {
      NoMinuteFaults(rows[..|rows| - 1], c);
    }
  }

  lemma {:induction false} NoBarFaults(rows: seq<Row>, c: Check, timeframe: int)
    ensures BarTally(rows, c, timeframe) == 0 <==> forall i :: 0 <= i < |rows| ==> BarFaults(rows[i], c, timeframe) == 0
  {
    hide BarFaults;
    if rows != [] {
      NoBarFaults(rows[..|rows| - 1], c, timeframe);
    }
  }

  // ---------- what is checked over the sequence ----------

  ghost function Times(rows: seq<Row>): set<int> {
    set i | 0 <= i < |rows| :: rows[i].openTime
  }

  ghost predicate Ascending(rows: seq<Row>) {
    forall i :: 0 <= i < |rows| - 1 ==> rows[i].openTime < rows[i + 1].openTime
  }

  ghost predicate Adjacent(rows: seq<Row>, step: int) {
    forall i :: 0 <= i < |rows| - 1 ==> rows[i + 1].openTime - rows[i].openTime == step
  }

  function OutOfPeriod(rows: seq<Row>, start: int, end: int): nat {
    if rows == [] then 0
    else OutOfPeriod(rows[..|rows| - 1], start, end) + Flag(!(start <= rows[|rows| - 1].openTime < end))
  }

  lemma {:induction false} AllInPeriod(rows: seq<Row>, start: int, end: int)
    ensures OutOfPeriod(rows, start, end) == 0 <==> forall i :: 0 <= i < |rows| ==> start <= rows[i].openTime < end
  {
    if rows != [] {
      AllInPeriod(rows[..|rows| - 1], start, end);
    }
  }

  method UniqueTimes(rows: seq<Row>) returns (n: nat)
    ensures n == |Times(rows)|
  {
    var times: set<int> := {};
    for i := 0 to |rows|
      invariant times == Times(rows[..i])
    {
      TimesNext(rows, i);
      times := times + {rows[i].openTime};
    }
    assert rows[..|rows|] == rows;
    n := |times|;
  }

  lemma TimesNext(rows: seq<Row>, i: nat)
    requires i < |rows|
    ensures Times(rows[..i + 1]) == Times(rows[..i]) + {rows[i].openTime}
  {
    forall t | t in Times(rows[..i]) + {rows[i].openTime}
      ensures t in Times(rows[..i + 1])
    {
      if t == rows[i].openTime {
        assert rows[..i + 1][i].openTime == t;
      } else {
        var k :| 0 <= k < i && rows[..i][k].openTime == t;
        assert rows[..i + 1][k].openTime == t;
      }
    }
    forall t | t in Times(rows[..i + 1])
      ensures t in Times(rows[..i]) + {rows[i].openTime}
    {
      var k :| 0 <= k < i + 1 && rows[..i + 1][k].openTime == t;
      if k < i {
        assert rows[..i][k].openTime == t;
      }
    }
  }

  method IsAscending(rows: seq<Row>) returns (ok: bool)
    ensures ok == Ascending(rows)
  {
    for i := 0 to |rows|
      invariant forall k :: 0 <= k < i - 1 ==> rows[k].openTime < rows[k + 1].openTime
    {
      if i > 0 && !(rows[i - 1].openTime < rows[i].openTime) {
        assert !(rows[i - 1].openTime < rows[i - 1 + 1].openTime);
        return false;
      }
    }
    ok := true;
  }

  method IsAdjacent(rows: seq<Row>, step: int) returns (ok: bool)
    ensures ok == Adjacent(rows, step)
  {
    for i := 0 to |rows|
      invariant forall k :: 0 <= k < i - 1 ==> rows[k + 1].openTime - rows[k].openTime == step
    {
      if i > 0 && rows[i].openTime - rows[i - 1].openTime != step {
        assert rows[i - 1 + 1].openTime - rows[i - 1].openTime != step;
        return false;
      }
    }
    ok := true;
  }

  /** Strictly ascending times are all different. */
  lemma {:induction false} AscendingTimesUnique(rows: seq<Row>)
    requires Ascending(rows)
    ensures |Times(rows)| == |rows|
    ensures rows != [] ==> forall t :: t in Times(rows) ==> t <= rows[|rows| - 1].openTime
  {
    if rows == [] {
      assert Times(rows) == {};
    } else {
      var n := |rows| - 1;
      var front := rows[..n];
      AscendingTimesUnique(front);
      TimesNext(rows, n);
      assert rows[..n + 1] == rows;
      assert n > 0 ==> front[n - 1] == rows[n - 1] && rows[n - 1].openTime < rows[n - 1 + 1].openTime;
      assert n == 0 ==> Times(front) == {};
    }
  }

  // ---------- source minutes ----------

  ghost function CountFindings(rows: seq<Row>, expected: Option<int>): seq<Finding> {
    [Recorded("row_count_matches_expected", expected.None? || |rows| == expected.value, |rows|)]
  }

  ghost function BoundaryFindings(rows: seq<Row>, start: int, end: int, expected: Option<int>): seq<Finding> {
    if rows != [] && expected.Some? && |rows| == expected.value then
      [Recorded("first_boundary_exact", rows[0].openTime == start, 0),
       Recorded("last_boundary_exact", rows[|rows| - 1].openTime == end - MINUTE, 0)]
    else
      [Recorded("first_boundary_exact", rows != [], 0), Recorded("last_boundary_exact", rows != [], 0)]
  }

  ghost function SequenceFindings(rows: seq<Row>, start: int, end: int): seq<Finding> {
    [Recorded("unique_open_times", |Times(rows)| == |rows|, |rows| - |Times(rows)|),
     Recorded("strictly_ascending_open_times", Ascending(rows), 0),
     Recorded("adjacency_exactly_60000ms", Adjacent(rows, MINUTE), 0),
     Recorded("period_membership_respected", OutOfPeriod(rows, start, end) == 0, OutOfPeriod(rows, start, end))]
  }

  ghost function RowFindings(rows: seq<Row>): seq<Finding> {
    [Recorded("ohlc_bounds_hold", MinuteTally(rows, Ohlc) == 0, MinuteTally(rows, Ohlc)),
     Recorded("prices_strictly_positive", MinuteTally(rows, Prices) == 0, MinuteTally(rows, Prices)),
     Recorded("volumes_and_counts_nonnegative", MinuteTally(rows, Volumes) == 0, MinuteTally(rows, Volumes)),
     Recorded("close_time_equals_open_plus_59999", MinuteTally(rows, CloseTime) == 0, MinuteTally(rows, CloseTime)),
     Recorded("taker_buy_within_counterpart_volumes", MinuteTally(rows, Taker) == 0, MinuteTally(rows, Taker))]
  }

  ghost function SourceWarnings(rows: seq<Row>, orderValid: bool): seq<Finding> {
    [Warned("source_order_invalid", if orderValid then 0 else 1),
     Warned("zero_volume_candle", MinuteTally(rows, ZeroVolume)),
     Warned("nonzero_source_ignore", MinuteTally(rows, Ignore))]
  }

  /** All fifteen findings in order. */
  ghost function SourceFindings(rows: seq<Row>, start: int, end: int, orderValid: bool, expected: Option<int>): seq<Finding> {
    CountFindings(rows, expected) + BoundaryFindings(rows, start, end, expected)
    + SequenceFindings(rows, start, end) + RowFindings(rows) + SourceWarnings(rows, orderValid)
  }

  /** Appends the checks that look at the whole sequence. */
  method CheckSequence(report: Report, rows: seq<Row>, start: int, end: int)
    modifies report
    ensures report.findings == old(report.findings) + SequenceFindings(rows, start, end)
  {
    hide Ascending, Adjacent, Times, OutOfPeriod;
    var unique := UniqueTimes(rows);
    report.Record("unique_open_times", unique == |rows|, |rows| - unique);
    var ascending := IsAscending(rows);
    report.Record("strictly_ascending_open_times", ascending, 0);
    var adjacent := IsAdjacent(rows, MINUTE);
    report.Record("adjacency_exactly_60000ms", adjacent, 0);
    var outOfPeriod := CountOutOfPeriod(rows, start, end);
    report.Record("period_membership_respected", outOfPeriod == 0, outOfPeriod);
  }

  method CountOutOfPeriod(rows: seq<Row>, start: int, end: int) returns (n: nat)
    ensures n == OutOfPeriod(rows, start, end)
  {
    n := 0;
    for i := 0 to |rows|
      invariant n == OutOfPeriod(rows[..i], start, end)
    {
      assert rows[..i + 1][..i] == rows[..i];
      if !(start <= rows[i].openTime < end) {
        n := n + 1;
      }
    }
    assert rows[..|rows|] == rows;
  }

  lemma NextTally(rows: seq<Row>, i: nat, c: Check)
    requires i < |rows|
    ensures MinuteTally(rows[..i + 1], c) == MinuteTally(rows[..i], c) + MinuteFaults(rows[i], c)
  {
    hide MinuteFaults;
    assert rows[..i + 1][..i] == rows[..i];
  }

  lemma NextTallies(rows: seq<Row>, i: nat)
    requires i < |rows|
    ensures forall c :: MinuteTally(rows[..i + 1], c) == MinuteTally(rows[..i], c) + MinuteFaults(rows[i], c)
  {
    hide MinuteFaults, MinuteTally;
    forall c
      ensures MinuteTally(rows[..i + 1], c) == MinuteTally(rows[..i], c) + MinuteFaults(rows[i], c)
    {
      NextTally(rows, i, c);
    }
  }

  /** One pass over the rows with a counter for every check. */
  method TallyRows(rows: seq<Row>)
    returns (ohlc: nat, prices: nat, volumes: nat, close: nat, taker: nat, zeroVolume: nat, ignore: nat)
    ensures ohlc == MinuteTally(rows, Ohlc) && prices == MinuteTally(rows, Prices) && volumes == MinuteTally(rows, Volumes)
    ensures close == MinuteTally(rows, CloseTime) && taker == MinuteTally(rows, Taker)
    ensures zeroVolume == MinuteTally(rows, ZeroVolume) && ignore == MinuteTally(rows, Ignore)
  {
    hide MinuteTally, OhlcHolds, PricesPositive, VolumesNonNegative, TakerWithin, NoVolume;
    ohlc, prices, volumes, close, taker, zeroVolume, ignore := 0, 0, 0, 0, 0, 0, 0;
    NothingTallied();
    assert rows[..0] == [];
    for i := 0 to |rows|
      invariant ohlc == MinuteTally(rows[..i], Ohlc) && prices == MinuteTally(rows[..i], Prices)
      invariant volumes == MinuteTally(rows[..i], Volumes) && close == MinuteTally(rows[..i], CloseTime)
      invariant taker == MinuteTally(rows[..i], Taker)
      invariant zeroVolume == MinuteTally(rows[..i], ZeroVolume) && ignore == MinuteTally(rows[..i], Ignore)
    {
      NextTallies(rows, i);
      var row := rows[i];
      if !OhlcHolds(row) { ohlc := ohlc + 1; }
      if !PricesPositive(row) { prices := prices + 1; }
      if !VolumesNonNegative(row) { volumes := volumes + 1; }
      if row.tradeCount < 0 { volumes := volumes + 1; }
      if row.closeTime != row.openTime + 59_999 { close := close + 1; }
      if !TakerWithin(row) { taker := taker + 1; }
      if NoVolume(row) { zeroVolume := zeroVolume + 1; }
      if row.sourceIgnore != "0" { ignore := ignore + 1; }
    }
    assert rows[..|rows|] == rows;
  }

  /** Appends the row checks and the warnings. */
  method CheckRows(report: Report, rows: seq<Row>, orderValid: bool)
    modifies report
    ensures report.findings == old(report.findings) + (RowFindings(rows) + SourceWarnings(rows, orderValid))
  {
    hide MinuteTally;
    var ohlc, prices, volumes, close, taker, zeroVolume, ignore := TallyRows(rows);
    report.Record("ohlc_bounds_hold", ohlc == 0, ohlc);
    report.Record("prices_strictly_positive", prices == 0, prices);
    report.Record("volumes_and_counts_nonnegative", volumes == 0, volumes);
    report.Record("close_time_equals_open_plus_59999", close == 0, close);
    report.Record("taker_buy_within_counterpart_volumes", taker == 0, taker);
    assert report.findings == old(report.findings) + RowFindings(rows);
    ghost var sofar := report.findings;
    report.WarnIf("source_order_invalid", if orderValid then 0 else 1);
    report.WarnIf("zero_volume_candle", zeroVolume);
    report.WarnIf("nonzero_source_ignore", ignore);
    assert report.findings == sofar + SourceWarnings(rows, orderValid);
  }

  lemma NothingTallied()
    ensures forall c :: MinuteTally([], c) == 0
  {
  }

  method EvaluateQuality(rows: seq<Row>, start: int, end: int, orderValid: bool, expected: Option<int>)
    returns (findings: seq<Finding>, state: State)
    ensures findings == SourceFindings(rows, start, end, orderValid, expected)
    ensures state == StateOf(findings, SOURCE_BLOCKING)
  {
    hide SequenceFindings, RowFindings, SourceWarnings, Has;
    var report := new Report();
    var complete := expected.Some? && |rows| == expected.value;
    report.Record("row_count_matches_expected", expected.None? || complete, |rows|);
    if rows != [] && complete {
      report.Record("first_boundary_exact", rows[0].openTime == start, 0);
      report.Record("last_boundary_exact", rows[|rows| - 1].openTime == end - MINUTE, 0);
    } else if rows == [] {
      report.Record("first_boundary_exact", false, 0);
      report.Record("last_boundary_exact", false, 0);
    } else {
      report.Record("first_boundary_exact", true, 0);
      report.Record("last_boundary_exact", true, 0);
    }
    assert report.findings == CountFindings(rows, expected) + BoundaryFindings(rows, start, end, expected);
    CheckSequence(report, rows, start, end);
    CheckRows(report, rows, orderValid);
    findings := report.findings;
    assert findings == SourceFindings(rows, start, end, orderValid, expected);
    var failed, warned := Has(findings, {Fail}), Has(findings, {Warn});
    state := if failed then Failed else if warned then WarnBlocked else Passed;
  }

  /** Every row check that a minute must meet. */
  ghost predicate SoundMinute(row: Row) {
    && UsableMinute(row)
    && (row.baseVolume != 0 || row.quoteVolume != 0) && row.sourceIgnore == "0"
  }

  /** The row checks whose violation fails a minute, as one chain of comparisons. */
  ghost predicate UsableMinute(row: Row) {
    && 0 < row.low <= row.open <= row.high && row.low <= row.close <= row.high
    && 0 <= row.takerBase <= row.baseVolume && 0 <= row.takerQuote <= row.quoteVolume && row.tradeCount >= 0
    && row.closeTime == row.openTime + 59_999
  }

  ghost predicate SoundPeriod(rows: seq<Row>, start: int, end: int, orderValid: bool, expected: Option<int>) {
    && rows != [] && orderValid
    && (expected.Some? ==> |rows| == expected.value && rows[0].openTime == start && rows[|rows| - 1].openTime == end - MINUTE)
    && Adjacent(rows, MINUTE)
    && (forall i :: 0 <= i < |rows| ==> start <= rows[i].openTime < end)
    && (forall i :: 0 <= i < |rows| ==> SoundMinute(rows[i]))
  }

  ghost predicate NoFault(row: Row) {
    && MinuteFaults(row, Ohlc) == 0 && MinuteFaults(row, Prices) == 0 && MinuteFaults(row, Volumes) == 0
    && MinuteFaults(row, CloseTime) == 0 && MinuteFaults(row, Taker) == 0
    && MinuteFaults(row, ZeroVolume) == 0 && MinuteFaults(row, Ignore) == 0
  }

  lemma TalliesMeanSound(rows: seq<Row>)
    ensures Clean(RowFindings(rows)) && MinuteTally(rows, ZeroVolume) == 0 && MinuteTally(rows, Ignore) == 0
            <==> forall i :: 0 <= i < |rows| ==> SoundMinute(rows[i])
  {
    hide MinuteTally, SoundMinute;
    NoMinuteFaults(rows, Ohlc);
    NoMinuteFaults(rows, Prices);
    NoMinuteFaults(rows, Volumes);
    NoMinuteFaults(rows, CloseTime);
    NoMinuteFaults(rows, Taker);
    NoMinuteFaults(rows, ZeroVolume);
    NoMinuteFaults(rows, Ignore);
    RowChecksClean(rows);
    hide RowFindings, MinuteFaults;
    forall i | 0 <= i < |rows|
      ensures SoundMinute(rows[i]) <==> NoFault(rows[i])
    {
      SoundMeansNoFault(rows[i]);
    }
  }

  lemma RowChecksClean(rows: seq<Row>)
    ensures Clean(RowFindings(rows)) <==>
      MinuteTally(rows, Ohlc) == 0 && MinuteTally(rows, Prices) == 0 && MinuteTally(rows, Volumes) == 0
      && MinuteTally(rows, CloseTime) == 0 && MinuteTally(rows, Taker) == 0
  {
    hide MinuteTally;
    var f := RowFindings(rows);
    assert f[0].outcome.Pass? <==> MinuteTally(rows, Ohlc) == 0;
    assert f[1].outcome.Pass? <==> MinuteTally(rows, Prices) == 0;
    assert f[2].outcome.Pass? <==> MinuteTally(rows, Volumes) == 0;
    assert f[3].outcome.Pass? <==> MinuteTally(rows, CloseTime) == 0;
    assert f[4].outcome.Pass? <==> MinuteTally(rows, Taker) == 0;
  }

  lemma SoundMeansNoFault(row: Row)
    ensures SoundMinute(row) <==> NoFault(row)
  {
    UsableMeansNoHardFault(row);
    assert MinuteFaults(row, ZeroVolume) == 0 <==> !NoVolume(row);
    assert MinuteFaults(row, Ignore) == 0 <==> row.sourceIgnore == "0";
  }

  lemma UsableMeansNoHardFault(row: Row)
    ensures UsableMinute(row) <==>
      MinuteFaults(row, Ohlc) == 0 && MinuteFaults(row, Prices) == 0 && MinuteFaults(row, Volumes) == 0
      && MinuteFaults(row, CloseTime) == 0 && MinuteFaults(row, Taker) == 0
  {
    assert MinuteFaults(row, Ohlc) == 0 <==> OhlcHolds(row);
    assert MinuteFaults(row, Prices) == 0 <==> PricesPositive(row);
    assert MinuteFaults(row, Volumes) == 0 <==> VolumesNonNegative(row) && row.tradeCount >= 0;
    assert MinuteFaults(row, CloseTime) == 0 <==> row.closeTime == row.openTime + 59_999;
    assert MinuteFaults(row, Taker) == 0 <==> TakerWithin(row);
  }

  lemma SequenceClean(rows: seq<Row>, start: int, end: int)
    ensures Clean(SequenceFindings(rows, start, end)) <==>
      Adjacent(rows, MINUTE) && forall i :: 0 <= i < |rows| ==> start <= rows[i].openTime < end
  {
    hide Times, OutOfPeriod;
    AllInPeriod(rows, start, end);
    var f := SequenceFindings(rows, start, end);
    assert f[2].outcome.Pass? <==> Adjacent(rows, MINUTE);
    assert f[3].outcome.Pass? <==> OutOfPeriod(rows, start, end) == 0;
    if Adjacent(rows, MINUTE) {
      assert Ascending(rows);
      AscendingTimesUnique(rows);
    }
  }

  lemma WarningsClean(rows: seq<Row>, orderValid: bool)
    ensures Clean(SourceWarnings(rows, orderValid)) <==>
      orderValid && MinuteTally(rows, ZeroVolume) == 0 && MinuteTally(rows, Ignore) == 0
  {
    hide MinuteTally;
    var f := SourceWarnings(rows, orderValid);
    assert f[0].outcome.Pass? <==> orderValid;
    assert f[1].outcome.Pass? <==> MinuteTally(rows, ZeroVolume) == 0;
    assert f[2].outcome.Pass? <==> MinuteTally(rows, Ignore) == 0;
  }

  lemma BoundariesClean(rows: seq<Row>, start: int, end: int, expected: Option<int>)
    ensures Clean(CountFindings(rows, expected)) && Clean(BoundaryFindings(rows, start, end, expected)) <==>
      rows != [] && (expected.Some? ==> |rows| == expected.value && rows[0].openTime == start
                                        && rows[|rows| - 1].openTime == end - MINUTE)
  {
    var f, g := CountFindings(rows, expected), BoundaryFindings(rows, start, end, expected);
    assert f[0].outcome.Pass? <==> expected.None? || |rows| == expected.value;
    assert g[0].outcome.Pass? && g[1].outcome.Pass? <==> Clean(g);
  }

  lemma NeverSkipped(rows: seq<Row>, start: int, end: int, orderValid: bool, expected: Option<int>)
    ensures Evaluated(SourceFindings(rows, start, end, orderValid, expected))
  {
    hide Times, Ascending, Adjacent, OutOfPeriod, MinuteTally;
    assert Evaluated(CountFindings(rows, expected)) && Evaluated(BoundaryFindings(rows, start, end, expected));
    assert Evaluated(SequenceFindings(rows, start, end)) && Evaluated(RowFindings(rows));
    assert Evaluated(SourceWarnings(rows, orderValid));
    hide CountFindings, BoundaryFindings, SequenceFindings, RowFindings, SourceWarnings;
  }

  /** PASS is exactly a sound period: both directions, with and without a row count to enforce. */
  lemma SourcePassIsSound(rows: seq<Row>, start: int, end: int, orderValid: bool, expected: Option<int>)
    ensures StateOf(SourceFindings(rows, start, end, orderValid, expected), SOURCE_BLOCKING).Passed?
            <==> SoundPeriod(rows, start, end, orderValid, expected)
  {
    hide Has, Clean, Adjacent, SoundMinute, MinuteTally, CountFindings, BoundaryFindings, SequenceFindings, RowFindings, SourceWarnings;
    var a, b := CountFindings(rows, expected), BoundaryFindings(rows, start, end, expected);
    var c, d, e := SequenceFindings(rows, start, end), RowFindings(rows), SourceWarnings(rows, orderValid);
    NeverSkipped(rows, start, end, orderValid, expected);
    assert SourceFindings(rows, start, end, orderValid, expected) == a + b + c + d + e;
    PassedMeansClean(a + b + c + d + e, SOURCE_BLOCKING);
    CleanConcat(a + b + c + d, e);
    CleanConcat(a + b + c, d);
    CleanConcat(a + b, c);
    CleanConcat(a, b);
    BoundariesClean(rows, start, end, expected);
    SequenceClean(rows, start, end);
    WarningsClean(rows, orderValid);
    TalliesMeanSound(rows);
  }

  // ---------- what each state means ----------

  /** The checks that fail a period, in terms of its rows alone. */
  ghost predicate UsablePeriod(rows: seq<Row>, start: int, end: int, expected: Option<int>) {
    && rows != []
    && (expected.Some? ==> |rows| == expected.value && rows[0].openTime == start && rows[|rows| - 1].openTime == end - MINUTE)
    && (forall i :: 0 <= i < |rows| - 1 ==> rows[i + 1].openTime == rows[i].openTime + 60_000)
    && (forall i :: 0 <= i < |rows| ==> start <= rows[i].openTime < end)
    && (forall i :: 0 <= i < |rows| ==> UsableMinute(rows[i]))
  }

  lemma HardRows(rows: seq<Row>)
    ensures Free(RowFindings(rows), {Fail}) <==> forall i :: 0 <= i < |rows| ==> UsableMinute(rows[i])
  {
    hide MinuteTally, UsableMinute;
    NoMinuteFaults(rows, Ohlc);
    NoMinuteFaults(rows, Prices);
    NoMinuteFaults(rows, Volumes);
    NoMinuteFaults(rows, CloseTime);
    NoMinuteFaults(rows, Taker);
    RowChecksClean(rows);
    RecordedOnly(RowFindings(rows));
    hide RowFindings, MinuteFaults;
    forall i | 0 <= i < |rows|
      ensures UsableMinute(rows[i]) <==>
        MinuteFaults(rows[i], Ohlc) == 0 && MinuteFaults(rows[i], Prices) == 0 && MinuteFaults(rows[i], Volumes) == 0
        && MinuteFaults(rows[i], CloseTime) == 0 && MinuteFaults(rows[i], Taker) == 0
    {
      UsableMeansNoHardFault(rows[i]);
    }
  }

  /** Findings that can only pass or fail are clean exactly when none fails, and none of them warns. */
  lemma RecordedOnly(findings: seq<Finding>)
    requires forall i :: 0 <= i < |findings| ==> findings[i].outcome.Pass? || findings[i].outcome.Fail?
    ensures Free(findings, {Fail}) <==> Clean(findings)
    ensures Free(findings, {Warn}) && Free(findings, {Warn, NotEvaluated})
  {
  }

  lemma SequenceNeverWarns(rows: seq<Row>, start: int, end: int)
    ensures Free(SequenceFindings(rows, start, end), {Fail}) <==> Clean(SequenceFindings(rows, start, end))
    ensures Free(SequenceFindings(rows, start, end), {Warn})
  {
    hide Times, OutOfPeriod, Adjacent, Ascending, Clean, Free;
    RecordedOnly(SequenceFindings(rows, start, end));
  }

  lemma BoundariesNeverWarn(rows: seq<Row>, start: int, end: int, expected: Option<int>)
    ensures var f := CountFindings(rows, expected) + BoundaryFindings(rows, start, end, expected);
      (Free(f, {Fail}) <==> Clean(f)) && Free(f, {Warn})
  {
    hide Clean, Free;
    RecordedOnly(CountFindings(rows, expected) + BoundaryFindings(rows, start, end, expected));
  }

  lemma WarningsNeverFail(rows: seq<Row>, orderValid: bool)
    ensures Free(SourceWarnings(rows, orderValid), {Fail})
    ensures Free(SourceWarnings(rows, orderValid), {Warn}) <==>
      orderValid && forall i :: 0 <= i < |rows| ==> (rows[i].baseVolume != 0 || rows[i].quoteVolume != 0) && rows[i].sourceIgnore == "0"
  {
    hide MinuteTally;
    NoMinuteFaults(rows, ZeroVolume);
    NoMinuteFaults(rows, Ignore);
    WarningsClean(rows, orderValid);
    var f := SourceWarnings(rows, orderValid);
    assert Free(f, {Warn}) <==> Clean(f);
    hide SourceWarnings;
    forall i | 0 <= i < |rows|
      ensures MinuteFaults(rows[i], ZeroVolume) == 0 <==> rows[i].baseVolume != 0 || rows[i].quoteVolume != 0
      ensures MinuteFaults(rows[i], Ignore) == 0 <==> rows[i].sourceIgnore == "0"
    {
    }
  }

  /** FAIL exactly for an unusable period; WARN_BLOCKED exactly for a usable one that only a warning stops. */
  lemma SourceVerdict(rows: seq<Row>, start: int, end: int, orderValid: bool, expected: Option<int>)
    ensures StateOf(SourceFindings(rows, start, end, orderValid, expected), SOURCE_BLOCKING) ==
      if !UsablePeriod(rows, start, end, expected) then Failed
      else if orderValid
              && forall i :: 0 <= i < |rows| ==> (rows[i].baseVolume != 0 || rows[i].quoteVolume != 0) && rows[i].sourceIgnore == "0"
        then Passed
      else WarnBlocked
  {
    hide Has, Clean, Free, StateOf, Adjacent, UsableMinute, MinuteTally, CountFindings, BoundaryFindings, SequenceFindings,
      RowFindings, SourceWarnings;
    var a, b := CountFindings(rows, expected), BoundaryFindings(rows, start, end, expected);
    var c, d, e := SequenceFindings(rows, start, end), RowFindings(rows), SourceWarnings(rows, orderValid);
    assert SourceFindings(rows, start, end, orderValid, expected) == a + b + c + d + e;
    StateByFreedom(a + b + c + d + e, SOURCE_BLOCKING);
    FreeInParts(a + b, c, d, e, {Fail});
    FreeInParts(a + b, c, d, e, {Warn});
    CleanConcat(a, b);
    BoundariesNeverWarn(rows, start, end, expected);
    BoundariesClean(rows, start, end, expected);
    SequenceNeverWarns(rows, start, end);
    SequenceClean(rows, start, end);
    AdjacentMeans(rows);
    RowsNeverWarn(rows);
    HardRows(rows);
    WarningsNeverFail(rows, orderValid);
  }

  lemma FreeInParts(a: seq<Finding>, b: seq<Finding>, c: seq<Finding>, d: seq<Finding>, outcomes: set<Outcome>)
    ensures Free(a + b + c + d, outcomes) <==> Free(a, outcomes) && Free(b, outcomes) && Free(c, outcomes) && Free(d, outcomes)
  {
    hide Free;
    FreeConcat(a + b + c, d, outcomes);
    FreeConcat(a + b, c, outcomes);
    FreeConcat(a, b, outcomes);
  }

  lemma AdjacentMeans(rows: seq<Row>)
    ensures Adjacent(rows, MINUTE) <==> forall i :: 0 <= i < |rows| - 1 ==> rows[i + 1].openTime == rows[i].openTime + 60_000
  {
  }

  lemma RowsNeverWarn(rows: seq<Row>)
    ensures Free(RowFindings(rows), {Warn})
  {
    hide MinuteTally;
  }

  // ---------- what the counts mean ----------

  lemma {:induction false} TallyCounts(rows: seq<Row>, c: Check, p: Row -> bool)
    requires forall row :: MinuteFaults(row, c) == Flag(p(row))
    ensures MinuteTally(rows, c) == |set i | 0 <= i < |rows| && p(rows[i])|
  {
    hide MinuteFaults;
    if rows != [] {
      var n := |rows| - 1;
      TallyCounts(rows[..n], c, p);
      OneMoreCounted(rows, n, p);
    }
  }

  lemma OneMoreCounted(rows: seq<Row>, n: nat, p: Row -> bool)
    requires |rows| == n + 1
    ensures |set i | 0 <= i < |rows| && p(rows[i])| == |set i | 0 <= i < |rows[..n]| && p(rows[..n][i])| + Flag(p(rows[n]))
  {
    var here := set i | 0 <= i < |rows| && p(rows[i]);
    var before := set i | 0 <= i < |rows[..n]| && p(rows[..n][i]);
    assert before == set i | 0 <= i < n && p(rows[i]);
    assert n !in before;
    assert here == if p(rows[n]) then before + {n} else before;
  }

  /** The reported count is a number of rows. */
  lemma OhlcCount(rows: seq<Row>)
    ensures MinuteTally(rows, Ohlc) == |set i | 0 <= i < |rows| && !(rows[i].low <= rows[i].open <= rows[i].high && rows[i].low <= rows[i].close <= rows[i].high)|
  {
    hide MinuteTally;
    var p := (r: Row) => !(r.low <= r.open <= r.high && r.low <= r.close <= r.high);
    TallyCounts(rows, Ohlc, p);
    assert (set i | 0 <= i < |rows| && p(rows[i])) == set i | 0 <= i < |rows| && !(rows[i].low <= rows[i].open <= rows[i].high && rows[i].low <= rows[i].close <= rows[i].high);
  }

  /** The reported count is a number of rows. */
  lemma CloseTimeCount(rows: seq<Row>)
    ensures MinuteTally(rows, CloseTime) == |set i | 0 <= i < |rows| && rows[i].closeTime - rows[i].openTime != 59_999|
  {
    hide MinuteTally;
    var p := (r: Row) => r.closeTime - r.openTime != 59_999;
    TallyCounts(rows, CloseTime, p);
    assert (set i | 0 <= i < |rows| && p(rows[i])) == set i | 0 <= i < |rows| && rows[i].closeTime - rows[i].openTime != 59_999;
  }

  /** The reported count is a number of rows. */
  lemma TakerCount(rows: seq<Row>)
    ensures MinuteTally(rows, Taker) == |set i | 0 <= i < |rows| && (rows[i].takerBase > rows[i].baseVolume || rows[i].takerQuote > rows[i].quoteVolume)|
  {
    hide MinuteTally;
    var p := (r: Row) => (r.takerBase > r.baseVolume || r.takerQuote > r.quoteVolume);
    TallyCounts(rows, Taker, p);
    assert (set i | 0 <= i < |rows| && p(rows[i])) == set i | 0 <= i < |rows| && (rows[i].takerBase > rows[i].baseVolume || rows[i].takerQuote > rows[i].quoteVolume);
  }

  /** The reported count is a number of rows. */
  lemma ZeroVolumeCount(rows: seq<Row>)
    ensures MinuteTally(rows, ZeroVolume) == |set i | 0 <= i < |rows| && rows[i].baseVolume == 0 && rows[i].quoteVolume == 0|
  {
    hide MinuteTally;
    var p := (r: Row) => r.baseVolume == 0 && r.quoteVolume == 0;
    TallyCounts(rows, ZeroVolume, p);
    assert (set i | 0 <= i < |rows| && p(rows[i])) == set i | 0 <= i < |rows| && rows[i].baseVolume == 0 && rows[i].quoteVolume == 0;
  }

  /** The reported count is a number of rows. */
  lemma IgnoreCount(rows: seq<Row>)
    ensures MinuteTally(rows, Ignore) == |set i | 0 <= i < |rows| && rows[i].sourceIgnore != "0"|
  {
    hide MinuteTally;
    var p := (r: Row) => r.sourceIgnore != "0";
    TallyCounts(rows, Ignore, p);
    assert (set i | 0 <= i < |rows| && p(rows[i])) == set i | 0 <= i < |rows| && rows[i].sourceIgnore != "0";
  }
}
