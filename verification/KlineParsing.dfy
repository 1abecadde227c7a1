/** The kline parser: the shared bookkeeping over the kline record grammar. */
module KlineParsing {
  import opened Wrappers
  import opened KlineRecords
  import D = Deduplication

  function RowOrFault(a: Archive, raw: string): Result<SourceRow, RecordFault> {
    var key := KeyOf(a, raw);
    if key.Err? then Err(key.error) else RowOf(a, raw)
  }

  function KlineGrammar(a: Archive): D.Grammar<SourceRow, RecordFault> {
    D.Grammar(raw => KeyOf(a, raw), raw => RowOrFault(a, raw), (row: SourceRow) => row.eventTime)
  }

  lemma KlineTimed(a: Archive)
    ensures KlineGrammar(a).Timed()
  {
    hide KeyOf, RowOf;
    var g := KlineGrammar(a);
    forall raw | g.key(raw).Ok? && g.row(raw).Ok?
      ensures g.time(g.row(raw).value) == g.key(raw).value
    {
      RowKey(a, raw);
    }
  }

  lemma RowKey(a: Archive, raw: string)
    requires KeyOf(a, raw).Ok? && RowOrFault(a, raw).Ok?
    ensures RowOrFault(a, raw).value.eventTime == KeyOf(a, raw).value
  {
    hide KeyOf, RowOf;
  }

  ghost predicate IncreasingRows(rows: seq<SourceRow>) {
    forall i, j :: 0 <= i < j < |rows| ==> rows[i].eventTime < rows[j].eventTime
  }

  /** Some record has the row in its columns. */
  ghost predicate HasRecord(a: Archive, records: seq<string>, row: SourceRow) {
    exists k :: 0 <= k < |records| && FromColumns(a, records[k], row)
  }

  /** Every row of the result comes from an acceptable record and is sound. */
  lemma RowsAreSound(a: Archive, records: seq<string>, rows: seq<SourceRow>)
    requires D.Acceptable(KlineGrammar(a), records) && D.RowsOf(rows, KlineGrammar(a), records)
    ensures IncreasingRows(rows) && forall i :: 0 <= i < |rows| ==> SoundRow(a, rows[i]) && HasRecord(a, records, rows[i])
  {
    hide KeyOf, RowOf, SoundRow, FromColumns, D.NoConflict;
    var g := KlineGrammar(a);
    forall i | 0 <= i < |rows|
      ensures SoundRow(a, rows[i]) && HasRecord(a, records, rows[i]) && g.time(rows[i]) == rows[i].eventTime
    {
      assert D.FromRecord(rows[i], g, records);
      var k :| 0 <= k < |records| && D.Row(g, records[k]) == rows[i];
      ValidRecordIsSound(a, records[k]);
      RowTakesItsColumns(a, records[k]);
      assert FromColumns(a, records[k], rows[i]);
    }
  }

  /**
   One pass over the raw records of an archive.  It succeeds exactly when every record is valid alone
   and equal interval starts carry identical bytes.
   */
  method ParseKlineRows(a: Archive, records: seq<string>, sha: string -> string)
    returns (r: Result<D.ParseResult<SourceRow>, D.ParseFault<RecordFault>>)
    ensures r.Ok? <==> D.Acceptable(KlineGrammar(a), records)
    ensures r.Ok? ==>
      && D.RowsOf(r.value.rows, KlineGrammar(a), records) && IncreasingRows(r.value.rows)
      && (forall i :: 0 <= i < |r.value.rows| ==> SoundRow(a, r.value.rows[i]) && HasRecord(a, records, r.value.rows[i]))
      && r.value.sourceRows == |records| && r.value.distinctRows == |r.value.rows|
      && r.value.sourceRows == r.value.distinctRows + r.value.duplicateRows
      && r.value.duplicateHashes == D.Hashed(sha, D.Repeats(records))
      && (r.value.sourceOrdered <==> D.Ordered(KlineGrammar(a), records))
    ensures r.Err? ==> D.FirstRefusal(r.error, KlineGrammar(a), records)
  {
    hide D.FirstRefusal, D.Repeats, D.Hashed, D.Acceptable, D.RowsOf, D.Ordered, SoundRow, HasRecord, KlineGrammar;
    KlineTimed(a);
    r := D.ParseRecords(KlineGrammar(a), records, sha);
    if r.Ok? {
      RowsAreSound(a, records, r.value.rows);
    }
  }
}
