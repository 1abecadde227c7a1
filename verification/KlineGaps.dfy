/**
 Canonical kline rows, the manifest of missing grid slots built from them, its validation, and the
 independent recomputation the quality gate does.
 */
module KlineGaps {
  import opened Wrappers
  import opened Arith
  import opened Digits
  import opened FiniteSets
  import opened KlineRecords
  import opened KlineParsing
  import D = Deduplication
  import Jcs
  import opened JcsReader

  datatype CanonicalRow = CanonicalRow(
    eventTime: int, intervalOpen: int, intervalClose: int, eligibility: int,
    open: int, high: int, low: int, close: int,
    volume: int, quoteVolume: Option<int>, tradeCount: Option<int>, takerVolume: Option<int>, takerQuoteVolume: Option<int>,
    sourceCount: int, sourceIgnore: Option<string>)

  datatype CanonicalError = InconsistentCounts | OutsideArchive | InvalidRow | NotIncreasing

  // ---------- canonical rows ----------

  function CanonicalOf(a: Archive, s: SourceRow): CanonicalRow {
    CanonicalRow(s.eventTime, s.eventTime, s.closeTime, s.closeTime + 1, s.open, s.high, s.low, s.close,
                 s.volume, s.quoteVolume, if a.IsDerived() then None else Some(s.count), s.takerVolume, s.takerQuoteVolume,
                 s.count, s.sourceIgnore)
  }

  predicate UnsignedOrAbsent(v: Option<int>) {
    v.Some? ==> v.value >= 0
  }

  /** The arithmetic and family rules every canonical row must meet. */
  predicate ValidCanonical(a: Archive, row: CanonicalRow) {
    var step := KlineBounds(a).step;
    && step > 0
    && row.eventTime % step == 0 && row.intervalOpen == row.eventTime && row.intervalClose == row.eventTime + step - 1
    && row.eligibility == row.intervalClose + 1
    && KRAKEN_START <= row.eventTime < KRAKEN_END
    && (!a.IsDerived() ==> row.open >= 0 && row.high >= 0 && row.low >= 0 && row.close >= 0)
    && OhlcHolds(row.open, row.high, row.low, row.close)
    && row.volume >= 0 && UnsignedOrAbsent(row.quoteVolume) && UnsignedOrAbsent(row.takerVolume) && UnsignedOrAbsent(row.takerQuoteVolume)
    && (if a.Kraken? then row.quoteVolume.None? && row.takerVolume.None? && row.takerQuoteVolume.None? && row.sourceIgnore.None?
        else row.quoteVolume.Some? && row.takerVolume.Some? && row.takerQuoteVolume.Some? && row.sourceIgnore.Some?)
    && (if a.IsDerived() then StructuralZeros(row.volume, (row.quoteVolume, row.takerVolume, row.takerQuoteVolume)) && row.tradeCount.None?
        else row.tradeCount == Some(row.sourceCount))
  }

  ghost predicate ConsistentCounts(p: D.ParseResult<SourceRow>) {
    p.distinctRows == |p.rows| && p.sourceRows == p.distinctRows + p.duplicateRows
  }

  ghost predicate BuildableRow(a: Archive, s: SourceRow) {
    KlineBounds(a).start <= s.eventTime < KlineBounds(a).end && ValidCanonical(a, CanonicalOf(a, s))
  }

  ghost predicate Buildable(a: Archive, p: D.ParseResult<SourceRow>) {
    ConsistentCounts(p) && IncreasingRows(p.rows) && forall i :: 0 <= i < |p.rows| ==> BuildableRow(a, p.rows[i])
  }

  ghost predicate CanonicalRows(rows: seq<CanonicalRow>, a: Archive, sources: seq<SourceRow>) {
    |rows| == |sources| && forall i :: 0 <= i < |rows| ==> rows[i] == CanonicalOf(a, sources[i])
  }

  /** The source row a canonical row was built from. */
  function SourceOf(row: CanonicalRow): SourceRow {
    SourceRow(row.eventTime, row.intervalClose, row.open, row.high, row.low, row.close,
              row.volume, row.quoteVolume, row.sourceCount, row.takerVolume, row.takerQuoteVolume, row.sourceIgnore)
  }

  /** Building a canonical row loses and exchanges nothing, and adds three derived members. */
  lemma CanonicalKeepsSource(a: Archive, s: SourceRow)
    ensures SourceOf(CanonicalOf(a, s)) == s
    ensures CanonicalOf(a, s).intervalOpen == s.eventTime && CanonicalOf(a, s).eligibility == s.closeTime + 1
    ensures CanonicalOf(a, s).tradeCount == if a.Monthly? && a.derived then None else Some(s.count)
  {
  }

  /** What can be built are exactly the rows the record parser considers sound, but for the size of the count. */
  lemma BuildableIsSound(a: Archive, s: SourceRow)
    requires a.Kept()
    ensures BuildableRow(a, s) && 0 <= s.count < INT64_LIMIT <==> SoundRow(a, s)
  {
    BoundsAligned(a);
  }

  /** Checks counts and period, then every row, then strict order. */
  method BuildKlineRows(a: Archive, p: D.ParseResult<SourceRow>) returns (r: Result<seq<CanonicalRow>, CanonicalError>)
    ensures r.Ok? <==> Buildable(a, p)
    ensures r.Ok? ==> CanonicalRows(r.value, a, p.rows)
    ensures r.Ok? ==> |r.value| == |p.rows| && forall i :: 0 <= i < |p.rows| ==>
      && SourceOf(r.value[i]) == p.rows[i]
      && r.value[i].intervalOpen == p.rows[i].eventTime && r.value[i].eligibility == p.rows[i].closeTime + 1
      && r.value[i].tradeCount == if a.Monthly? && a.derived then None else Some(p.rows[i].count)
  {
    hide ValidCanonical;
    if p.distinctRows != |p.rows| || p.sourceRows != p.distinctRows + p.duplicateRows {
      return Err(InconsistentCounts);
    }
    var b := KlineBounds(a);
    var rows: seq<CanonicalRow> := [];
    for i := 0 to |p.rows|
      invariant |rows| == i && forall k :: 0 <= k < i ==> rows[k] == CanonicalOf(a, p.rows[k])
      invariant forall k :: 0 <= k < i ==> b.start <= p.rows[k].eventTime < b.end
    {
      if !(b.start <= p.rows[i].eventTime < b.end) {
        assert !BuildableRow(a, p.rows[i]);
        return Err(OutsideArchive);
      }
      rows := rows + [CanonicalOf(a, p.rows[i])];
    }
    for i := 0 to |rows|
      invariant forall k :: 0 <= k < i ==> BuildableRow(a, p.rows[k])
      invariant forall k, l :: 0 <= k < l < i ==> p.rows[k].eventTime < p.rows[l].eventTime
    {
      if !ValidCanonical(a, rows[i]) {
        assert !BuildableRow(a, p.rows[i]);
        return Err(InvalidRow);
      }
      if i > 0 && rows[i].eventTime <= rows[i - 1].eventTime {
        assert !(p.rows[i - 1].eventTime < p.rows[i].eventTime);
        return Err(NotIncreasing);
      }
    }
    r := Ok(rows);
  }

  lemma SoundIsBuildable(a: Archive, s: SourceRow)
    requires a.Kept() && SoundRow(a, s)
    ensures BuildableRow(a, s)
  {
    BoundsAligned(a);
  }

  /** Whatever the parser accepts can be built: no accepted source is refused later. */
  lemma ParsedRowsBuild(a: Archive, records: seq<string>, p: D.ParseResult<SourceRow>)
    requires a.Kept() && D.Acceptable(KlineGrammar(a), records) && D.RowsOf(p.rows, KlineGrammar(a), records) && ConsistentCounts(p)
    ensures Buildable(a, p)
  {
    hide D.Acceptable, D.RowsOf, KlineGrammar, ValidCanonical, SoundRow;
    RowsAreSound(a, records, p.rows);
    forall i | 0 <= i < |p.rows|
      ensures BuildableRow(a, p.rows[i])
    {
      SoundIsBuildable(a, p.rows[i]);
    }
  }

  // ---------- the grid ----------

  ghost predicate Aligned(b: Bounds) {
    b.step > 0 && b.start % b.step == 0 && b.end % b.step == 0 && b.start < b.end
  }

  predicate OnGrid(b: Bounds, t: int)
    requires b.step > 0
  {
    b.start <= t < b.end && t % b.step == 0
  }

  datatype Gap = Gap(open: int, close: int)

  /** The slots from t on that are not present, in order. */
  function GapsFrom(b: Bounds, present: set<int>, t: int): (g: seq<Gap>)
    requires b.step > 0
    decreases b.end - t
  {
    if t >= b.end then []
    else (if t in present then [] else [Gap(t, t + b.step - 1)]) + GapsFrom(b, present, t + b.step)
  }

  /** The slots from t on. */
  ghost function SlotsFrom(b: Bounds, t: int): (s: set<int>)
    requires b.step > 0
    decreases b.end - t
  {
    if t >= b.end then {} else SlotsFrom(b, t + b.step) + {t}
  }

  lemma NextAligned(t: int, step: int)
    requires step > 0 && t % step == 0
    ensures (t + step) % step == 0
  {
    ModAddMultiple(t, 1, step);
  }

  lemma Between(x: int, t: int, step: int)
    requires step > 0 && t % step == 0 && x % step == 0 && t <= x < t + step
    ensures x == t
  {
    var q, p := t / step, x / step;
    assert t == q * step && x == p * step;
    MulDistributes(p, q, step);
    SmallMultipleIsZero(p - q, step);
  }

  /** The slots are exactly the aligned instants. */
  lemma {:induction false} SlotsAre(b: Bounds, t: int)
    requires b.step > 0 && t % b.step == 0
    ensures forall x :: x in SlotsFrom(b, t) <==> t <= x < b.end && IsMultiple(x, b.step)
    decreases b.end - t
  {
    if t < b.end {
      NextAligned(t, b.step);
      SlotsAre(b, t + b.step);
      forall x | t <= x < t + b.step && IsMultiple(x, b.step)
        ensures x == t
      {
        Between(x, t, b.step);
      }
    }
  }

  predicate IsMultiple(x: int, step: int)
    requires step > 0
  {
    x % step == 0
  }

  lemma SlotOnce(b: Bounds, t: int)
    requires b.step > 0 && t % b.step == 0
    ensures t !in SlotsFrom(b, t + b.step)
  {
    hide SlotsFrom, IsMultiple;
    NextAligned(t, b.step);
    SlotsAre(b, t + b.step);
  }

  lemma {:induction false} SlotCount(b: Bounds, t: int)
    requires b.step > 0 && t % b.step == 0 && b.end % b.step == 0 && t <= b.end
    ensures |SlotsFrom(b, t)| == (b.end - t) / b.step
    decreases b.end - t
  {
    if t < b.end {
      NextAligned(t, b.step);
      StepFits(b, t);
      SlotCount(b, t + b.step);
      SlotOnce(b, t);
      OneMore(b.end - t, b.step);
      assert b.end - (t + b.step) == b.end - t - b.step;
    } else {
      ExactQuotient(b.end - t, b.step, 0);
    }
  }

  lemma StepFits(b: Bounds, t: int)
    requires b.step > 0 && t % b.step == 0 && b.end % b.step == 0 && t < b.end
    ensures t + b.step <= b.end
  {
    if b.end < t + b.step {
      Between(b.end, t, b.step);
    }
  }

  lemma OneMore(n: int, step: int)
    requires step > 0
    ensures n / step == (n - step) / step + 1
  {
    var q, r := n / step, n % step;
    assert n == q * step + r;
    assert (q - 1) * step == q * step - step;
    DivModUnique(n - step, q - 1, r, step);
  }

  lemma {:induction false} GapsSize(b: Bounds, present: set<int>, t: int)
    requires b.step > 0 && t % b.step == 0
    ensures |GapsFrom(b, present, t)| == |SlotsFrom(b, t) - present|
    decreases b.end - t
  {
    if t < b.end {
      NextAligned(t, b.step);
      GapsSize(b, present, t + b.step);
      SlotOnce(b, t);
      var slots := SlotsFrom(b, t + b.step);
      if t in present {
        assert SlotsFrom(b, t) - present == slots - present;
      } else {
        assert SlotsFrom(b, t) - present == (slots - present) + {t};
      }
    }
  }

  ghost predicate GapIn(g: Gap, b: Bounds, present: set<int>, t: int)
    requires b.step > 0
  {
    t <= g.open && g.open in SlotsFrom(b, t) && g.open !in present && g.close == g.open + b.step - 1
  }

  lemma LaterGapIn(g: Gap, b: Bounds, present: set<int>, t: int)
    requires b.step > 0 && t < b.end && GapIn(g, b, present, t + b.step)
    ensures GapIn(g, b, present, t)
  {
  }

  lemma {:induction false} GapsIn(b: Bounds, present: set<int>, t: int)
    requires b.step > 0
    ensures forall i :: 0 <= i < |GapsFrom(b, present, t)| ==> GapIn(GapsFrom(b, present, t)[i], b, present, t)
    ensures forall i, j :: 0 <= i < j < |GapsFrom(b, present, t)| ==> GapsFrom(b, present, t)[i].open < GapsFrom(b, present, t)[j].open
    decreases b.end - t
  {
    hide SlotsFrom;
    if t < b.end {
      GapsIn(b, present, t + b.step);
      var tail := GapsFrom(b, present, t + b.step);
      forall i | 0 <= i < |tail|
        ensures GapIn(tail[i], b, present, t) && t < tail[i].open
      {
        LaterGapIn(tail[i], b, present, t);
      }
      FirstSlot(b, t);
    }
  }

  lemma FirstSlot(b: Bounds, t: int)
    requires b.step > 0 && t < b.end
    ensures t in SlotsFrom(b, t)
  {
  }

  ghost predicate HasGap(g: seq<Gap>, x: int) {
    exists i :: 0 <= i < |g| && g[i].open == x
  }

  lemma {:induction false} GapsComplete(b: Bounds, present: set<int>, t: int, x: int)
    requires b.step > 0 && x in SlotsFrom(b, t) && x !in present
    ensures HasGap(GapsFrom(b, present, t), x)
    decreases b.end - t
  {
    var g := GapsFrom(b, present, t);
    if x == t {
      assert g[0].open == x;
    } else {
      GapsComplete(b, present, t + b.step, x);
      var tail := GapsFrom(b, present, t + b.step);
      var i :| 0 <= i < |tail| && tail[i].open == x;
      var shift := |g| - |tail|;
      assert g[i + shift] == tail[i];
    }
  }

  // ---------- the manifest ----------

  datatype Source = Source(seriesId: string, period: string, member: string, sha256: string)

  datatype GapManifest = GapManifest(
    source: Source, start: int, end: int, step: int, expectedSlots: int, presentSlots: int, gapCount: int, gaps: seq<Gap>)

  ghost function Times(rows: seq<CanonicalRow>): (s: set<int>)
    ensures forall t :: t in s <==> HasTime(rows, t)
  {
    if rows == [] then {} else Times(rows[..|rows| - 1]) + {rows[|rows| - 1].eventTime}
  }

  ghost predicate HasTime(rows: seq<CanonicalRow>, t: int) {
    exists i :: 0 <= i < |rows| && rows[i].eventTime == t
  }

  /** The manifest of a set of present times on a grid. */
  ghost function ManifestOf(source: Source, b: Bounds, present: set<int>): GapManifest
    requires b.step > 0
  {
    var gaps := GapsFrom(b, present, b.start);
    GapManifest(source, b.start, b.end, b.step, (b.end - b.start) / b.step, |present|, |gaps|, gaps)
  }

  method EnumerateGaps(b: Bounds, present: set<int>) returns (gaps: seq<Gap>)
    requires b.step > 0
    ensures gaps == GapsFrom(b, present, b.start)
  {
    gaps := [];
    var t := b.start;
    while t < b.end
      invariant gaps + GapsFrom(b, present, t) == GapsFrom(b, present, b.start)
      decreases b.end - t
    {
      if t !in present {
        gaps := gaps + [Gap(t, t + b.step - 1)];
      }
      t := t + b.step;
    }
  }

  ghost predicate IncreasingTimes(rows: seq<CanonicalRow>) {
    forall i, j :: 0 <= i < j < |rows| ==> rows[i].eventTime < rows[j].eventTime
  }

  lemma {:induction false} TimesCount(rows: seq<CanonicalRow>)
    requires IncreasingTimes(rows)
    ensures |Times(rows)| == |rows|
  {
    if rows != [] {
      var n := |rows| - 1;
      TimesCount(rows[..n]);
      assert !HasTime(rows[..n], rows[n].eventTime);
    }
  }

  lemma TimesNext(rows: seq<CanonicalRow>, i: nat)
    requires i < |rows|
    ensures Times(rows[..i + 1]) == Times(rows[..i]) + {rows[i].eventTime}
  {
    assert rows[..i + 1][..i] == rows[..i];
  }

  method BuildGapManifest(a: Archive, source: Source, p: D.ParseResult<SourceRow>) returns (r: Result<GapManifest, CanonicalError>)
    ensures r.Ok? <==> Buildable(a, p)
    ensures r.Ok? ==> exists rows :: CanonicalRows(rows, a, p.rows) && r.value == ManifestOf(source, KlineBounds(a), Times(rows))
                                      && r.value.presentSlots == |p.rows|
  {
    hide Buildable, CanonicalOf;
    var rows :- BuildKlineRows(a, p);
    var b := KlineBounds(a);
    PositiveStep(a);
    var present: set<int> := {};
    for i := 0 to |rows|
      invariant present == Times(rows[..i])
    {
      TimesNext(rows, i);
      present := present + {rows[i].eventTime};
    }
    assert rows[..|rows|] == rows;
    BuiltIncreasing(a, p, rows);
    TimesCount(rows);
    var gaps := EnumerateGaps(b, present);
    var manifest := GapManifest(source, b.start, b.end, b.step, (b.end - b.start) / b.step, |rows|, |gaps|, gaps);
    assert manifest == ManifestOf(source, b, Times(rows));
    r := Ok(manifest);
  }

  lemma PositiveStep(a: Archive)
    ensures KlineBounds(a).step > 0
  {
  }

  lemma BuiltIncreasing(a: Archive, p: D.ParseResult<SourceRow>, rows: seq<CanonicalRow>)
    requires Buildable(a, p) && CanonicalRows(rows, a, p.rows)
    ensures IncreasingTimes(rows)
    ensures forall i :: 0 <= i < |rows| ==> OnGrid(KlineBounds(a), rows[i].eventTime)
  {
    forall i | 0 <= i < |rows|
      ensures rows[i].eventTime == p.rows[i].eventTime && OnGrid(KlineBounds(a), rows[i].eventTime)
    {
      assert BuildableRow(a, p.rows[i]);
    }
  }

  // ---------- what a manifest says ----------

  lemma TimesOnGrid(b: Bounds, rows: seq<CanonicalRow>)
    requires Aligned(b) && forall i :: 0 <= i < |rows| ==> OnGrid(b, rows[i].eventTime)
    ensures Times(rows) <= SlotsFrom(b, b.start)
  {
    SlotsAre(b, b.start);
    forall t | t in Times(rows)
      ensures t in SlotsFrom(b, b.start)
    {
      assert HasTime(rows, t);
      var i :| 0 <= i < |rows| && rows[i].eventTime == t;
      assert OnGrid(b, rows[i].eventTime) && IsMultiple(t, b.step);
    }
  }

  /** Present times and gaps partition the native grid. */
  lemma GapsPartitionGrid(b: Bounds, rows: seq<CanonicalRow>, source: Source)
    requires Aligned(b) && forall i :: 0 <= i < |rows| ==> OnGrid(b, rows[i].eventTime)
    ensures var m := ManifestOf(source, b, Times(rows));
      && m.presentSlots + m.gapCount == m.expectedSlots
      && forall t :: OnGrid(b, t) ==> (HasTime(rows, t) <==> !HasGap(m.gaps, t))
  {
    hide GapsFrom, SlotsFrom, HasGap, HasTime, Times;
    var present := Times(rows);
    SlotsAre(b, b.start);
    GapsIn(b, present, b.start);
    GapsSize(b, present, b.start);
    SlotCount(b, b.start);
    TimesOnGrid(b, rows);
    SubsetSize(present, SlotsFrom(b, b.start));
    var gaps := GapsFrom(b, present, b.start);
    forall t | OnGrid(b, t)
      ensures HasTime(rows, t) <==> !HasGap(gaps, t)
    {
      assert IsMultiple(t, b.step) && t in SlotsFrom(b, b.start);
      if t !in present {
        GapsComplete(b, present, b.start, t);
      }
      GapNotPresent(gaps, present, t);
    }
  }

  lemma GapNotPresent(gaps: seq<Gap>, present: set<int>, t: int)
    requires forall i :: 0 <= i < |gaps| ==> gaps[i].open !in present
    ensures HasGap(gaps, t) ==> t !in present
  {
  }

  // ---------- validation ----------

  predicate IsHex(c: char) {
    IsDigit(c) || 'a' <= c <= 'f'
  }

  predicate Sha256Text(s: string) {
    |s| == 64 && forall i :: 0 <= i < |s| ==> IsHex(s[i])
  }

  predicate Int64(x: int) {
    0 <= x < INT64_LIMIT
  }

  function GapJson(seriesId: string, g: Gap): Jcs.Json {
    Jcs.Obj([("series_id", Jcs.Str(seriesId)), ("interval_open_ts", Jcs.Int(g.open)), ("interval_close_ts", Jcs.Int(g.close)),
             ("enumeration_basis", Jcs.Str("descriptor_period_native_grid")), ("exclusion_reason", Jcs.Null)])
  }

  function ManifestJson(m: GapManifest, schemaFingerprint: string): Jcs.Json {
    Jcs.Obj([("schema_version", Jcs.Str("quantara.kline-gap-manifest/v1")), ("schema_fingerprint", Jcs.Str(schemaFingerprint)),
             ("series_id", Jcs.Str(m.source.seriesId)), ("period", Jcs.Str(m.source.period)),
             ("source_file", Jcs.Str(m.source.member)), ("source_sha256", Jcs.Str(m.source.sha256)),
             ("period_start_ts", Jcs.Int(m.start)), ("period_end_ts", Jcs.Int(m.end)), ("native_step_ms", Jcs.Int(m.step)),
             ("expected_slots", Jcs.Int(m.expectedSlots)), ("present_slots", Jcs.Int(m.presentSlots)),
             ("gap_count", Jcs.Int(m.gapCount)), ("gaps", Jcs.Arr(GapsJson(m.source.seriesId, m.gaps)))])
  }

  function GapsJson(seriesId: string, gaps: seq<Gap>): seq<Jcs.Json> {
    seq(|gaps|, i requires 0 <= i < |gaps| => GapJson(seriesId, gaps[i]))
  }

  /** The header fields a manifest of this archive and source must carry. */
  predicate HeaderHolds(m: GapManifest, a: Archive, member: string) {
    var b := KlineBounds(a);
    && Int64(m.start) && Int64(m.end) && Int64(m.step) && Int64(m.expectedSlots) && Int64(m.presentSlots) && Int64(m.gapCount)
    && m.source.member == member && m.start == b.start && m.end == b.end && m.step == b.step
    && m.expectedSlots == (b.end - b.start) / b.step
    && Sha256Text(m.source.sha256)
    && m.gapCount == |m.gaps| && m.presentSlots + |m.gaps| == m.expectedSlots
  }

  ghost predicate GapsOrdered(b: Bounds, gaps: seq<Gap>)
    requires b.step > 0
  {
    && (forall i :: 0 <= i < |gaps| ==> OnGrid(b, gaps[i].open) && gaps[i].close == gaps[i].open + b.step - 1)
    && (forall i, j :: 0 <= i < j < |gaps| ==> gaps[i].open < gaps[j].open)
  }

  /** The value a key stands for. */
  function Member(v: Jcs.Json, key: string): Option<Jcs.Json>
    requires v.Obj?
  {
    Lookup(v.members, key)
  }

  function Lookup(members: seq<(string, Jcs.Json)>, key: string): Option<Jcs.Json> {
    if members == [] then None else if members[0].0 == key then Some(members[0].1) else Lookup(members[1..], key)
  }

  lemma LookupAt(members: seq<(string, Jcs.Json)>, i: nat)
    requires i < |members| && Jcs.DistinctKeys(members)
    ensures Lookup(members, members[i].0) == Some(members[i].1)
  {
    if i > 0 {
      LookupAt(members[1..], i - 1);
    }
  }

  lemma ManifestKeys(m: GapManifest, schemaFingerprint: string)
    ensures |ManifestJson(m, schemaFingerprint).members| == 13 && Jcs.DistinctKeys(ManifestJson(m, schemaFingerprint).members)
  {
    hide GapsJson;
    var k := ManifestJson(m, schemaFingerprint).members;
    var codes := [14412, 18412, 9418, 6415, 11448, 13448, 15415, 13415, 14401, 14461, 13454, 9394, 4394];
    forall i | 0 <= i < 13
      ensures KeyCode(k[i].0) == codes[i]
    {
    }
    CodesAreDistinct();
    forall i, j | 0 <= i < j < 13
      ensures k[i].0 != k[j].0
    {
      assert codes[i] != codes[j];
    }
  }

  /** Length and first two letters tell the manifest's keys apart. */
  function KeyCode(key: string): int {
    if |key| < 2 then 0 else 1000 * |key| + key[0] as int + 3 * key[1] as int
  }

  lemma CodesAreDistinct()
    ensures var codes := [14412, 18412, 9418, 6415, 11448, 13448, 15415, 13415, 14401, 14461, 13454, 9394, 4394];
      forall i, j :: 0 <= i < j < 13 ==> codes[i] != codes[j]
  {
  }

  /** Every gap is an object with its own five members. */
  lemma GapMembers(seriesId: string, g: Gap)
    ensures var v := GapJson(seriesId, g);
      && |v.members| == 5 && Jcs.DistinctKeys(v.members)
      && Member(v, "series_id") == Some(Jcs.Str(seriesId))
      && Member(v, "interval_open_ts") == Some(Jcs.Int(g.open)) && Member(v, "interval_close_ts") == Some(Jcs.Int(g.close))
      && Member(v, "enumeration_basis") == Some(Jcs.Str("descriptor_period_native_grid"))
      && Member(v, "exclusion_reason") == Some(Jcs.Null)
  {
    var k := GapJson(seriesId, g).members;
    assert k[1].0[9] == 'o' && k[2].0[9] == 'c' && k[3].0[1] == 'n' && k[4].0[1] == 'x' && k[0].0[0] == 's' && k[3].0[2] == 'u';
    LookupAt(k, 0);
    LookupAt(k, 1);
    LookupAt(k, 2);
    LookupAt(k, 3);
    LookupAt(k, 4);
  }

  /** Each field of a manifest is written under its own key, and there are no other keys. */
  lemma ManifestMembers(m: GapManifest, schemaFingerprint: string)
    ensures var v := ManifestJson(m, schemaFingerprint);
      && |v.members| == 13 && Jcs.DistinctKeys(v.members)
      && Member(v, "schema_version") == Some(Jcs.Str("quantara.kline-gap-manifest/v1"))
      && Member(v, "schema_fingerprint") == Some(Jcs.Str(schemaFingerprint))
      && Member(v, "series_id") == Some(Jcs.Str(m.source.seriesId)) && Member(v, "period") == Some(Jcs.Str(m.source.period))
      && Member(v, "source_file") == Some(Jcs.Str(m.source.member)) && Member(v, "source_sha256") == Some(Jcs.Str(m.source.sha256))
      && Member(v, "period_start_ts") == Some(Jcs.Int(m.start)) && Member(v, "period_end_ts") == Some(Jcs.Int(m.end))
      && Member(v, "native_step_ms") == Some(Jcs.Int(m.step)) && Member(v, "expected_slots") == Some(Jcs.Int(m.expectedSlots))
      && Member(v, "present_slots") == Some(Jcs.Int(m.presentSlots)) && Member(v, "gap_count") == Some(Jcs.Int(m.gapCount))
      && Member(v, "gaps") == Some(Jcs.Arr(GapsJson(m.source.seriesId, m.gaps)))
    ensures |GapsJson(m.source.seriesId, m.gaps)| == |m.gaps|
    ensures forall i :: 0 <= i < |m.gaps| ==> GapsJson(m.source.seriesId, m.gaps)[i] == GapJson(m.source.seriesId, m.gaps[i])
  {
    hide Lookup, GapJson, Jcs.DistinctKeys;
    var k := ManifestJson(m, schemaFingerprint).members;
    ManifestKeys(m, schemaFingerprint);
    LookupAt(k, 0);
    LookupAt(k, 1);
    LookupAt(k, 2);
    LookupAt(k, 3);
    LookupAt(k, 4);
    LookupAt(k, 5);
    LookupAt(k, 6);
    LookupAt(k, 7);
    LookupAt(k, 8);
    LookupAt(k, 9);
    LookupAt(k, 10);
    LookupAt(k, 11);
    LookupAt(k, 12);
  }

  lemma ManifestIsValid(m: GapManifest, schemaFingerprint: string)
    ensures Jcs.Valid(ManifestJson(m, schemaFingerprint))
  {
    hide GapsJson, GapJson, Jcs.DistinctKeys;
    ManifestKeys(m, schemaFingerprint);
    GapsAreValid(m);
  }

  lemma GapsAreValid(m: GapManifest)
    ensures Jcs.Valid(Jcs.Arr(GapsJson(m.source.seriesId, m.gaps)))
  {
    hide GapJson;
    forall i | 0 <= i < |m.gaps|
      ensures Jcs.Valid(GapJson(m.source.seriesId, m.gaps[i]))
    {
      GapIsValid(m.source.seriesId, m.gaps[i]);
    }
  }

  lemma GapIsValid(seriesId: string, g: Gap)
    ensures Jcs.Valid(GapJson(seriesId, g))
  {
    hide Lookup, Jcs.DistinctKeys;
    GapMembers(seriesId, g);
  }

  /** Refuses a manifest that is not one of this grid; otherwise its canonical text and a line feed. */
  method GapManifestBytes(m: GapManifest, a: Archive, member: string, schemaFingerprint: string) returns (r: Option<string>)
    ensures r.Some? <==>
      && (forall x :: x in [m.start, m.end, m.step, m.expectedSlots, m.presentSlots, m.gapCount] ==> 0 <= x < 0x8000_0000_0000_0000)
      && m.source.member == member && Bounds(m.start, m.end, m.step) == KlineBounds(a)
      && m.expectedSlots == (m.end - m.start) / KlineBounds(a).step && m.presentSlots == m.expectedSlots - |m.gaps|
      && m.gapCount == |m.gaps| && Sha256Text(m.source.sha256) && GapsOrdered(KlineBounds(a), m.gaps)
    ensures r.Some? ==> r.value == Jcs.Text(ManifestJson(m, schemaFingerprint)) + "\n"
    ensures r.Some? ==> ReadsInKeyOrder(r.value[..|r.value| - 1], ManifestJson(m, schemaFingerprint))
  {
    hide HeaderHolds, ReadsInKeyOrder, ManifestJson, Jcs.Text, Sha256Text;
    HeaderMeans(m, a, member);
    ManifestIsValid(m, schemaFingerprint);
    CanonicalTextIsOrdered(ManifestJson(m, schemaFingerprint));
    if !HeaderHolds(m, a, member) {
      return None;
    }
    var b := KlineBounds(a);
    var previous := b.start - b.step;
    for i := 0 to |m.gaps|
      invariant previous == if i == 0 then b.start - b.step else m.gaps[i - 1].open
      invariant GapsOrdered(b, m.gaps[..i])
    {
      var g := m.gaps[i];
      if !OnGrid(b, g.open) || g.open <= previous || g.close != g.open + b.step - 1 {
        BadGap(b, m.gaps, i);
        return None;
      }
      GoodGap(b, m.gaps, i);
      previous := g.open;
    }
    assert m.gaps[..|m.gaps|] == m.gaps;
    var text := Jcs.Text(ManifestJson(m, schemaFingerprint));
    assert (text + "\n")[..|text + "\n"| - 1] == text;
    r := Some(text + "\n");
  }

  lemma HeaderMeans(m: GapManifest, a: Archive, member: string)
    ensures HeaderHolds(m, a, member) <==>
      && (forall x :: x in [m.start, m.end, m.step, m.expectedSlots, m.presentSlots, m.gapCount] ==> 0 <= x < 0x8000_0000_0000_0000)
      && m.source.member == member && Bounds(m.start, m.end, m.step) == KlineBounds(a)
      && m.expectedSlots == (m.end - m.start) / KlineBounds(a).step && m.presentSlots == m.expectedSlots - |m.gaps|
      && m.gapCount == |m.gaps| && Sha256Text(m.source.sha256)
  {
    hide Sha256Text;
    var s := [m.start, m.end, m.step, m.expectedSlots, m.presentSlots, m.gapCount];
    assert m.start in s && m.end in s && m.step in s && m.expectedSlots in s && m.presentSlots in s && m.gapCount in s;
    assert HeaderHolds(m, a, member) ==> forall x :: x in s ==> Int64(x);
    PositiveStep(a);
  }

  lemma BadGap(b: Bounds, gaps: seq<Gap>, i: nat)
    requires b.step > 0 && i < |gaps|
    requires !OnGrid(b, gaps[i].open) || gaps[i].open <= (if i == 0 then b.start - b.step else gaps[i - 1].open)
             || gaps[i].close != gaps[i].open + b.step - 1
    ensures !GapsOrdered(b, gaps)
  {
  }

  lemma GoodGap(b: Bounds, gaps: seq<Gap>, i: nat)
    requires b.step > 0 && i < |gaps| && GapsOrdered(b, gaps[..i]) && OnGrid(b, gaps[i].open)
    requires i > 0 ==> gaps[i - 1].open < gaps[i].open
    requires gaps[i].close == gaps[i].open + b.step - 1
    ensures GapsOrdered(b, gaps[..i + 1])
  {
    hide OnGrid;
    var x, y := gaps[..i], gaps[..i + 1];
    assert forall k :: 0 <= k < i ==> y[k] == x[k];
    assert i > 0 ==> x[i - 1] == gaps[i - 1];
  }

  lemma ManifestHeader(a: Archive, source: Source, rows: seq<CanonicalRow>)
    requires a.Kept() && Sha256Text(source.sha256)
    requires forall i :: 0 <= i < |rows| ==> OnGrid(KlineBounds(a), rows[i].eventTime)
    ensures HeaderHolds(ManifestOf(source, KlineBounds(a), Times(rows)), a, source.member)
  {
    hide GapsFrom, Times, Sha256Text, OnGrid;
    var b := KlineBounds(a);
    BoundsAligned(a);
    GapsPartitionGrid(b, rows, source);
    ExpectedInRange(a);
  }

  lemma ExpectedInRange(a: Archive)
    requires a.Kept()
    ensures var b := KlineBounds(a);
      Int64(b.start) && Int64(b.end) && Int64(b.step) && Int64((b.end - b.start) / b.step)
  {
    BoundsAligned(a);
    if a.Kraken? {
      assert (KRAKEN_END - KRAKEN_START) / 3_600_000 == 43848;
    } else {
      MinutesInRange(KlineBounds(a).end - KlineBounds(a).start);
    }
  }

  lemma MinutesInRange(n: int)
    requires n >= 0
    ensures 0 <= n / 60_000 <= n
  {
  }

  /** The manifest built from canonical rows always passes validation. */
  lemma BuiltManifestPasses(a: Archive, source: Source, p: D.ParseResult<SourceRow>, rows: seq<CanonicalRow>)
    requires a.Kept() && Sha256Text(source.sha256) && Buildable(a, p) && CanonicalRows(rows, a, p.rows)
    ensures var m := ManifestOf(source, KlineBounds(a), Times(rows));
      HeaderHolds(m, a, source.member) && GapsOrdered(KlineBounds(a), m.gaps)
  {
    hide Buildable, CanonicalRows, HeaderHolds, Sha256Text, GapsFrom, SlotsFrom, Times;
    var b := KlineBounds(a);
    BoundsAligned(a);
    BuiltIncreasing(a, p, rows);
    ManifestHeader(a, source, rows);
    GapsIn(b, Times(rows), b.start);
    SlotsAre(b, b.start);
    forall i | 0 <= i < |GapsFrom(b, Times(rows), b.start)|
      ensures OnGrid(b, GapsFrom(b, Times(rows), b.start)[i].open)
    {
      assert GapsFrom(b, Times(rows), b.start)[i].open in SlotsFrom(b, b.start);
    }
  }

  // ---------- the quality gate's own recomputation ----------

  /** Rebuilds the manifest from timestamps alone. */
  method RecomputeGaps(a: Archive, source: Source, times: seq<int>) returns (m: GapManifest)
    ensures m == ManifestOf(source, KlineBounds(a), OnGridTimes(KlineBounds(a), times))
  {
    var b := KlineBounds(a);
    var present: set<int> := {};
    for i := 0 to |times|
      invariant present == OnGridTimes(b, times[..i])
    {
      assert times[..i + 1][..i] == times[..i];
      if OnGrid(b, times[i]) {
        present := present + {times[i]};
      }
    }
    assert times[..|times|] == times;
    var gaps := EnumerateGaps(b, present);
    m := GapManifest(source, b.start, b.end, b.step, (b.end - b.start) / b.step, |present|, |gaps|, gaps);
  }

  ghost function OnGridTimes(b: Bounds, times: seq<int>): set<int>
    requires b.step > 0
  {
    if times == [] then {}
    else
      var last := times[|times| - 1];
      OnGridTimes(b, times[..|times| - 1]) + if OnGrid(b, last) then {last} else {}
  }

  function EventTimes(rows: seq<CanonicalRow>): (t: seq<int>)
    ensures |t| == |rows| && forall i :: 0 <= i < |t| ==> t[i] == rows[i].eventTime
  {
    seq(|rows|, i requires 0 <= i < |rows| => rows[i].eventTime)
  }

  lemma {:induction false} GridTimesAre(b: Bounds, rows: seq<CanonicalRow>)
    requires b.step > 0 && forall i :: 0 <= i < |rows| ==> OnGrid(b, rows[i].eventTime)
    ensures OnGridTimes(b, EventTimes(rows)) == Times(rows)
  {
    hide OnGrid;
    if rows != [] {
      var n := |rows| - 1;
      GridTimesAre(b, rows[..n]);
      assert EventTimes(rows)[..n] == EventTimes(rows[..n]);
    }
  }

  /** On canonical rows the recomputed manifest is the built one. */
  lemma RecomputedManifestAgrees(a: Archive, source: Source, p: D.ParseResult<SourceRow>, rows: seq<CanonicalRow>)
    requires Buildable(a, p) && CanonicalRows(rows, a, p.rows)
    ensures ManifestOf(source, KlineBounds(a), OnGridTimes(KlineBounds(a), EventTimes(rows)))
            == ManifestOf(source, KlineBounds(a), Times(rows))
  {
    hide Buildable, CanonicalRows;
    BuiltIncreasing(a, p, rows);
    PositiveStep(a);
    GridTimesAre(KlineBounds(a), rows);
  }

  /** How many times leave the period, leave the grid or do not increase. */
  function SequenceFailures(b: Bounds, times: seq<int>): (n: nat)
    requires b.step > 0
  {
    if times == [] then 0
    else
      var last := |times| - 1;
      SequenceFailures(b, times[..last])
      + if !OnGrid(b, times[last]) || (last > 0 && times[last] <= times[last - 1]) then 1 else 0
  }

  ghost predicate CleanTimes(b: Bounds, times: seq<int>)
    requires b.step > 0
  {
    && (forall i :: 0 <= i < |times| ==> OnGrid(b, times[i]))
    && (forall i, j :: 0 <= i < j < |times| ==> times[i] < times[j])
  }

  /** No failures exactly for strictly increasing times on the grid. */
  lemma {:induction false} NoFailuresMeansClean(b: Bounds, times: seq<int>)
    requires b.step > 0
    ensures SequenceFailures(b, times) == 0 <==> CleanTimes(b, times)
  {
    hide OnGrid;
    if times != [] {
      var last := |times| - 1;
      var front := times[..last];
      NoFailuresMeansClean(b, front);
      assert last > 0 ==> front[last - 1] == times[last - 1];
      assert forall i :: 0 <= i < last ==> times[i] == front[i];
      assert CleanTimes(b, times) <==> CleanTimes(b, front) && OnGrid(b, times[last]) && (last > 0 ==> times[last - 1] < times[last]);
    }
  }
}
