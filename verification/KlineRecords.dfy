/** One kline record: its physical grammar, its interval start, and the checks on its payload. */
module KlineRecords {
  import opened Wrappers
  import opened Arith
  import opened Digits
  import opened Decimals
  import opened Q18
  import opened NumericPolicy

  const KRAKEN_START: int := 1577836800000
  const KRAKEN_END: int := 1735689600000
  const DAY: int := 86_400_000
  const INT64_LIMIT: int := 0x8000_0000_0000_0000

  /** An archive selection: the whole Kraken window, or the days of one monthly archive. */
  datatype Archive = Kraken | Monthly(firstDay: int, endDay: int, derived: bool) {
    predicate Kept() {
      Monthly? ==> KRAKEN_START <= firstDay * DAY && firstDay < endDay && endDay * DAY <= KRAKEN_END
    }

    predicate IsDerived() {
      Monthly? && derived
    }
  }

  datatype Bounds = Bounds(start: int, end: int, step: int)

  function KlineBounds(a: Archive): Bounds {
    match a
    case Kraken => Bounds(KRAKEN_START, KRAKEN_END, 3_600_000)
    case Monthly(first, end, _) => Bounds(first * DAY, end * DAY, 60_000)
  }

  /** Both ends of a period lie on its own grid, inside the frozen window. */
  lemma BoundsAligned(a: Archive)
    requires a.Kept()
    ensures var b := KlineBounds(a);
      && b.step > 0 && b.start % b.step == 0 && b.end % b.step == 0
      && KRAKEN_START <= b.start < b.end <= KRAKEN_END
  {
    match a
    case Kraken =>
      ExactQuotient(KRAKEN_START, 3_600_000, 438288);
      ExactQuotient(KRAKEN_END, 3_600_000, 482136);
    case Monthly(first, end, _) =>
      WholeDay(first);
      WholeDay(end);
  }

  lemma WholeDay(day: int)
    ensures (day * DAY) % 60_000 == 0
  {
    ExactQuotient(day * DAY, 60_000, day * 1440);
  }

  datatype SourceRow = SourceRow(
    eventTime: int, closeTime: int, open: int, high: int, low: int, close: int,
    volume: int, quoteVolume: Option<int>, count: int, takerVolume: Option<int>, takerQuoteVolume: Option<int>,
    sourceIgnore: Option<string>)

  datatype RecordFault =
    | ForbiddenEncoding | WrongColumns | BadTimestamp | OutsidePeriod | OffGrid
    | BadSpan | BadDecimal | BadOhlc | NonzeroVolume | BadCount

  // ---------- physical form ----------

  /** The record without its one terminator. */
  function Body(raw: string): string {
    if |raw| >= 2 && raw[|raw| - 2..] == "\r\n" then raw[..|raw| - 2]
    else if raw != "" && raw[|raw| - 1] == '\n' then raw[..|raw| - 1]
    else raw
  }

  function Split(text: string, c: char): (fields: seq<string>)
    ensures fields != []
    decreases |text|
  {
    var i := IndexOf(text, c, c);
    if i == |text| then [text] else [text[..i]] + Split(text[i + 1..], c)
  }

  function Fields(raw: string): Option<seq<string>> {
    var body := Body(raw);
    if '\r' in body || '"' in body || '\U{feff}' in body then None else Some(Split(body, ','))
  }

  // ---------- single fields ----------

  /** Exactly thirteen digits of milliseconds, or ten digits of seconds. */
  function Timestamp(text: string, seconds: bool): Option<int> {
    if DigitText(text) && |text| == (if seconds then 10 else 13)
    then Some(NatOf(text) * (if seconds then 1000 else 1)) else None
  }

  /** A decimal field in units of 10^-18; only signed families may carry a minus. */
  function DecimalField(text: string, signed: bool): Option<int> {
    var negative := signed && Minus(text);
    var number := ParseNumeric(if negative then text[1..] else text);
    if number.Err? then None
    else
      AcceptedIsWellFormed(if negative then text[1..] else text);
      var quanta :- Quanta(number.value);
      if Magnitude(quanta) >= Pow10(38) then None else Some(if negative then -quanta else quanta)
  }

  /** The extra range and rounding checks after the numeric policy never reject anything. */
  lemma PolicyImpliesScalar(text: string, signed: bool)
    ensures DecimalField(text, signed).Some? <==> ParseNumeric(if signed && Minus(text) then text[1..] else text).Ok?
    ensures DecimalField(text, signed).Some? && !signed ==> DecimalField(text, signed).value >= 0
  {
    hide ParseNumeric, Quanta, Pow10;
    var body := if signed && Minus(text) then text[1..] else text;
    if ParseNumeric(body).Ok? {
      AcceptedFits(body);
    }
  }

  function Count(text: string): Option<int> {
    if DigitText(text) && 1 <= |text| <= 19 && NatOf(text) < INT64_LIMIT then Some(NatOf(text)) else None
  }

  // ---------- the record ----------

  /** Everything that is checked before duplicates are looked at. */
  function KeyOf(a: Archive, raw: string): (r: Result<int, RecordFault>)
    ensures r.Ok? ==> Fields(raw).Some? && |Fields(raw).value| == if a.Kraken? then 7 else 12
  {
    var b := KlineBounds(a);
    var fields := Fields(raw);
    if fields.None? then Err(ForbiddenEncoding)
    else if |fields.value| != (if a.Kraken? then 7 else 12) then Err(WrongColumns)
    else
      var time := Timestamp(fields.value[0], a.Kraken?);
      if time.None? then Err(BadTimestamp)
      else if !(b.start <= time.value < b.end) then Err(OutsidePeriod)
      else if time.value % b.step != 0 then Err(OffGrid)
      else Ok(time.value)
  }

  function CloseTime(a: Archive, fields: seq<string>, time: int): Option<int>
    requires |fields| == if a.Kraken? then 7 else 12
  {
    if a.Kraken? then Some(time + KlineBounds(a).step - 1) else Timestamp(fields[6], false)
  }

  predicate OhlcHolds(open: int, high: int, low: int, close: int) {
    low <= open && low <= close && high >= open && high >= close && high >= low
  }

  /** Volumes other than the first exist only for the non-Kraken families. */
  function OtherVolumes(a: Archive, fields: seq<string>): Option<(Option<int>, Option<int>, Option<int>)>
    requires |fields| == if a.Kraken? then 7 else 12
  {
    if a.Kraken? then Some((None, None, None))
    else
      var quote :- DecimalField(fields[7], false);
      var taker :- DecimalField(fields[9], false);
      var takerQuote :- DecimalField(fields[10], false);
      Some((Some(quote), Some(taker), Some(takerQuote)))
  }

  predicate StructuralZeros(volume: int, others: (Option<int>, Option<int>, Option<int>)) {
    volume == 0 && others.0 == Some(0) && others.1 == Some(0) && others.2 == Some(0)
  }

  /** The four prices. */
  function Prices(a: Archive, fields: seq<string>): Option<(int, int, int, int)>
    requires |fields| >= 7
  {
    var open :- DecimalField(fields[1], a.IsDerived());
    var high :- DecimalField(fields[2], a.IsDerived());
    var low :- DecimalField(fields[3], a.IsDerived());
    var close :- DecimalField(fields[4], a.IsDerived());
    Some((open, high, low, close))
  }

  /** The row a record with this interval start stands for. */
  function RowOf(a: Archive, raw: string): (r: Result<SourceRow, RecordFault>)
    requires KeyOf(a, raw).Ok?
    ensures r.Ok? ==> r.value.eventTime == KeyOf(a, raw).value
  {
    var time, step, fields := KeyOf(a, raw).value, KlineBounds(a).step, Fields(raw).value;
    var closeTime := CloseTime(a, fields, time);
    if closeTime.None? then Err(BadTimestamp)
    else if closeTime.value != time + step - 1 then Err(BadSpan)
    else
      var prices := Prices(a, fields);
      if prices.None? then Err(BadDecimal)
      else if !OhlcHolds(prices.value.0, prices.value.1, prices.value.2, prices.value.3) then Err(BadOhlc)
      else
        var volume, others := DecimalField(fields[5], false), OtherVolumes(a, fields);
        if volume.None? || others.None? then Err(BadDecimal)
        else if a.IsDerived() && !StructuralZeros(volume.value, others.value) then Err(NonzeroVolume)
        else
          var count := Count(fields[if a.Kraken? then 6 else 8]);
          if count.None? then Err(BadCount)
          else Ok(SourceRow(time, closeTime.value, prices.value.0, prices.value.1, prices.value.2, prices.value.3,
                            volume.value, others.value.0, count.value, others.value.1, others.value.2,
                            if a.Kraken? then None else Some(fields[11])))
  }

  /** A record that is acceptable on its own. */
  predicate ValidRecord(a: Archive, raw: string) {
    KeyOf(a, raw).Ok? && RowOf(a, raw).Ok?
  }

  predicate Unsigned3(v: (Option<int>, Option<int>, Option<int>)) {
    v.0.Some? && v.1.Some? && v.2.Some? && v.0.value >= 0 && v.1.value >= 0 && v.2.value >= 0
  }

  /** What every accepted row satisfies, whatever its family. */
  ghost predicate SoundRow(a: Archive, row: SourceRow) {
    && (if a.Kraken?
        then 1577836800000 <= row.eventTime < 1735689600000 && row.eventTime % 3_600_000 == 0
             && row.closeTime == row.eventTime + 3_599_999
        else a.firstDay * 86_400_000 <= row.eventTime < a.endDay * 86_400_000 && row.eventTime % 60_000 == 0
             && row.closeTime == row.eventTime + 59_999)
    && row.low <= row.open <= row.high && row.low <= row.close <= row.high
    && (!a.IsDerived() ==> row.low >= 0)
    && row.volume >= 0 && 0 <= row.count < INT64_LIMIT
    && (if a.Kraken? then row.quoteVolume.None? && row.takerVolume.None? && row.takerQuoteVolume.None? && row.sourceIgnore.None?
        else row.sourceIgnore.Some? && Unsigned3((row.quoteVolume, row.takerVolume, row.takerQuoteVolume)))
    && (a.IsDerived() ==> row.volume == 0 && row.quoteVolume == row.takerVolume == row.takerQuoteVolume == Some(0))
  }

  lemma PricesUnsigned(a: Archive, fields: seq<string>)
    requires |fields| >= 7 && !a.IsDerived() && Prices(a, fields).Some?
    ensures var p := Prices(a, fields).value; p.0 >= 0 && p.1 >= 0 && p.2 >= 0 && p.3 >= 0
  {
    hide DecimalField;
    PolicyImpliesScalar(fields[1], false);
    PolicyImpliesScalar(fields[2], false);
    PolicyImpliesScalar(fields[3], false);
    PolicyImpliesScalar(fields[4], false);
  }

  lemma VolumesUnsigned(a: Archive, fields: seq<string>)
    requires |fields| == if a.Kraken? then 7 else 12
    ensures DecimalField(fields[5], false).Some? ==> DecimalField(fields[5], false).value >= 0
    ensures OtherVolumes(a, fields).Some? && !a.Kraken? ==> Unsigned3(OtherVolumes(a, fields).value)
  {
    hide DecimalField;
    PolicyImpliesScalar(fields[5], false);
    if !a.Kraken? {
      PolicyImpliesScalar(fields[7], false);
      PolicyImpliesScalar(fields[9], false);
      PolicyImpliesScalar(fields[10], false);
    }
  }

  /** Every accepted record gives a sound row. */
  lemma ValidRecordIsSound(a: Archive, raw: string)
    requires ValidRecord(a, raw)
    ensures SoundRow(a, RowOf(a, raw).value)
  {
    hide DecimalField, Split, Body, Fields, Timestamp, NatOf, Prices;
    var fields := Fields(raw).value;
    if !a.IsDerived() {
      PricesUnsigned(a, fields);
    }
    VolumesUnsigned(a, fields);
  }

  // ---------- which column goes where ----------

  /** Every member of the row is the value of its own column of the record. */
  ghost predicate FromColumns(a: Archive, raw: string, row: SourceRow) {
    && Fields(raw).Some?
    && var f := Fields(raw).value;
    && |f| == (if a.Kraken? then 7 else 12)
    && DecimalField(f[1], a.IsDerived()) == Some(row.open) && DecimalField(f[2], a.IsDerived()) == Some(row.high)
    && DecimalField(f[3], a.IsDerived()) == Some(row.low) && DecimalField(f[4], a.IsDerived()) == Some(row.close)
    && DecimalField(f[5], false) == Some(row.volume)
    && DigitText(f[0]) && row.eventTime == NatOf(f[0]) * (if a.Kraken? then 1000 else 1)
    && (a.Kraken? ==> DigitText(f[6]) && row.count == NatOf(f[6]))
    && (a.Monthly? ==>
          && DigitText(f[6]) && row.closeTime == NatOf(f[6]) && DigitText(f[8]) && row.count == NatOf(f[8])
          && row.quoteVolume.Some? && DecimalField(f[7], false) == row.quoteVolume
          && row.takerVolume.Some? && DecimalField(f[9], false) == row.takerVolume
          && row.takerQuoteVolume.Some? && DecimalField(f[10], false) == row.takerQuoteVolume
          && row.sourceIgnore == Some(f[11]))
  }

  lemma RowTakesItsColumns(a: Archive, raw: string)
    requires ValidRecord(a, raw)
    ensures FromColumns(a, raw, RowOf(a, raw).value)
  {
    hide DecimalField, Split, Body, NatOf, OhlcHolds, StructuralZeros, Fields;
  }

  // ---------- writing a row and reading it back ----------

  /** Fields with commas between them. */
  function Joined(fields: seq<string>): string
    requires fields != []
  {
    if |fields| == 1 then fields[0] else fields[0] + "," + Joined(fields[1..])
  }

  ghost predicate Without(text: string, c: char) {
    forall i :: 0 <= i < |text| ==> text[i] != c
  }

  /** Nothing in the text is forbidden in a record or separates fields. */
  ghost predicate CleanField(text: string) {
    Without(text, ',') && Without(text, '\r') && Without(text, '"') && Without(text, '\U{feff}')
  }

  ghost predicate CleanFields(fields: seq<string>) {
    forall i :: 0 <= i < |fields| ==> CleanField(fields[i])
  }

  lemma {:induction false} SplitJoined(fields: seq<string>)
    requires fields != [] && forall i :: 0 <= i < |fields| ==> Without(fields[i], ',')
    ensures Split(Joined(fields), ',') == fields
    decreases |fields|
  {
    hide Split, IndexOf;
    if |fields| == 1 {
      SplitLast(fields[0]);
      assert fields == [fields[0]];
    } else {
      SplitFirst(fields[0], Joined(fields[1..]));
      SplitJoined(fields[1..]);
    }
  }

  lemma SplitLast(text: string)
    requires Without(text, ',')
    ensures Split(text, ',') == [text]
  {
  }

  lemma SplitFirst(first: string, rest: string)
    requires Without(first, ',')
    ensures Split(first + "," + rest, ',') == [first] + Split(rest, ',')
  {
    hide IndexOf;
    var text := first + "," + rest;
    assert text[|first|] == ',';
    assert forall k :: 0 <= k < |first| ==> text[k] == first[k];
    assert IndexOf(text, ',', ',') == |first|;
    assert text[..|first|] == first && text[|first| + 1..] == rest;
  }

  lemma {:induction false} JoinedWithout(fields: seq<string>, c: char)
    requires fields != [] && c != ',' && forall i :: 0 <= i < |fields| ==> Without(fields[i], c)
    ensures Without(Joined(fields), c)
    decreases |fields|
  {
    if |fields| > 1 {
      JoinedWithout(fields[1..], c);
    }
  }

  /** A line made of clean fields splits into those fields. */
  lemma FieldsOfLine(fields: seq<string>)
    requires fields != [] && CleanFields(fields)
    ensures Fields(Joined(fields) + "\n") == Some(fields)
  {
    hide Split, Joined;
    var line := Joined(fields);
    JoinedWithout(fields, '\r');
    JoinedWithout(fields, '"');
    JoinedWithout(fields, '\U{feff}');
    LineBody(line);
    SplitJoined(fields);
  }

  lemma LineBody(line: string)
    requires Without(line, '\r')
    ensures Body(line + "\n") == line
  {
    var raw := line + "\n";
    assert |raw| >= 2 ==> raw[|raw| - 2..][0] == line[|line| - 1];
    assert raw[..|raw| - 1] == line;
  }

  lemma DigitsAreClean(text: string)
    requires DigitText(text)
    ensures CleanField(text)
  {
  }

  lemma RenderedIsClean(m: int)
    ensures CleanField(RenderQuanta(m))
  {
    hide NatText, NatOf;
    var text := PadTo19(NatText(Magnitude(m)));
    assert DigitText(text);
    forall i | 0 <= i < |RenderQuanta(m)|
      ensures IsDigit(RenderQuanta(m)[i]) || RenderQuanta(m)[i] == '.' || RenderQuanta(m)[i] == '-'
    {
    }
  }

  /** A rendered value below 10^38 in size is a decimal field worth that value; a minus only where it is allowed. */
  lemma RenderedField(m: int, signed: bool)
    requires Magnitude(m) < Pow10(38) && (m >= 0 || signed)
    ensures DecimalField(RenderQuanta(m), signed) == Some(m)
  {
    hide ParseNumeric, Quanta, NatText, PadTo19, Pow10;
    RenderedIsAccepted(Magnitude(m));
    var body := PointBefore18(PadTo19(NatText(Magnitude(m))));
    assert RenderQuanta(Magnitude(m)) == "" + body == body;
    assert RenderQuanta(m) == (if m < 0 then "-" else "") + body;
    if m < 0 {
      assert RenderQuanta(m)[1..] == body;
    } else {
      assert RenderQuanta(m) == body;
      assert body[0] != '-' by { BodyLead(Magnitude(m)); }
    }
  }

  lemma BodyLead(n: nat)
    ensures PointBefore18(PadTo19(NatText(n)))[0] != '-'
  {
    hide NatText, NatOf;
    assert IsDigit(PadTo19(NatText(n))[0]);
  }

  /** Instants of the window have thirteen digits in milliseconds and ten in seconds. */
  lemma WindowDigits(time: int)
    requires KRAKEN_START <= time <= KRAKEN_END
    ensures |NatText(time)| == 13 && |NatText(time / 1000)| == 10
  {
    hide Pow10, NatText;
    Powers();
    TextLength(time, 13);
    TextLength(time / 1000, 10);
  }

  lemma Powers()
    ensures Pow10(9) == 1_000_000_000 && Pow10(10) == 10_000_000_000
    ensures Pow10(12) == 1_000_000_000_000 && Pow10(13) == 10_000_000_000_000
    ensures Pow10(19) == 10_000_000_000_000_000_000
  {
    assert Pow10(4) == 10_000;
    assert Pow10(9) == 1_000_000_000;
    Pow10Adds(9, 4);
    Pow10Adds(9, 10);
    Pow10Adds(9, 3);
    Pow10Adds(9, 1);
  }

  lemma CountReads(n: int)
    requires 0 <= n < INT64_LIMIT
    ensures Count(NatText(n)) == Some(n)
  {
    hide Pow10, NatText, NatOf;
    Powers();
    TextLength(n, 19);
    NatOfNatText(n);
  }

  /** Every decimal of the row fits the storage type, and its free text cannot be taken for a separator. */
  ghost predicate Writable(row: SourceRow) {
    && Magnitude(row.open) < Pow10(38) && Magnitude(row.high) < Pow10(38) && Magnitude(row.low) < Pow10(38)
    && Magnitude(row.close) < Pow10(38) && Magnitude(row.volume) < Pow10(38)
    && (row.quoteVolume.Some? ==> Magnitude(row.quoteVolume.value) < Pow10(38))
    && (row.takerVolume.Some? ==> Magnitude(row.takerVolume.value) < Pow10(38))
    && (row.takerQuoteVolume.Some? ==> Magnitude(row.takerQuoteVolume.value) < Pow10(38))
    && (row.sourceIgnore.Some? ==> CleanField(row.sourceIgnore.value))
  }

  /** The times of a sound row print with the digits its family asks for. */
  lemma RowTimes(a: Archive, row: SourceRow)
    requires a.Kept() && SoundRow(a, row)
    ensures 0 <= row.eventTime && 0 <= row.closeTime
    ensures a.Kraken? ==> Timestamp(NatText(row.eventTime / 1000), true) == Some(row.eventTime)
    ensures a.Monthly? ==> Timestamp(NatText(row.eventTime), false) == Some(row.eventTime)
    ensures a.Monthly? ==> Timestamp(NatText(row.closeTime), false) == Some(row.closeTime)
  {
    hide NatText, NatOf, Timestamp;
    BoundsAligned(a);
    if a.Kraken? {
      SecondsRead(row.eventTime);
    } else {
      EndOfSlot(row.eventTime, KlineBounds(a).end, 60_000);
      MillisRead(row.eventTime);
      MillisRead(row.closeTime);
    }
  }

  lemma MillisRead(time: int)
    requires KRAKEN_START <= time <= KRAKEN_END
    ensures Timestamp(NatText(time), false) == Some(time)
  {
    hide NatText, NatOf;
    WindowDigits(time);
    NatOfNatText(time);
  }

  lemma SecondsRead(time: int)
    requires KRAKEN_START <= time <= KRAKEN_END && time % 3_600_000 == 0
    ensures Timestamp(NatText(time / 1000), true) == Some(time)
  {
    hide NatText, NatOf;
    WindowDigits(time);
    NatOfNatText(time / 1000);
    WholeSeconds(time, time / 3_600_000);
  }

  lemma WholeSeconds(time: int, hours: int)
    requires time == 3_600_000 * hours
    ensures time / 1000 * 1000 == time
  {
    ExactQuotient(time, 1000, 3600 * hours);
  }

  /** The last instant of a slot before an aligned end is before that end. */
  lemma EndOfSlot(t: int, end: int, step: int)
    requires step > 0 && t % step == 0 && end % step == 0 && t < end
    ensures t + step <= end
  {
    var i, j := t / step, end / step;
    assert t == i * step && end == j * step;
    if i >= j {
      MulAtMost(j, i, step);
    }
    MulAtMost(i + 1, j, step);
    SumTimes(i, 1, step);
  }

  lemma PricesRead(a: Archive, row: SourceRow, fields: seq<string>)
    requires SoundRow(a, row) && Writable(row) && |fields| >= 7
    requires fields[1] == RenderQuanta(row.open) && fields[2] == RenderQuanta(row.high)
    requires fields[3] == RenderQuanta(row.low) && fields[4] == RenderQuanta(row.close)
    ensures Prices(a, fields) == Some((row.open, row.high, row.low, row.close))
  {
    hide DecimalField, RenderQuanta, Pow10;
    RenderedField(row.open, a.IsDerived());
    RenderedField(row.high, a.IsDerived());
    RenderedField(row.low, a.IsDerived());
    RenderedField(row.close, a.IsDerived());
  }

  /**
   A Kraken row written as seconds, open, high, low, close, volume and count is read back as that very
   row.
   */
  lemma KrakenRowReadsBack(row: SourceRow)
    requires SoundRow(Kraken, row) && Writable(row)
    ensures var raw := Joined([NatText(row.eventTime / 1000), RenderQuanta(row.open), RenderQuanta(row.high), RenderQuanta(row.low),
                               RenderQuanta(row.close), RenderQuanta(row.volume), NatText(row.count)]) + "\n";
      KeyOf(Kraken, raw) == Ok(row.eventTime) && RowOf(Kraken, raw) == Ok(row)
  {
    hide Joined, Fields, Timestamp, DecimalField, Count, Prices, RenderQuanta, NatText, Pow10;
    var fields := [NatText(row.eventTime / 1000), RenderQuanta(row.open), RenderQuanta(row.high), RenderQuanta(row.low),
                   RenderQuanta(row.close), RenderQuanta(row.volume), NatText(row.count)];
    RowTimes(Kraken, row);
    CountReads(row.count);
    RenderedField(row.volume, false);
    PricesRead(Kraken, row, fields);
    KrakenFieldsClean(row, fields);
    FieldsOfLine(fields);
  }

  lemma KrakenFieldsClean(row: SourceRow, fields: seq<string>)
    requires row.eventTime >= 0 && row.count >= 0
    requires fields == [NatText(row.eventTime / 1000), RenderQuanta(row.open), RenderQuanta(row.high), RenderQuanta(row.low),
                        RenderQuanta(row.close), RenderQuanta(row.volume), NatText(row.count)]
    ensures CleanFields(fields)
  {
    hide RenderQuanta, NatText, CleanField;
    DigitsAreClean(fields[0]);
    RenderedIsClean(row.open);
    RenderedIsClean(row.high);
    RenderedIsClean(row.low);
    RenderedIsClean(row.close);
    RenderedIsClean(row.volume);
    DigitsAreClean(fields[6]);
  }

  /**
   A row of a monthly archive written in the order of its twelve header columns is read back as that very
   row.
   */
  lemma MonthlyRowReadsBack(a: Archive, row: SourceRow)
    requires a.Monthly? && a.Kept() && SoundRow(a, row) && Writable(row)
    ensures var raw := Joined([NatText(row.eventTime), RenderQuanta(row.open), RenderQuanta(row.high), RenderQuanta(row.low),
                               RenderQuanta(row.close), RenderQuanta(row.volume), NatText(row.closeTime),
                               RenderQuanta(row.quoteVolume.value), NatText(row.count), RenderQuanta(row.takerVolume.value),
                               RenderQuanta(row.takerQuoteVolume.value), row.sourceIgnore.value]) + "\n";
      KeyOf(a, raw) == Ok(row.eventTime) && RowOf(a, raw) == Ok(row)
  {
    hide Joined, Fields, Timestamp, DecimalField, Count, Prices, RenderQuanta, NatText, Pow10, OtherVolumes;
    var fields := [NatText(row.eventTime), RenderQuanta(row.open), RenderQuanta(row.high), RenderQuanta(row.low),
                   RenderQuanta(row.close), RenderQuanta(row.volume), NatText(row.closeTime),
                   RenderQuanta(row.quoteVolume.value), NatText(row.count), RenderQuanta(row.takerVolume.value),
                   RenderQuanta(row.takerQuoteVolume.value), row.sourceIgnore.value];
    RowTimes(a, row);
    CountReads(row.count);
    RenderedField(row.volume, false);
    PricesRead(a, row, fields);
    OthersRead(a, row, fields);
    MonthlyFieldsClean(row, fields);
    FieldsOfLine(fields);
  }

  lemma OthersRead(a: Archive, row: SourceRow, fields: seq<string>)
    requires a.Monthly? && SoundRow(a, row) && Writable(row) && |fields| == 12
    requires fields[7] == RenderQuanta(row.quoteVolume.value) && fields[9] == RenderQuanta(row.takerVolume.value)
    requires fields[10] == RenderQuanta(row.takerQuoteVolume.value)
    ensures OtherVolumes(a, fields) == Some((row.quoteVolume, row.takerVolume, row.takerQuoteVolume))
  {
    hide DecimalField, RenderQuanta, Pow10;
    RenderedField(row.quoteVolume.value, false);
    RenderedField(row.takerVolume.value, false);
    RenderedField(row.takerQuoteVolume.value, false);
  }

  lemma MonthlyFieldsClean(row: SourceRow, fields: seq<string>)
    requires row.eventTime >= 0 && row.count >= 0 && row.closeTime >= 0
    requires row.quoteVolume.Some? && row.takerVolume.Some? && row.takerQuoteVolume.Some? && row.sourceIgnore.Some?
    requires CleanField(row.sourceIgnore.value)
    requires fields == [NatText(row.eventTime), RenderQuanta(row.open), RenderQuanta(row.high), RenderQuanta(row.low),
                        RenderQuanta(row.close), RenderQuanta(row.volume), NatText(row.closeTime),
                        RenderQuanta(row.quoteVolume.value), NatText(row.count), RenderQuanta(row.takerVolume.value),
                        RenderQuanta(row.takerQuoteVolume.value), row.sourceIgnore.value]
    ensures CleanFields(fields)
  {
    hide RenderQuanta, NatText, CleanField;
    DigitsAreClean(fields[0]);
    RenderedIsClean(row.open);
    RenderedIsClean(row.high);
    RenderedIsClean(row.low);
    RenderedIsClean(row.close);
    RenderedIsClean(row.volume);
    DigitsAreClean(fields[6]);
    RenderedIsClean(row.quoteVolume.value);
    DigitsAreClean(fields[8]);
    RenderedIsClean(row.takerVolume.value);
    RenderedIsClean(row.takerQuoteVolume.value);
  }
}
