/**
 What the streaming selector amounts to: the stream is read as lines, and the selected output is the
 concatenation of the lines in the window.  The answer depends on the bytes only, not on how they were
 cut into blocks.
 */
module KrakenLines {
  import opened Wrappers
  import opened FiniteSets
  import opened Utf8
  import opened KrakenWindow

  /** A timestamp and everything after its comma, up to and including the line break if there is one. */
  datatype Line = Line(prefix: Bytes, payload: Bytes)

  /** Either the lines and an unfinished timestamp at the end, or the first fault. */
  datatype Reading = Lines(lines: seq<Line>, pending: Bytes) | Bad(fault: Fault)

  /** Length of the run of digits at the start. */
  function DigitRun(s: Bytes): (n: nat)
    ensures n <= |s| && (forall i :: 0 <= i < n ==> IsDigitByte(s[i]))
    ensures n < |s| ==> !IsDigitByte(s[n])
  {
    if s == [] || !IsDigitByte(s[0]) then 0 else 1 + DigitRun(s[1..])
  }

  /** Length of the first line, counting its line break. */
  function LineLength(s: Bytes): (n: nat)
    ensures n <= |s| && (forall i :: 0 <= i < n - 1 ==> s[i] != NEWLINE)
    ensures n < |s| ==> n > 0 && s[n - 1] == NEWLINE
    ensures s != [] ==> n > 0
  {
    if s == [] then 0 else if s[0] == NEWLINE then 1 else 1 + LineLength(s[1..])
  }

  /** The stream, read line by line. */
  function Read(stream: Bytes): Reading
    decreases |stream|
  {
    var n := DigitRun(stream);
    if n > 10 then Bad(InvalidPrefix)
    else if n == |stream| then Lines([], stream)
    else if stream[n] != COMMA then Bad(InvalidPrefix)
    else if n == 0 then Bad(MissingPrefix)
    else
      var t := Stamp(stream[..n]);
      if InWindow(t) && t % HOUR != 0 then Bad(OffGrid)
      else
        var rest := stream[n + 1..];
        var end := LineLength(rest);
        match Read(rest[end..])
        case Bad(fault) => Bad(fault)
        case Lines(lines, pending) => Lines([Line(stream[..n], rest[..end])] + lines, pending)
  }

  // ---------- the selection ----------

  predicate Kept(line: Line) {
    InWindow(Stamp(line.prefix))
  }

  function Selected(lines: seq<Line>): (kept: seq<Line>)
    ensures |kept| <= |lines| && forall i :: 0 <= i < |kept| ==> Kept(kept[i])
  {
    if lines == [] then []
    else if Kept(lines[0]) then [lines[0]] + Selected(lines[1..])
    else Selected(lines[1..])
  }

  /** The source bytes of some lines, in order. */
  function Source(lines: seq<Line>): Bytes {
    if lines == [] then [] else lines[0].prefix + [COMMA] + lines[0].payload + Source(lines[1..])
  }

  function Stamps(lines: seq<Line>): (s: set<int>)
    ensures forall t :: t in s <==> exists i :: 0 <= i < |lines| && Stamp(lines[i].prefix) == t
  {
    if lines == [] then {} else Stamps(lines[1..]) + {Stamp(lines[0].prefix)}
  }

  /** How many lines fall in a year. */
  function InYear(lines: seq<Line>, year: int): nat {
    if lines == [] then 0
    else (if Kept(lines[0]) && YearOf(Stamp(lines[0].prefix)) == year then 1 else 0) + InYear(lines[1..], year)
  }

  /** Reading a stream whose first timestamp is acceptable. */
  lemma ReadOneMore(stream: Bytes, n: nat)
    requires n == DigitRun(stream) < |stream| && 0 < n <= 10 && stream[n] == COMMA
    requires InWindow(Stamp(stream[..n])) ==> Stamp(stream[..n]) % HOUR == 0
    ensures var rest := stream[n + 1..];
      var end := LineLength(rest);
      var tail := Read(rest[end..]);
      Read(stream) == if tail.Bad? then tail else Lines([Line(stream[..n], rest[..end])] + tail.lines, tail.pending)
  {
    hide Stamp, DigitRun, LineLength;
  }

  lemma ReadableFirst(stream: Bytes)
    requires Read(stream).Lines? && DigitRun(stream) < |stream|
    ensures var n := DigitRun(stream);
      0 < n <= 10 && stream[n] == COMMA && (InWindow(Stamp(stream[..n])) ==> Stamp(stream[..n]) % HOUR == 0)
  {
    hide Stamp, LineLength;
  }

  /** The lines of a readable stream, in order, are the stream. */
  lemma {:induction false} ReadKeepsEveryByte(stream: Bytes)
    requires Read(stream).Lines?
    ensures Source(Read(stream).lines) + Read(stream).pending == stream
    decreases |stream|
  {
    hide Stamp, Source, DigitRun, LineLength;
    var n := DigitRun(stream);
    if n < |stream| {
      ReadableFirst(stream);
      ReadOneMore(stream, n);
      hide Read;
      var rest := stream[n + 1..];
      var end := LineLength(rest);
      ReadKeepsEveryByte(rest[end..]);
      var tail := Read(rest[end..]);
      SourceSplits(Line(stream[..n], rest[..end]), tail.lines, tail.pending);
      Rejoin(stream, n, end);
    } else {
      assert Source([]) == [] by { NoSource(); }
    }
  }

  lemma Rejoin(stream: Bytes, n: nat, end: nat)
    requires n < |stream| && stream[n] == COMMA && end <= |stream[n + 1..]|
    ensures var rest := stream[n + 1..]; stream[..n] + [COMMA] + (rest[..end] + rest[end..]) == stream
  {
    assert stream[n + 1..][..end] + stream[n + 1..][end..] == stream[n + 1..];
  }

  lemma NoSource()
    ensures Source([]) == []
  {
  }

  lemma SourceSplits(first: Line, lines: seq<Line>, pending: Bytes)
    ensures Source([first] + lines) + pending == first.prefix + [COMMA] + (first.payload + (Source(lines) + pending))
  {
    assert ([first] + lines)[1..] == lines;
  }

  // ---------- the automaton reads lines ----------

  ghost predicate AtLineStart(s: State) {
    Years(s.years) && s.prefix == [] && !s.inPayload && !s.keep
  }

  /** The effect of one whole line. */
  function AddLine(s: State, line: Line): (t: State)
    requires Years(s.years)
    ensures Years(t.years) && t.prefix == s.prefix && t.inPayload == s.inPayload && t.keep == s.keep
  {
    var t := Stamp(line.prefix);
    if InWindow(t) then
      s.(total := s.total + 1, rows := s.rows + 1, timestamps := s.timestamps + {t}, years := Count(s.years, t),
         output := s.output + line.prefix + [COMMA] + line.payload)
    else s.(total := s.total + 1)
  }

  function AddLines(s: State, lines: seq<Line>): (t: State)
    requires Years(s.years)
    ensures Years(t.years)
    decreases |lines|
  {
    if lines == [] then s else AddLines(AddLine(s, lines[0]), lines[1..])
  }

  lemma {:induction false} RunDigits(s: State, digits: Bytes)
    requires Years(s.years) && !s.inPayload && forall i :: 0 <= i < |digits| ==> IsDigitByte(digits[i])
    ensures |s.prefix| + |digits| <= 10 ==> Run(s, digits) == Ok(s.(prefix := s.prefix + digits))
    ensures |s.prefix| <= 10 < |s.prefix| + |digits| ==> Run(s, digits) == Err(InvalidPrefix)
    decreases |digits|
  {
    hide Comma;
    if digits == [] {
      assert s.prefix + digits == s.prefix;
    } else {
      assert IsDigitByte(digits[0]);
      if |s.prefix| < 10 {
        var next := s.(prefix := s.prefix + [digits[0]]);
        RunDigits(next, digits[1..]);
        assert s.prefix + [digits[0]] + digits[1..] == s.prefix + digits;
      }
    }
  }

  /** A payload, with or without its line break. */
  lemma RunLine(s: State, payload: Bytes)
    requires Years(s.years) && s.inPayload && s.prefix == []
    requires forall i :: 0 <= i < |payload| - 1 ==> payload[i] != NEWLINE
    ensures Run(s, payload).Ok?
    ensures var t := Run(s, payload).value;
      && t.(inPayload := false, keep := false) == s.(inPayload := false, keep := false, output := if s.keep then s.output + payload else s.output)
      && (payload != [] && payload[|payload| - 1] == NEWLINE ==> !t.inPayload && !t.keep)
  {
    hide Run;
    if payload != [] && payload[|payload| - 1] == NEWLINE {
      var chunk := payload[..|payload| - 1];
      assert payload == chunk + [NEWLINE];
      RunLineEnd(s, chunk);
    } else {
      RunPayload(s, payload);
    }
  }

  /** What the automaton knows at the end of a stream, ignoring whether a line is still open. */
  ghost predicate Reads(s: State, stream: Bytes, r: Result<State, Fault>)
    requires Years(s.years)
  {
    match Read(stream)
    case Bad(fault) => r == Err(fault)
    case Lines(lines, pending) =>
      r.Ok? && r.value.(inPayload := false, keep := false) == AddLines(s, lines).(prefix := pending)
  }

  lemma RunThree(s: State, a: Bytes, b: byte, c: Bytes)
    requires Years(s.years)
    ensures Run(s, a).Err? ==> Run(s, a + [b] + c) == Run(s, a)
    ensures Run(s, a).Ok? ==>
      var next := Step(Run(s, a).value, b);
      Run(s, a + [b] + c) == if next.Err? then next else Run(next.value, c)
  {
    hide Run, Step;
    RunConcat(s, a + [b], c);
    RunConcat(s, a, [b]);
    if Run(s, a).Ok? {
      RunOne(Run(s, a).value, b);
    }
  }

  /** From a line start, the automaton computes exactly what reading the lines says. */
  lemma {:induction false} RunReads(s: State, stream: Bytes)
    requires AtLineStart(s)
    ensures Reads(s, stream, Run(s, stream))
    decreases |stream|
  {
    hide Run, Step, Stamp;
    var n := DigitRun(stream);
    if n > 10 {
      LongPrefix(s, stream);
    } else if n == |stream| {
      RunDigits(s, stream);
      assert s.prefix + stream == stream;
    } else if stream[n] != COMMA {
      BadCharacter(s, stream, n);
    } else if n == 0 || (InWindow(Stamp(stream[..n])) && Stamp(stream[..n]) % HOUR != 0) {
      BadComma(s, stream, n);
    } else {
      RunFirstLine(s, stream, n);
    }
  }

  lemma LongPrefix(s: State, stream: Bytes)
    requires AtLineStart(s) && DigitRun(stream) > 10
    ensures Run(s, stream) == Err(InvalidPrefix)
  {
    hide Run;
    var n := DigitRun(stream);
    RunDigits(s, stream[..n]);
    RunConcat(s, stream[..n], stream[n..]);
    assert stream == stream[..n] + stream[n..];
  }

  lemma BadCharacter(s: State, stream: Bytes, n: nat)
    requires AtLineStart(s) && n == DigitRun(stream) < |stream| && n <= 10 && stream[n] != COMMA
    ensures Run(s, stream) == Err(InvalidPrefix)
  {
    hide Run;
    RunDigits(s, stream[..n]);
    RunThree(s, stream[..n], stream[n], stream[n + 1..]);
    assert stream == stream[..n] + [stream[n]] + stream[n + 1..];
  }

  lemma BadComma(s: State, stream: Bytes, n: nat)
    requires AtLineStart(s) && n == DigitRun(stream) < |stream| && n <= 10 && stream[n] == COMMA
    requires n == 0 || (InWindow(Stamp(stream[..n])) && Stamp(stream[..n]) % HOUR != 0)
    ensures Run(s, stream) == Err(if n == 0 then MissingPrefix else OffGrid)
  {
    hide Run, Stamp;
    RunDigits(s, stream[..n]);
    RunThree(s, stream[..n], stream[n], stream[n + 1..]);
    assert stream == stream[..n] + [stream[n]] + stream[n + 1..];
    assert s.prefix + stream[..n] == stream[..n];
  }

  /** The state after a whole timestamp and its comma. */
  lemma RunPrefix(s: State, stream: Bytes, n: nat)
    requires AtLineStart(s) && n == DigitRun(stream) < |stream| && 0 < n <= 10 && stream[n] == COMMA
    requires InWindow(Stamp(stream[..n])) ==> Stamp(stream[..n]) % HOUR == 0
    ensures Comma(s.(prefix := stream[..n])).Ok?
    ensures Run(s, stream) == Run(Comma(s.(prefix := stream[..n])).value, stream[n + 1..])
  {
    hide Run, Stamp;
    RunDigits(s, stream[..n]);
    RunThree(s, stream[..n], stream[n], stream[n + 1..]);
    assert stream == stream[..n] + [stream[n]] + stream[n + 1..];
    assert s.prefix + stream[..n] == stream[..n];
  }

  lemma {:induction false} RunFirstLine(s: State, stream: Bytes, n: nat)
    requires AtLineStart(s) && n == DigitRun(stream) < |stream| && 0 < n <= 10 && stream[n] == COMMA
    requires InWindow(Stamp(stream[..n])) ==> Stamp(stream[..n]) % HOUR == 0
    ensures Reads(s, stream, Run(s, stream))
    decreases |stream|, 0
  {
    hide Run, Step, Stamp, Comma;
    var rest := stream[n + 1..];
    var end := LineLength(rest);
    RunPrefix(s, stream, n);
    var u := Comma(s.(prefix := stream[..n])).value;
    AfterComma(s, stream[..n]);
    RunLine(u, rest[..end]);
    RunConcat(u, rest[..end], rest[end..]);
    assert rest == rest[..end] + rest[end..];
    var t := Run(u, rest[..end]).value;
    var line := Line(stream[..n], rest[..end]);
    LineAdded(s, line, t);
    if end < |rest| || (end > 0 && rest[end - 1] == NEWLINE) {
      RunReads(t, rest[end..]);
      ReadsOneMore(s, stream, n, Run(t, rest[end..]));
    } else {
      assert rest[end..] == [];
      EmptyRun(t, rest[end..]);
      assert Read([]) == Lines([], []);
      LastLine(s, stream, n, t);
    }
  }

  lemma AfterComma(s: State, prefix: Bytes)
    requires AtLineStart(s) && prefix != [] && (InWindow(Stamp(prefix)) ==> Stamp(prefix) % HOUR == 0)
    ensures Comma(s.(prefix := prefix)).Ok?
    ensures var u := Comma(s.(prefix := prefix)).value;
      && Years(u.years) && u.prefix == [] && u.inPayload && u.keep == InWindow(Stamp(prefix))
      && (u.keep ==> u == s.(total := s.total + 1, inPayload := true, keep := true, rows := s.rows + 1,
                             timestamps := s.timestamps + {Stamp(prefix)}, years := Count(s.years, Stamp(prefix)),
                             output := s.output + prefix + [COMMA]))
      && (!u.keep ==> u == s.(total := s.total + 1, inPayload := true))
  {
    hide Stamp;
  }

  lemma LineAdded(s: State, line: Line, t: State)
    requires AtLineStart(s) && line.prefix != [] && (Kept(line) ==> Stamp(line.prefix) % HOUR == 0)
    requires var u := Comma(s.(prefix := line.prefix)).value;
      t.(inPayload := false, keep := false)
      == u.(inPayload := false, keep := false, output := if u.keep then u.output + line.payload else u.output)
    ensures t.(inPayload := false, keep := false) == AddLine(s, line)
  {
    hide Stamp;
    AfterComma(s, line.prefix);
  }

  lemma ReadsOneMore(s: State, stream: Bytes, n: nat, r: Result<State, Fault>)
    requires AtLineStart(s) && n == DigitRun(stream) < |stream| && 0 < n <= 10 && stream[n] == COMMA
    requires InWindow(Stamp(stream[..n])) ==> Stamp(stream[..n]) % HOUR == 0
    requires var rest := stream[n + 1..]; var end := LineLength(rest);
      Reads(AddLine(s, Line(stream[..n], rest[..end])), rest[end..], r)
    ensures Reads(s, stream, r)
  {
    hide Stamp, AddLine, Count;
    var rest := stream[n + 1..];
    var end := LineLength(rest);
    var line := Line(stream[..n], rest[..end]);
    var tail := Read(rest[end..]);
    ReadOneMore(stream, n);
    if tail.Lines? {
      assert ([line] + tail.lines)[1..] == tail.lines;
    }
  }

  lemma LastLine(s: State, stream: Bytes, n: nat, t: State)
    requires AtLineStart(s) && n == DigitRun(stream) < |stream| && 0 < n <= 10 && stream[n] == COMMA
    requires InWindow(Stamp(stream[..n])) ==> Stamp(stream[..n]) % HOUR == 0
    requires LineLength(stream[n + 1..]) == |stream[n + 1..]|
    requires t.(inPayload := false, keep := false) == AddLine(s, Line(stream[..n], stream[n + 1..][..LineLength(stream[n + 1..])]))
    ensures Reads(s, stream, Ok(t))
  {
    hide Stamp, Count;
    var rest := stream[n + 1..];
    assert rest[LineLength(rest)..] == [];
    assert Read([]) == Lines([], []);
    var line := Line(stream[..n], rest[..LineLength(rest)]);
    ReadOneMore(stream, n);
    assert [line] + [] == [line] && [line][1..] == [];
    assert AddLines(AddLine(s, line), []) == AddLine(s, line);
  }

  // ---------- closed forms ----------

  ghost predicate SameTally(s: State, t: State, kept: seq<Line>) {
    && t.rows == s.rows + |kept|
    && t.timestamps == s.timestamps + Stamps(kept)
    && t.output == s.output + Source(kept)
  }

  lemma {:induction false} AddedLines(s: State, lines: seq<Line>)
    requires Years(s.years)
    ensures SameTally(s, AddLines(s, lines), Selected(lines)) && AddLines(s, lines).total == s.total + |lines|
    decreases |lines|
  {
    hide Stamp, Count;
    if lines == [] {
      assert s.output + [] == s.output;
    } else {
      var next := AddLine(s, lines[0]);
      AddedLines(next, lines[1..]);
      if Kept(lines[0]) {
        TallyMore(s, next, AddLines(s, lines), lines[0], Selected(lines[1..]));
      }
    }
  }

  lemma TallyMore(s: State, next: State, t: State, line: Line, kept: seq<Line>)
    requires Years(s.years) && Kept(line) && next == AddLine(s, line) && SameTally(next, t, kept)
    ensures SameTally(s, t, [line] + kept)
  {
    hide Stamp, Count;
    assert ([line] + kept)[1..] == kept;
    assert Source([line] + kept) == line.prefix + [COMMA] + line.payload + Source(kept);
    assert s.output + line.prefix + [COMMA] + line.payload + Source(kept) == s.output + Source([line] + kept);
    assert s.timestamps + {Stamp(line.prefix)} + Stamps(kept) == s.timestamps + Stamps([line] + kept) by {
      StampsMore(line, kept);
    }
  }

  lemma StampsMore(line: Line, kept: seq<Line>)
    ensures Stamps([line] + kept) == Stamps(kept) + {Stamp(line.prefix)}
  {
    assert ([line] + kept)[1..] == kept;
  }

  lemma {:induction false} AddedYears(s: State, lines: seq<Line>, year: int)
    requires Years(s.years) && 2020 <= year <= 2024
    ensures AddLines(s, lines).years[year] == s.years[year] + InYear(lines, year)
    decreases |lines|
  {
    hide Stamp, YearOf;
    if lines != [] {
      AddedYears(AddLine(s, lines[0]), lines[1..], year);
    }
  }

  /** Every kept row belongs to exactly one year. */
  lemma {:induction false} YearsAddUp(lines: seq<Line>)
    ensures InYear(lines, 2020) + InYear(lines, 2021) + InYear(lines, 2022) + InYear(lines, 2023) + InYear(lines, 2024) == |Selected(lines)|
  {
    hide Stamp, YearOf;
    if lines != [] {
      YearsAddUp(lines[1..]);
    }
  }

  // ---------- the hourly grid ----------

  ghost predicate OnGrid(t: int, n: nat) {
    WINDOW_START <= t < WINDOW_START + HOUR * n && (t - WINDOW_START) % HOUR == 0
  }

  /** The first n instants of the grid. */
  ghost function Grid(n: nat): (g: set<int>)
    ensures forall t :: t in g <==> OnGrid(t, n)
    ensures |g| == n
  {
    if n == 0 then {}
    else
      GridStep(n);
      Grid(n - 1) + {WINDOW_START + HOUR * (n - 1)}
  }

  lemma GridStep(n: nat)
    requires n > 0
    ensures forall t :: OnGrid(t, n) <==> OnGrid(t, n - 1) || t == WINDOW_START + HOUR * (n - 1)
    ensures !OnGrid(WINDOW_START + HOUR * (n - 1), n - 1)
  {
  }

  lemma {:induction false} KeptOnGrid(stream: Bytes)
    requires Read(stream).Lines?
    ensures forall i :: 0 <= i < |Read(stream).lines| && Kept(Read(stream).lines[i])
              ==> Stamp(Read(stream).lines[i].prefix) % HOUR == 0
    decreases |stream|
  {
    hide Stamp, YearOf, LineLength;
    var n := DigitRun(stream);
    if n < |stream| {
      var rest := stream[n + 1..];
      KeptOnGrid(rest[LineLength(rest)..]);
    }
  }

  lemma {:induction false} SelectedFrom(lines: seq<Line>, i: nat) returns (j: nat)
    requires i < |Selected(lines)|
    ensures j < |lines| && lines[j] == Selected(lines)[i]
    decreases |lines|
  {
    hide Stamp;
    if Kept(lines[0]) && i == 0 {
      j := 0;
    } else {
      j := SelectedFrom(lines[1..], if Kept(lines[0]) then i - 1 else i);
      j := j + 1;
    }
  }

  lemma StampsOnGrid(stream: Bytes)
    requires Read(stream).Lines?
    ensures Stamps(Selected(Read(stream).lines)) <= Grid(EXPECTED_HOURS)
  {
    hide Stamp;
    var lines := Read(stream).lines;
    var kept := Selected(lines);
    KeptOnGrid(stream);
    forall t | t in Stamps(kept)
      ensures t in Grid(EXPECTED_HOURS)
    {
      var i :| 0 <= i < |kept| && Stamp(kept[i].prefix) == t;
      var j := SelectedFrom(lines, i);
      assert Kept(lines[j]);
      WindowOnGrid(t);
    }
  }

  lemma WindowOnGrid(t: int)
    requires InWindow(t) && t % HOUR == 0
    ensures OnGrid(t, EXPECTED_HOURS)
  {
    assert WINDOW_START % HOUR == 0 && WINDOW_END == WINDOW_START + HOUR * EXPECTED_HOURS;
  }

  lemma {:induction false} StampsAtMostRows(lines: seq<Line>)
    ensures |Stamps(lines)| <= |lines|
  {
    hide Stamp;
    if lines != [] {
      StampsAtMostRows(lines[1..]);
    }
  }

  // ---------- whole streams ----------

  function Whole(blocks: seq<Bytes>): Bytes {
    if blocks == [] then [] else Whole(blocks[..|blocks| - 1]) + blocks[|blocks| - 1]
  }

  /** The inventory and output a stream must lead to. */
  ghost predicate Accounts(lines: seq<Line>, inventory: Inventory, output: Bytes) {
    var kept := Selected(lines);
    && output == Source(kept)
    && inventory.totalRows == |lines| && inventory.rows == |kept|
    && inventory.uniqueTimestamps == |Stamps(kept)|
    && inventory.duplicateTimestamps == |kept| - |Stamps(kept)| && inventory.duplicateTimestamps >= 0
    && inventory.missingHours == |Grid(EXPECTED_HOURS) - Stamps(kept)|
    && Years(inventory.years)
    && (forall year :: 2020 <= year <= 2024 ==> inventory.years[year] == InYear(lines, year))
    && inventory.years[2020] + inventory.years[2021] + inventory.years[2022] + inventory.years[2023] + inventory.years[2024] == |kept|
  }

  lemma FreshAccounts(stream: Bytes, t: State)
    requires Read(stream).Lines? && Years(t.years)
    requires t.(inPayload := false, keep := false) == AddLines(FRESH, Read(stream).lines).(prefix := Read(stream).pending)
    ensures Accounts(Read(stream).lines,
                     Inventory(t.total, t.rows, |t.timestamps|, t.rows - |t.timestamps|, EXPECTED_HOURS - |t.timestamps|, t.years), t.output)
  {
    hide Stamp, Read, AddLines, Selected, Source, Stamps, Grid, InYear;
    var lines := Read(stream).lines;
    assert Years(FRESH.years);
    AddedLines(FRESH, lines);
    var kept := Selected(lines);
    assert [] + Source(kept) == Source(kept) && {} + Stamps(kept) == Stamps(kept);
    StampsOnGrid(stream);
    SubsetSize(Stamps(kept), Grid(EXPECTED_HOURS));
    StampsAtMostRows(kept);
    YearsAddUp(lines);
    forall year | 2020 <= year <= 2024
      ensures t.years[year] == InYear(lines, year)
    {
      AddedYears(FRESH, lines, year);
    }
  }

  /**
   Feeds a stream block by block.  Accepts or rejects by the bytes alone, and on acceptance the output is
   the source text of the lines in the window.
   */
  method SelectWindow(blocks: seq<Bytes>) returns (r: Result<(Inventory, Bytes), Fault>)
    ensures match Read(Whole(blocks))
            case Bad(fault) => r == Err(fault)
            case Lines(lines, pending) =>
              if pending != [] then r == Err(TruncatedPrefix)
              else r.Ok? && Accounts(lines, r.value.0, r.value.1)
  {
    hide Run, Step, Read, Whole, Accounts;
    var window := new Window();
    EmptyWhole();
    EmptyRun(FRESH, []);
    for k := 0 to |blocks|
      invariant Years(window.years)
      invariant Run(FRESH, Whole(blocks[..k])) == Ok(window.Value())
      invariant fresh(window)
    {
      WholeNext(blocks, k);
      RunConcat(FRESH, Whole(blocks[..k]), blocks[k]);
      var fault := window.Feed(blocks[k]);
      if fault.Some? {
        FaultStays(blocks, k + 1, fault.value);
        RunReads(FRESH, Whole(blocks));
        return Err(fault.value);
      }
    }
    assert blocks[..|blocks|] == blocks;
    RunReads(FRESH, Whole(blocks));
    var summary := window.Summary();
    if summary.Err? {
      return Err(summary.error);
    }
    FreshAccounts(Whole(blocks), window.Value());
    r := Ok((summary.value, window.output));
  }

  lemma EmptyWhole()
    ensures Whole([]) == []
  {
  }

  lemma WholeNext(blocks: seq<Bytes>, k: nat)
    requires k < |blocks|
    ensures Whole(blocks[..k + 1]) == Whole(blocks[..k]) + blocks[k]
  {
    assert blocks[..k + 1][..k] == blocks[..k];
  }

  /** After a fault no later block matters. */
  lemma {:induction false} FaultStays(blocks: seq<Bytes>, k: nat, fault: Fault)
    requires k <= |blocks| && Run(FRESH, Whole(blocks[..k])) == Err(fault)
    ensures Run(FRESH, Whole(blocks)) == Err(fault)
    decreases |blocks| - k
  {
    hide Run, Whole;
    if k == |blocks| {
      assert blocks[..k] == blocks;
    } else {
      WholeNext(blocks, k);
      RunConcat(FRESH, Whole(blocks[..k]), blocks[k]);
      FaultStays(blocks, k + 1, fault);
    }
  }

  /** Two cuts of the same bytes leave the selector in the same state, or both fail alike. */
  lemma CutsDoNotMatter(blocks: seq<Bytes>, blocks': seq<Bytes>)
    requires Whole(blocks) == Whole(blocks')
    ensures RunBlocks(FRESH, blocks) == RunBlocks(FRESH, blocks')
  {
    hide Run;
    RunBlocksIsRun(FRESH, blocks);
    RunBlocksIsRun(FRESH, blocks');
  }

  function RunBlocks(s: State, blocks: seq<Bytes>): (r: Result<State, Fault>)
    requires Years(s.years)
    ensures r.Ok? ==> Years(r.value.years)
  {
    if blocks == [] then Ok(s)
    else
      var before :- RunBlocks(s, blocks[..|blocks| - 1]);
      Run(before, blocks[|blocks| - 1])
  }

  lemma {:induction false} RunBlocksIsRun(s: State, blocks: seq<Bytes>)
    requires Years(s.years)
    ensures RunBlocks(s, blocks) == Run(s, Whole(blocks))
  {
    hide Run;
    if blocks == [] {
      EmptyRun(s, []);
    } else {
      RunBlocksIsRun(s, blocks[..|blocks| - 1]);
      RunConcat(s, Whole(blocks[..|blocks| - 1]), blocks[|blocks| - 1]);
    }
  }
}
