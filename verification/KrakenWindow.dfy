/**
 The streaming selector over the Kraken hourly file.  It is fed arbitrary blocks of the decompressed
 member and keeps, byte for byte, the lines whose timestamp lies in the five-year window.
 */
module KrakenWindow {
  import opened Wrappers
  import opened Utf8
  import opened Calendar
  import opened Digits

  const COMMA: byte := 44
  const NEWLINE: byte := 10
  const WINDOW_START: int := 1577836800
  const WINDOW_END: int := 1735689600
  const HOUR: int := 3600
  const EXPECTED_HOURS: int := 43848

  datatype Fault = InvalidPrefix | MissingPrefix | OffGrid | TruncatedPrefix

  predicate IsDigitByte(b: byte) {
    48 <= b <= 57
  }

  /** The number an ASCII digit string stands for. */
  function Stamp(prefix: Bytes): int {
    if prefix == [] then 0
    else
      var last: int := prefix[|prefix| - 1];
      10 * Stamp(prefix[..|prefix| - 1]) + (last - 48)
  }

  predicate InWindow(t: int) {
    WINDOW_START <= t < WINDOW_END
  }

  /** The UTC year of an instant in the window. */
  function YearOf(t: int): (y: int)
    requires InWindow(t)
    ensures 2020 <= y <= 2024
  {
    if t < 1609459200 then 2020
    else if t < 1640995200 then 2021
    else if t < 1672531200 then 2022
    else if t < 1704067200 then 2023
    else 2024
  }

  /** The window is the five calendar years from 2020, hour by hour. */
  lemma WindowIsFiveYears(t: int)
    ensures InWindow(t) <==> YearStart(2020) <= t < YearStart(2025)
    ensures EXPECTED_HOURS * HOUR == YearStart(2025) - YearStart(2020)
  {
  }

  lemma YearOfContains(t: int)
    requires InWindow(t)
    ensures YearStart(YearOf(t)) <= t < YearStart(YearOf(t) + 1)
  {
  }

  /** A row is counted for the calendar year its instant lies in. */
  lemma YearOfIsCalendarYear(t: int, year: int)
    requires InWindow(t)
    ensures YearOf(t) == year <==> YearStart(year) <= t < YearStart(year + 1)
  {
    hide YearStart, YearOf;
    YearOfContains(t);
    if YearStart(year) <= t < YearStart(year + 1) {
      InOneYear(t, year, YearOf(t));
    }
  }

  /** The timestamp of a prefix is the number its digits write. */
  lemma {:induction false} StampIsWrittenNumber(prefix: Bytes, text: string)
    requires |prefix| == |text| && AllDigits(text)
    requires forall i :: 0 <= i < |text| ==> prefix[i] as int == text[i] as int
    ensures Stamp(prefix) == NatOf(text)
    decreases |prefix|
  {
    if prefix != [] {
      StampIsWrittenNumber(prefix[..|prefix| - 1], text[..|text| - 1]);
    }
  }

  const NO_ROWS: map<int, nat> := map[2020 := 0, 2021 := 0, 2022 := 0, 2023 := 0, 2024 := 0]

  // ---------- one byte at a time ----------

  datatype State = State(
    prefix: Bytes, inPayload: bool, keep: bool, total: nat, rows: nat,
    timestamps: set<int>, years: map<int, nat>, output: Bytes)

  const FRESH := State([], false, false, 0, 0, {}, NO_ROWS, [])

  ghost predicate Years(years: map<int, nat>) {
    forall y :: y in years <==> 2020 <= y <= 2024
  }

  function Count(years: map<int, nat>, t: int): (y: map<int, nat>)
    requires Years(years) && InWindow(t)
    ensures Years(y)
  {
    years[YearOf(t) := years[YearOf(t)] + 1]
  }

  /** The comma ends a timestamp: count the row, and keep it when it lies in the window. */
  function Comma(s: State): (r: Result<State, Fault>)
    requires Years(s.years)
    ensures r.Ok? ==> Years(r.value.years)
  {
    if s.prefix == [] then Err(MissingPrefix)
    else
      var t := Stamp(s.prefix);
      var counted := s.(total := s.total + 1, prefix := [], inPayload := true, keep := InWindow(t));
      if !InWindow(t) then Ok(counted)
      else if t % HOUR != 0 then Err(OffGrid)
      else Ok(counted.(rows := s.rows + 1, timestamps := s.timestamps + {t}, years := Count(s.years, t),
                       output := s.output + s.prefix + [COMMA]))
  }

  function Step(s: State, b: byte): (r: Result<State, Fault>)
    requires Years(s.years)
    ensures r.Ok? ==> Years(r.value.years)
  {
    if s.inPayload then
      var written := if s.keep then s.output + [b] else s.output;
      Ok(s.(output := written, inPayload := b != NEWLINE, keep := s.keep && b != NEWLINE))
    else if b == COMMA then Comma(s)
    else if !IsDigitByte(b) || |s.prefix| >= 10 then Err(InvalidPrefix)
    else Ok(s.(prefix := s.prefix + [b]))
  }

  function Run(s: State, bytes: Bytes): (r: Result<State, Fault>)
    requires Years(s.years)
    ensures r.Ok? ==> Years(r.value.years)
    decreases |bytes|
  {
    if bytes == [] then Ok(s)
    else
      var next :- Step(s, bytes[0]);
      Run(next, bytes[1..])
  }

  /** Running two blocks in turn is running their concatenation. */
  lemma {:induction false} RunConcat(s: State, a: Bytes, b: Bytes)
    requires Years(s.years)
    ensures Run(s, a + b) == match Run(s, a) case Ok(t) => Run(t, b) case Err(e) => Err(e)
    decreases |a|
  {
    hide Step;
    if a == [] {
      assert a + b == b;
    } else {
      assert (a + b)[0] == a[0] && (a + b)[1..] == a[1..] + b;
      match Step(s, a[0])
      case Ok(next) => RunConcat(next, a[1..], b);
      case Err(_) =>
    }
  }

  lemma PayloadByte(s: State, b: byte)
    requires Years(s.years) && s.inPayload && b != NEWLINE
    ensures Step(s, b) == Ok(s.(output := if s.keep then s.output + [b] else s.output))
  {
  }

  /** Inside a payload, everything up to the line break is copied or skipped as one slice. */
  lemma {:induction false} RunPayload(s: State, chunk: Bytes)
    requires Years(s.years) && s.inPayload && forall i :: 0 <= i < |chunk| ==> chunk[i] != NEWLINE
    ensures Run(s, chunk) == Ok(s.(output := if s.keep then s.output + chunk else s.output))
    decreases |chunk|
  {
    hide Step, Years;
    if chunk == [] {
      assert s.output + chunk == s.output;
    } else {
      PayloadByte(s, chunk[0]);
      RunPayload(s.(output := if s.keep then s.output + [chunk[0]] else s.output), chunk[1..]);
      assert s.output + [chunk[0]] + chunk[1..] == s.output + chunk;
    }
  }

  lemma RunOne(s: State, b: byte)
    requires Years(s.years)
    ensures Run(s, [b]) == Step(s, b)
  {
    hide Step;
    assert [b][1..] == [];
  }

  lemma RunLineEnd(s: State, chunk: Bytes)
    requires Years(s.years) && s.inPayload && forall i :: 0 <= i < |chunk| ==> chunk[i] != NEWLINE
    ensures Run(s, chunk + [NEWLINE])
         == Ok(s.(output := if s.keep then s.output + (chunk + [NEWLINE]) else s.output, inPayload := false, keep := false))
  {
    hide Run;
    RunPayload(s, chunk);
    RunConcat(s, chunk, [NEWLINE]);
    var t := s.(output := if s.keep then s.output + chunk else s.output);
    RunOne(t, NEWLINE);
    assert s.output + chunk + [NEWLINE] == s.output + (chunk + [NEWLINE]);
  }

  // ---------- the selector ----------

  /** Index of the first line break at or after the cursor, or the length. */
  method FindNewline(block: Bytes, cursor: nat) returns (i: nat)
    requires cursor <= |block|
    ensures cursor <= i <= |block| && (i < |block| ==> block[i] == NEWLINE)
    ensures forall k :: cursor <= k < i ==> block[k] != NEWLINE
  {
    i := cursor;
    while i < |block| && block[i] != NEWLINE
      invariant cursor <= i <= |block|
      invariant forall k :: cursor <= k < i ==> block[k] != NEWLINE
    {
      i := i + 1;
    }
  }

  datatype Inventory = Inventory(
    totalRows: nat, rows: nat, uniqueTimestamps: int, duplicateTimestamps: int, missingHours: int,
    years: map<int, nat>)

  class Window {
    var prefix: Bytes
    var inPayload: bool
    var keep: bool
    var total: nat
    var rows: nat
    var timestamps: set<int>
    var years: map<int, nat>
    var output: Bytes

    function Value(): State
      reads this
    {
      State(prefix, inPayload, keep, total, rows, timestamps, years, output)
    }

    constructor ()
      ensures Value() == FRESH && Years(years)
    {
      prefix, inPayload, keep, total, rows := [], false, false, 0, 0;
      timestamps, years, output := {}, NO_ROWS, [];
    }

    /** Handles the byte that ends a timestamp. */
    method EndPrefix() returns (fault: Option<Fault>)
      requires Years(years) && !inPayload
      modifies this
      ensures match Comma(old(Value())) case Ok(s) => fault == None && Value() == s && Years(years) case Err(e) => fault == Some(e)
    {
      if prefix == [] {
        return Some(MissingPrefix);
      }
      var timestamp := Stamp(prefix);
      keep := InWindow(timestamp);
      total := total + 1;
      if keep {
        if timestamp % HOUR != 0 {
          return Some(OffGrid);
        }
        rows := rows + 1;
        timestamps := timestamps + {timestamp};
        years := years[YearOf(timestamp) := years[YearOf(timestamp)] + 1];
        output := output + prefix;
        output := output + [COMMA];
      }
      prefix := [];
      inPayload := true;
      fault := None;
    }

    /** A block of any size; slices of payload are handled at once. */
    method Feed(block: Bytes) returns (fault: Option<Fault>)
      requires Years(years)
      modifies this
      ensures match Run(old(Value()), block)
              case Ok(s) => fault == None && Value() == s && Years(years)
              case Err(e) => fault == Some(e)
    {
      hide Run, Step, Comma, IsDigitByte;
      var cursor := 0;
      assert block[0..] == block;
      while cursor < |block|
        invariant 0 <= cursor <= |block| && Years(years)
        invariant Run(Value(), block[cursor..]) == Run(old(Value()), block)
      {
        ghost var before := Value();
        if !inPayload {
          var b := block[cursor];
          NextByte(before, block, cursor);
          cursor := cursor + 1;
          if b != COMMA {
            PrefixByte(before, b);
            if !IsDigitByte(b) || |prefix| >= 10 {
              return Some(InvalidPrefix);
            }
            prefix := prefix + [b];
            continue;
          }
          CommaByte(before);
          fault := EndPrefix();
          if fault.Some? {
            return;
          }
        } else {
          var newline := FindNewline(block, cursor);
          var end := if newline == |block| then newline else newline + 1;
          PayloadSlice(before, block, cursor, newline);
          if keep {
            output := output + block[cursor..end];
          }
          cursor := end;
          if newline < |block| {
            inPayload := false;
            keep := false;
          }
        }
      }
      EmptyRun(Value(), block[cursor..]);
      fault := None;
    }

    /** What was selected, once the stream has ended. */
    method Summary() returns (r: Result<Inventory, Fault>)
      ensures prefix != [] ==> r == Err(TruncatedPrefix)
      ensures prefix == [] ==> r == Ok(Inventory(total, rows, |timestamps|, rows - |timestamps|, EXPECTED_HOURS - |timestamps|, years))
    {
      if prefix != [] {
        return Err(TruncatedPrefix);
      }
      r := Ok(Inventory(total, rows, |timestamps|, rows - |timestamps|, EXPECTED_HOURS - |timestamps|, years));
    }
  }

  lemma EmptyRun(s: State, rest: Bytes)
    requires Years(s.years) && rest == []
    ensures Run(s, rest) == Ok(s)
  {
  }

  lemma NextByte(s: State, block: Bytes, cursor: nat)
    requires Years(s.years) && cursor < |block|
    ensures Run(s, block[cursor..]) == match Step(s, block[cursor])
                                       case Ok(t) => Run(t, block[cursor + 1..])
                                       case Err(e) => Err(e)
  {
    hide Step;
    assert block[cursor..][1..] == block[cursor + 1..];
  }

  lemma PrefixByte(s: State, b: byte)
    requires Years(s.years) && !s.inPayload && b != COMMA
    ensures Step(s, b) == if !IsDigitByte(b) || |s.prefix| >= 10 then Err(InvalidPrefix) else Ok(s.(prefix := s.prefix + [b]))
  {
  }

  lemma CommaByte(s: State)
    requires Years(s.years) && !s.inPayload
    ensures Step(s, COMMA) == Comma(s)
  {
  }

  lemma PayloadSlice(s: State, block: Bytes, cursor: nat, newline: nat)
    requires Years(s.years) && s.inPayload && cursor <= newline <= |block|
    requires forall k :: cursor <= k < newline ==> block[k] != NEWLINE
    requires newline < |block| ==> block[newline] == NEWLINE
    ensures newline == |block| ==>
      Run(s, block[cursor..]) == Run(s.(output := if s.keep then s.output + block[cursor..newline] else s.output), block[newline..])
    ensures newline < |block| ==>
      Run(s, block[cursor..]) == Run(s.(output := if s.keep then s.output + block[cursor..newline + 1] else s.output,
                                       inPayload := false, keep := false), block[newline + 1..])
  {
    hide Run;
    var chunk := block[cursor..newline];
    if newline == |block| {
      assert block[cursor..] == chunk;
      RunPayload(s, chunk);
      EmptyRun(s.(output := if s.keep then s.output + chunk else s.output), block[newline..]);
    } else {
      assert block[cursor..newline + 1] == chunk + [NEWLINE];
      assert block[cursor..] == block[cursor..newline + 1] + block[newline + 1..];
      RunLineEnd(s, chunk);
      RunConcat(s, chunk + [NEWLINE], block[newline + 1..]);
    }
  }
}
