/**
 Row framing for the content hashes: which rows are admitted, the bytes fed to SHA-256, and why those
 bytes determine the domain, the fingerprint and the rows.  SHA-256 itself is a parameter.
 */
module RowFraming {
  import opened Wrappers
  import opened Digits
  import opened Decimals
  import opened Q18
  import opened Jcs
  import opened JcsInjective
  import opened JcsCanonical
  import opened JcsSerializer
  import opened JcsReader
  import opened Framing
  import opened Utf8

  datatype Schema = Canonical | Research

  datatype RowFault =
    | WrongLength | FloatForbidden | NotAdmitted
    | NeverNull(column: nat) | NotQ18(column: nat) | NotInt(column: nat)

  const CANONICAL_DOMAIN := "quantara-canonical-content-v1"
  const RESEARCH_DOMAIN := "quantara-research-content-v1"
  const CANONICAL_FIELDS: nat := 23
  const RESEARCH_FIELDS: nat := 7
  const RESEARCH_IS_DECIMAL: seq<bool> := [false, true, true, true, true, true, false]
  const RESEARCH_NULLABLE: seq<bool> := [false, true, true, true, true, true, true]

  function Domain(schema: Schema): string {
    if schema.Canonical? then CANONICAL_DOMAIN else RESEARCH_DOMAIN
  }

  function Fields(schema: Schema): nat {
    if schema.Canonical? then CANONICAL_FIELDS else RESEARCH_FIELDS
  }

  // ---------- decimals at eighteen digits ----------

  function Unsigned(s: string): string {
    if s != "" && s[0] == '-' then s[1..] else s
  }

  /** An optional minus sign, at least one digit, a point, exactly eighteen digits. */
  predicate IsQ18(s: string) {
    var u := Unsigned(s);
    |u| >= 20 && u[|u| - 19] == '.' && DigitText(u[..|u| - 19]) && DigitText(u[|u| - 18..])
  }

  /** The kernel's test: cut at the first point and look at both sides. */
  predicate ValidQ18(s: string) {
    var u := Unsigned(s);
    var i := IndexOf(u, '.', '.');
    i < |u| && i > 0 && DigitText(u[..i]) && |u[i + 1..]| == 18 && DigitText(u[i + 1..])
  }

  lemma ValidQ18IsPattern(s: string)
    ensures ValidQ18(s) <==> IsQ18(s)
  {
    var u := Unsigned(s);
    if IsQ18(s) {
      assert forall k :: 0 <= k < |u| - 19 ==> u[..|u| - 19][k] == u[k];
    }
  }

  /** Everything the renderer prints is admitted as a decimal column. */
  lemma RenderedIsQ18(m: int)
    ensures IsQ18(RenderQuanta(m))
  {
    var digits := PadTo19(NatText(Magnitude(m)));
    assert DigitText(digits);
    var p := PointBefore18(digits);
    assert p[0] == digits[0] && IsDigit(p[0]);
    assert RenderQuanta(m) == if m < 0 then "-" + p else p;
    assert Unsigned(RenderQuanta(m)) == p;
    assert p[..|p| - 19] == digits[..|digits| - 18] && p[|p| - 18..] == digits[|digits| - 18..];
  }

  // ---------- admitted rows ----------

  /** What is wrong with the value in column k, if anything. */
  function ColumnFault(schema: Schema, k: nat, value: Json): Option<RowFault>
    requires k < Fields(schema)
  {
    if value.Float? then Some(FloatForbidden)
    else if schema.Canonical? then
      if value.Str? || value.Int? || value.Bool? then None else Some(NotAdmitted)
    else if value.Null? then
      if RESEARCH_NULLABLE[k] then None else Some(NeverNull(k))
    else if RESEARCH_IS_DECIMAL[k] then
      if value.Str? && IsQ18(value.s) then None else Some(NotQ18(k))
    else
      if value.Int? then None else Some(NotInt(k))
  }

  function FaultFrom(schema: Schema, row: seq<Json>, k: nat): Option<RowFault>
    requires |row| == Fields(schema) && k <= |row|
    decreases |row| - k
  {
    if k == |row| then None
    else
      var fault := ColumnFault(schema, k, row[k]);
      if fault.Some? then fault else FaultFrom(schema, row, k + 1)
  }

  /** The leftmost fault of a row. */
  function FaultOf(schema: Schema, row: seq<Json>): Option<RowFault> {
    if |row| != Fields(schema) then Some(WrongLength) else FaultFrom(schema, row, 0)
  }

  /** The fault of the first faulty row. */
  function FirstFault(schema: Schema, rows: seq<seq<Json>>): Option<RowFault> {
    if rows == [] then None
    else
      var fault := FaultOf(schema, rows[0]);
      if fault.Some? then fault else FirstFault(schema, rows[1..])
  }

  ghost predicate Scalar(v: Json) {
    v.Null? || v.Bool? || v.Int? || v.Str?
  }

  lemma {:induction false} AdmittedIsScalar(schema: Schema, row: seq<Json>, k: nat)
    requires |row| == Fields(schema) && k <= |row| && FaultFrom(schema, row, k).None?
    ensures forall i :: k <= i < |row| ==> Scalar(row[i])
    decreases |row| - k
  {
    if k < |row| {
      AdmittedIsScalar(schema, row, k + 1);
    }
  }

  // ---------- the stream ----------

  /** ASCII lower case. */
  function Lower(s: string): (t: string)
    ensures |t| == |s|
    ensures forall i :: 0 <= i < |s| ==> t[i] as int == s[i] as int + if 'A' <= s[i] <= 'Z' then 32 else 0
    ensures (forall i :: 0 <= i < |s| ==> s[i] != '\n') ==> forall i :: 0 <= i < |t| ==> t[i] != '\n'
  {
    if s == "" then ""
    else
      [if 'A' <= s[0] <= 'Z' then (s[0] as int + 32) as char else s[0]] + Lower(s[1..])
  }

  function RowBytes(row: seq<Json>): Bytes {
    Encode(Text(Arr(row)))
  }

  function RowPieces(rows: seq<seq<Json>>): (p: seq<Bytes>)
    ensures |p| == |rows| && forall i :: 0 <= i < |rows| ==> p[i] == RowBytes(rows[i])
  {
    if rows == [] then [] else [RowBytes(rows[0])] + RowPieces(rows[1..])
  }

  function Header(domain: string, fingerprint: string): Bytes {
    Encode(domain) + [0] + Encode(Lower(fingerprint)) + [10]
  }

  /** domain NUL fingerprint NL, then every row's canonical text and NL. */
  function Stream(domain: string, fingerprint: string, rows: seq<seq<Json>>): Bytes {
    Header(domain, fingerprint) + Terminated(RowPieces(rows), 10)
  }

  function ContentHash(sha: Bytes -> string, schema: Schema, fingerprint: string, rows: seq<seq<Json>>): Result<string, RowFault> {
    match FirstFault(schema, rows)
    case Some(fault) => Err(fault)
    case None => Ok(sha(Stream(Domain(schema), fingerprint, rows)))
  }

  // ---------- the stream determines its parts ----------

  lemma RowIsOneLine(row: seq<Json>)
    ensures Free(RowBytes(row), 10)
  {
    hide Text, Encode;
    TextHasNoControls(Arr(row));
    AsciiByteAbsent(Text(Arr(row)), 10);
  }

  lemma ScalarRowValid(schema: Schema, row: seq<Json>)
    requires FaultOf(schema, row).None?
    ensures Valid(Arr(row)) && FloatFree(Arr(row)) && forall i :: 0 <= i < |row| ==> Scalar(row[i])
  {
    AdmittedIsScalar(schema, row, 0);
  }

  lemma RowBytesInjective(schema: Schema, row: seq<Json>, schema': Schema, row': seq<Json>)
    requires FaultOf(schema, row).None? && FaultOf(schema', row').None?
    requires RowBytes(row) == RowBytes(row')
    ensures row == row'
  {
    hide Text, Encode, FaultOf;
    ScalarRowValid(schema, row);
    ScalarRowValid(schema', row');
    EncodeInjective(Text(Arr(row)), Text(Arr(row')));
    CanonicalTextDecides(Arr(row), Arr(row'));
    SameScalars(row, row');
  }

  lemma SameScalars(row: seq<Json>, row': seq<Json>)
    requires Same(Arr(row), Arr(row')) && forall i :: 0 <= i < |row| ==> Scalar(row[i])
    ensures row == row'
  {
    forall i | 0 <= i < |row|
      ensures row[i] == row'[i]
    {
      assert Same(row[i], row'[i]);
    }
  }

  lemma {:induction false} FaultFreeRow(schema: Schema, rows: seq<seq<Json>>, i: nat)
    requires FirstFault(schema, rows).None? && i < |rows|
    ensures FaultOf(schema, rows[i]).None?
  {
    hide FaultOf;
    if i > 0 {
      FaultFreeRow(schema, rows[1..], i - 1);
    }
  }

  lemma HeaderSplits(d: string, f: string, rest: Bytes)
    ensures Header(d, f) + rest == Encode(d) + [0] + (Encode(Lower(f)) + [10] + rest)
  {
    hide Encode, Lower;
  }

  lemma HeaderDetermines(d: string, f: string, d': string, f': string, rest: Bytes, rest': Bytes)
    requires forall i :: 0 <= i < |d| ==> d[i] as int != 0
    requires forall i :: 0 <= i < |d'| ==> d'[i] as int != 0
    requires forall i :: 0 <= i < |f| ==> f[i] != '\n'
    requires forall i :: 0 <= i < |f'| ==> f'[i] != '\n'
    requires Header(d, f) + rest == Header(d', f') + rest'
    ensures d == d' && Lower(f) == Lower(f') && rest == rest'
  {
    hide Encode, Lower, Header;
    AsciiByteAbsent(d, 0);
    AsciiByteAbsent(d', 0);
    AsciiByteAbsent(Lower(f), 10);
    AsciiByteAbsent(Lower(f'), 10);
    var x, x' := Encode(Lower(f)) + [10] + rest, Encode(Lower(f')) + [10] + rest';
    HeaderSplits(d, f, rest);
    HeaderSplits(d', f', rest');
    FirstPiece(Encode(d), x, Encode(d'), x', 0);
    FirstPiece(Encode(Lower(f)), rest, Encode(Lower(f')), rest', 10);
    EncodeInjective(d, d');
    EncodeInjective(Lower(f), Lower(f'));
  }

  /** Equal streams come from the same domain, the same fingerprint up to case and the same rows. */
  lemma StreamDetermines(schema: Schema, fingerprint: string, rows: seq<seq<Json>>,
                         schema': Schema, fingerprint': string, rows': seq<seq<Json>>)
    requires FirstFault(schema, rows).None? && FirstFault(schema', rows').None?
    requires forall i :: 0 <= i < |fingerprint| ==> fingerprint[i] != '\n'
    requires forall i :: 0 <= i < |fingerprint'| ==> fingerprint'[i] != '\n'
    ensures Stream(Domain(schema), fingerprint, rows) == Stream(Domain(schema'), fingerprint', rows')
            <==> schema == schema' && Lower(fingerprint) == Lower(fingerprint') && rows == rows'
  {
    hide Header, Lower, RowBytes, FirstFault;
    var p, p' := RowPieces(rows), RowPieces(rows');
    if Stream(Domain(schema), fingerprint, rows) == Stream(Domain(schema'), fingerprint', rows') {
      HeaderDetermines(Domain(schema), fingerprint, Domain(schema'), fingerprint', Terminated(p, 10), Terminated(p', 10));
      DomainsDiffer(schema, schema');
      PiecesDetermine(schema, rows, schema', rows');
    }
    if schema == schema' && Lower(fingerprint) == Lower(fingerprint') && rows == rows' {
      SameHeader(Domain(schema), fingerprint, fingerprint');
    }
  }

  lemma SameHeader(domain: string, f: string, f': string)
    requires Lower(f) == Lower(f')
    ensures Header(domain, f) == Header(domain, f')
  {
  }

  lemma DomainsDiffer(schema: Schema, schema': Schema)
    requires Domain(schema) == Domain(schema')
    ensures schema == schema'
  {
    assert |CANONICAL_DOMAIN| == 29 && |RESEARCH_DOMAIN| == 28;
  }

  lemma PiecesDetermine(schema: Schema, rows: seq<seq<Json>>, schema': Schema, rows': seq<seq<Json>>)
    requires FirstFault(schema, rows).None? && FirstFault(schema', rows').None?
    requires Terminated(RowPieces(rows), 10) == Terminated(RowPieces(rows'), 10)
    ensures rows == rows'
  {
    hide RowBytes, FirstFault, FaultOf, Terminated;
    var p, p' := RowPieces(rows), RowPieces(rows');
    forall i | 0 <= i < |rows|
      ensures Free(p[i], 10)
    {
      RowIsOneLine(rows[i]);
    }
    forall i | 0 <= i < |rows'|
      ensures Free(p'[i], 10)
    {
      RowIsOneLine(rows'[i]);
    }
    TerminatedInjective(p, p', 10);
    forall i | 0 <= i < |rows|
      ensures rows[i] == rows'[i]
    {
      FaultFreeRow(schema, rows, i);
      FaultFreeRow(schema', rows', i);
      assert p[i] == p'[i];
      RowBytesInjective(schema, rows[i], schema', rows'[i]);
    }
  }

  /** Where SHA-256 does not collide on the two streams, equal content hashes mean equal content. */
  lemma ContentHashDecides(sha: Bytes -> string, schema: Schema, fingerprint: string, rows: seq<seq<Json>>,
                           schema': Schema, fingerprint': string, rows': seq<seq<Json>>)
    requires forall i :: 0 <= i < |fingerprint| ==> fingerprint[i] != '\n'
    requires forall i :: 0 <= i < |fingerprint'| ==> fingerprint'[i] != '\n'
    requires var a, b := Stream(Domain(schema), fingerprint, rows), Stream(Domain(schema'), fingerprint', rows');
             sha(a) == sha(b) ==> a == b
    requires ContentHash(sha, schema, fingerprint, rows).Ok? && ContentHash(sha, schema', fingerprint', rows').Ok?
    ensures ContentHash(sha, schema, fingerprint, rows) == ContentHash(sha, schema', fingerprint', rows')
            <==> schema == schema' && Lower(fingerprint) == Lower(fingerprint') && rows == rows'
  {
    hide Stream, Lower, FirstFault;
    StreamDetermines(schema, fingerprint, rows, schema', fingerprint', rows');
  }

  // ---------- what is admitted, and what a line says ----------

  /** The fault found is the leftmost one. */
  lemma {:induction false} LeftmostFault(schema: Schema, row: seq<Json>, k: nat, i: nat)
    requires |row| == Fields(schema) && k <= i < |row|
    requires ColumnFault(schema, i, row[i]).Some? && forall j :: k <= j < i ==> ColumnFault(schema, j, row[j]).None?
    ensures FaultFrom(schema, row, k) == ColumnFault(schema, i, row[i])
    decreases i - k
  {
    hide ColumnFault;
    if k < i {
      LeftmostFault(schema, row, k + 1, i);
    }
  }

  lemma {:induction false} NoFaultFrom(schema: Schema, row: seq<Json>, k: nat)
    requires |row| == Fields(schema) && k <= |row|
    ensures FaultFrom(schema, row, k).None? <==> forall i :: k <= i < |row| ==> ColumnFault(schema, i, row[i]).None?
    decreases |row| - k
  {
    hide ColumnFault;
    if k < |row| {
      NoFaultFrom(schema, row, k + 1);
    }
  }

  /** A canonical row is 23 strings, integers or booleans. */
  lemma CanonicalAdmits(row: seq<Json>)
    ensures FaultOf(Canonical, row).None? <==>
      |row| == 23 && forall i :: 0 <= i < 23 ==> row[i].Str? || row[i].Int? || row[i].Bool?
  {
    hide FaultFrom;
    if |row| == 23 {
      NoFaultFrom(Canonical, row, 0);
    }
  }

  /** A research row is an integer time, five decimals of eighteen digits or nulls, and an integer direction or null. */
  lemma ResearchAdmits(row: seq<Json>)
    ensures FaultOf(Research, row).None? <==>
      && |row| == 7 && row[0].Int? && (row[6].Int? || row[6].Null?)
      && forall i :: 1 <= i < 6 ==> row[i].Null? || (row[i].Str? && IsQ18(row[i].s))
  {
    hide FaultFrom, IsQ18;
    if |row| == 7 {
      NoFaultFrom(Research, row, 0);
      forall i | 0 <= i < 7
        ensures ColumnFault(Research, i, row[i]).None? <==>
          if i == 0 then row[i].Int? else if i == 6 then row[i].Int? || row[i].Null?
          else row[i].Null? || (row[i].Str? && IsQ18(row[i].s))
      {
        assert i == 0 || i == 1 || i == 2 || i == 3 || i == 4 || i == 5 || i == 6;
      }
    }
  }

  lemma {:induction false} ScalarItemsKeep(v: Json, row: seq<Json>)
    requires forall i :: 0 <= i < |row| ==> row[i] < v && Scalar(row[i])
    ensures CanonItems(v, row) == row
    decreases |row|
  {
    if row != [] {
      ScalarItemsKeep(v, row[1..]);
      assert [row[0]] + row[1..] == row;
    }
  }

  /** The line hashed for an admitted row, decoded and read as JSON, is the row itself, columns in order. */
  lemma LineReadsBack(schema: Schema, row: seq<Json>)
    requires FaultOf(schema, row).None?
    ensures Decode(RowBytes(row)).Some? && ReadValue(Decode(RowBytes(row)).value) == Some((Arr(row), ""))
  {
    hide Decode, Encode, ReadValue, Text, FaultOf, CanonItems;
    ScalarRowValid(schema, row);
    DecodeEncoded(Text(Arr(row)));
    CanonicalTextReadsBack(Arr(row));
    ScalarItemsKeep(Arr(row), row);
  }

  /**
   The hash is that of the domain, a zero byte, the lower-cased fingerprint, a line feed, and one line
   for every row; it is refused exactly with the first faulty row's fault.
   */
  lemma HashedBytes(sha: Bytes -> string, schema: Schema, fingerprint: string, rows: seq<seq<Json>>)
    ensures ContentHash(sha, schema, fingerprint, rows).Ok? <==> forall i :: 0 <= i < |rows| ==> FaultOf(schema, rows[i]).None?
    ensures ContentHash(sha, schema, fingerprint, rows).Ok? ==>
      ContentHash(sha, schema, fingerprint, rows).value ==
        sha(Encode(if schema.Canonical? then "quantara-canonical-content-v1" else "quantara-research-content-v1")
            + [0] + Encode(Lower(fingerprint)) + [10] + Terminated(RowPieces(rows), 10))
    ensures forall i :: 0 <= i < |rows| && FaultOf(schema, rows[i]).Some? && (forall j :: 0 <= j < i ==> FaultOf(schema, rows[j]).None?) ==>
      ContentHash(sha, schema, fingerprint, rows) == Err(FaultOf(schema, rows[i]).value)
  {
    hide FaultOf, Encode, Lower, Terminated, RowPieces;
    FirstFaultIs(schema, rows);
  }

  lemma {:induction false} FirstFaultIs(schema: Schema, rows: seq<seq<Json>>)
    ensures FirstFault(schema, rows).None? <==> forall i :: 0 <= i < |rows| ==> FaultOf(schema, rows[i]).None?
    ensures forall i :: 0 <= i < |rows| && FaultOf(schema, rows[i]).Some? && (forall j :: 0 <= j < i ==> FaultOf(schema, rows[j]).None?) ==>
      FirstFault(schema, rows) == FaultOf(schema, rows[i])
    decreases |rows|
  {
    hide FaultOf;
    if rows != [] {
      var rest := rows[1..];
      FirstFaultIs(schema, rest);
      assert forall i :: 0 < i < |rows| ==> rows[i] == rest[i - 1];
      forall i | 0 <= i < |rows| && FaultOf(schema, rows[i]).Some? && (forall j :: 0 <= j < i ==> FaultOf(schema, rows[j]).None?)
        ensures FirstFault(schema, rows) == FaultOf(schema, rows[i])
      {
        if i > 0 {
          assert forall j :: 0 <= j < i - 1 ==> rest[j] == rows[j + 1];
        }
      }
    }
  }
}
