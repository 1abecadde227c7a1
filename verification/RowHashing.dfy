/**
 The two implementations of the content hash.  The Python form validates a row, canonicalizes it and
 feeds one line; the kernel feeds the hash piece by piece while it validates.  Both are proved against
 the same specification, so they accept alike, report the same fault and hash the same bytes.
 */
module RowHashing {
  import opened Wrappers
  import opened Digits
  import opened JsonStrings
  import opened Jcs
  import opened JcsInjective
  import opened JcsSerializer
  import opened Framing
  import opened Utf8
  import opened RowFraming

  /** A running SHA-256: only the bytes fed so far matter. */
  class Digest {
    var fed: Bytes

    constructor ()
      ensures fed == []
    {
      fed := [];
    }

    method Update(b: Bytes)
      modifies this
      ensures fed == old(fed) + b
    {
      fed := fed + b;
    }
  }

  method HashPrefix(domain: string, fingerprint: string) returns (digest: Digest)
    ensures fresh(digest) && digest.fed == Header(domain, fingerprint)
    ensures digest.fed == Encode(domain) + [0] + Encode(Lower(fingerprint)) + [10]
  {
    hide Encode, Lower;
    digest := new Digest();
    digest.Update(Encode(domain));
    digest.Update([0]);
    digest.Update(Encode(Lower(fingerprint)));
    digest.Update([10]);
    assert [] + Encode(domain) == Encode(domain);
  }

  // ---------- the Python form ----------

  method CanonicalRowArray(row: seq<Json>) returns (r: Result<Json, RowFault>)
    ensures r == match FaultOf(Canonical, row) case Some(f) => Err(f) case None => Ok(Arr(row))
  {
    if |row| != CANONICAL_FIELDS {
      return Err(WrongLength);
    }
    for k := 0 to |row|
      invariant FaultFrom(Canonical, row, 0) == FaultFrom(Canonical, row, k)
    {
      if row[k].Float? {
        return Err(FloatForbidden);
      }
      if !(row[k].Str? || row[k].Int? || row[k].Bool?) {
        return Err(NotAdmitted);
      }
    }
    r := Ok(Arr(row));
  }

  method ResearchRowArray(row: seq<Json>) returns (r: Result<Json, RowFault>)
    ensures r == match FaultOf(Research, row) case Some(f) => Err(f) case None => Ok(Arr(row))
  {
    hide IsQ18;
    if |row| != RESEARCH_FIELDS {
      return Err(WrongLength);
    }
    for k := 0 to |row|
      invariant FaultFrom(Research, row, 0) == FaultFrom(Research, row, k)
    {
      var value := row[k];
      if value.Float? {
        return Err(FloatForbidden);
      }
      if value.Null? {
        if !RESEARCH_NULLABLE[k] {
          return Err(NeverNull(k));
        }
      } else if RESEARCH_IS_DECIMAL[k] {
        if !value.Str? || !IsQ18(value.s) {
          return Err(NotQ18(k));
        }
      } else if value.Bool? || !value.Int? {
        return Err(NotInt(k));
      }
    }
    r := Ok(Arr(row));
  }

  method PythonContentHash(sha: Bytes -> string, schema: Schema, fingerprint: string, rows: seq<seq<Json>>)
    returns (r: Result<string, RowFault>)
    ensures r == ContentHash(sha, schema, fingerprint, rows)
  {
    hide Header, FaultOf, Encode, Text, FloatFree, Lower;
    var digest := HashPrefix(Domain(schema), fingerprint);
    StartOfStream(Domain(schema), fingerprint);
    for k := 0 to |rows|
      invariant FirstFault(schema, rows) == FirstFault(schema, rows[k..])
      invariant digest.fed == Stream(Domain(schema), fingerprint, rows[..k])
    {
      NextRow(Domain(schema), fingerprint, rows, k);
      assert rows[k..][0] == rows[k] && rows[k..][1..] == rows[k + 1..];
      var admitted: Result<Json, RowFault>;
      if schema.Canonical? {
        admitted := CanonicalRowArray(rows[k]);
      } else {
        admitted := ResearchRowArray(rows[k]);
      }
      if admitted.Err? {
        return Err(admitted.error);
      }
      ScalarRowValid(schema, rows[k]);
      var text := Canonicalize(admitted.value);
      digest.Update(Encode(text.value));
      digest.Update([10]);
    }
    assert rows[..|rows|] == rows;
    r := Ok(sha(digest.fed));
  }

  lemma StartOfStream(domain: string, fingerprint: string)
    ensures Stream(domain, fingerprint, []) == Header(domain, fingerprint)
  {
    hide Header;
  }

  lemma {:induction false} PiecesAppend(rows: seq<seq<Json>>, row: seq<Json>)
    ensures RowPieces(rows + [row]) == RowPieces(rows) + [RowBytes(row)]
  {
    hide RowBytes;
  }

  /** One more row adds its line to the stream. */
  lemma NextRow(domain: string, fingerprint: string, rows: seq<seq<Json>>, k: nat)
    requires k < |rows|
    ensures Stream(domain, fingerprint, rows[..k + 1]) == Stream(domain, fingerprint, rows[..k]) + RowBytes(rows[k]) + [10]
  {
    hide Header, RowBytes, Lower;
    assert rows[..k + 1] == rows[..k] + [rows[k]];
    PiecesAppend(rows[..k], rows[k]);
    TerminatedAppend(RowPieces(rows[..k]), [RowBytes(rows[k])], 10);
    OneLine(RowBytes(rows[k]));
    assert Header(domain, fingerprint) + (Terminated(RowPieces(rows[..k]), 10) + (RowBytes(rows[k]) + [10]))
        == Stream(domain, fingerprint, rows[..k]) + RowBytes(rows[k]) + [10];
  }

  lemma OneLine(piece: Bytes)
    ensures Terminated([piece], 10) == piece + [10]
  {
    assert Terminated([piece][1..], 10) == [];
  }

  // ---------- the kernel form ----------

  const HEX: Bytes := [48, 49, 50, 51, 52, 53, 54, 55, 56, 57, 97, 98, 99, 100, 101, 102]

  lemma AsciiByte(c: char)
    requires c as int < 0x80
    ensures EncodeChar(c) == [c as int]
  {
  }

  lemma TwoAscii(c: char, d: char)
    requires c as int < 0x80 && d as int < 0x80
    ensures Encode([c, d]) == [c as int, d as int]
  {
    EncodeConcat([c], [d]);
    assert [c, d] == [c] + [d];
    EncodeOne(c);
    EncodeOne(d);
  }

  lemma HexByte(n: nat)
    requires n < 16
    ensures HexDigit(n) as int == HEX[n]
  {
  }

  lemma ControlEscape(c: char)
    requires LongEscape(c)
    ensures Encode(EscapeChar(c)) == [92, 117, 48, 48, HEX[c as int / 16], HEX[c as int % 16]]
  {
    hide Encode, HexDigit;
    var h, l := HexDigit(c as int / 16), HexDigit(c as int % 16);
    HexByte(c as int / 16);
    HexByte(c as int % 16);
    TwoAscii('\\', 'u');
    TwoAscii('0', '0');
    TwoAscii(h, l);
    EncodeConcat("\\u", "00");
    EncodeConcat("\\u00", [h, l]);
    assert "\\u00" == "\\u" + "00";
  }

  /** Writes one quoted string, one character at a time. */
  method UpdateJcsString(digest: Digest, value: string)
    modifies digest
    ensures digest.fed == old(digest.fed) + Encode(Quoted(value))
  {
    hide Encode, Quoted, Escaped, EscapeChar;
    digest.Update([34]);
    ghost var start := digest.fed;
    assert value[..0] == "" && Encode(Escaped("")) == [] by { EmptyEscaped(); }
    assert start + [] == start;
    for k := 0 to |value|
      invariant digest.fed == start + Encode(Escaped(value[..k]))
    {
      NextEscape(value, k, start);
      ghost var before := digest.fed;
      UpdateCharacter(digest, value[k]);
      assert digest.fed == before + Encode(EscapeChar(value[k]));
    }
    digest.Update([34]);
    assert value[..|value|] == value;
    QuotedBytes(value, old(digest.fed));
  }

  lemma EmptyEscaped()
    ensures Encode(Escaped("")) == []
  {
  }

  lemma NextEscape(value: string, k: nat, start: Bytes)
    requires k < |value|
    ensures start + Encode(Escaped(value[..k + 1])) == start + Encode(Escaped(value[..k])) + Encode(EscapeChar(value[k]))
  {
    hide Encode, EscapeChar;
    assert value[..k + 1] == value[..k] + [value[k]];
    EscapedConcat(value[..k], [value[k]]);
    assert [value[k]][1..] == "";
    assert Escaped([value[k]]) == EscapeChar(value[k]) + "" == EscapeChar(value[k]);
    EncodeConcat(Escaped(value[..k]), EscapeChar(value[k]));
  }

  lemma QuotedBytes(value: string, before: Bytes)
    ensures before + [34] + Encode(Escaped(value)) + [34] == before + Encode(Quoted(value))
  {
    hide Escaped;
    EncodeConcat("\"", Escaped(value));
    EncodeConcat("\"" + Escaped(value), "\"");
    EncodeOne('"');
    AsciiByte('"');
  }

  method UpdateCharacter(digest: Digest, character: char)
    modifies digest
    ensures digest.fed == old(digest.fed) + Encode(EscapeChar(character))
  {
    hide Encode, EncodeChar;
    if character == '"' {
      TwoAscii('\\', '"');
      digest.Update([92, 34]);
    } else if character == '\\' {
      TwoAscii('\\', '\\');
      digest.Update([92, 92]);
    } else if character == '\U{8}' {
      TwoAscii('\\', 'b');
      digest.Update([92, 98]);
    } else if character == '\U{c}' {
      TwoAscii('\\', 'f');
      digest.Update([92, 102]);
    } else if character == '\n' {
      TwoAscii('\\', 'n');
      digest.Update([92, 110]);
    } else if character == '\r' {
      TwoAscii('\\', 'r');
      digest.Update([92, 114]);
    } else if character == '\t' {
      TwoAscii('\\', 't');
      digest.Update([92, 116]);
    } else if character < ' ' {
      ControlEscape(character);
      var code := character as int;
      digest.Update([92, 117, 48, 48, HEX[code / 16], HEX[code % 16]]);
    } else {
      EncodeOne(character);
      digest.Update(EncodeChar(character));
    }
  }

  lemma LiteralBytes()
    ensures Encode("true") == [116, 114, 117, 101] && Encode("null") == [110, 117, 108, 108]
    ensures Encode("false") == [102, 97, 108, 115, 101]
  {
    TwoAscii('t', 'r');
    TwoAscii('u', 'e');
    TwoAscii('n', 'u');
    TwoAscii('l', 'l');
    TwoAscii('f', 'a');
    TwoAscii('l', 's');
    EncodeOne('e');
    EncodeConcat("tr", "ue");
    EncodeConcat("nu", "ll");
    EncodeConcat("fa", "ls");
    EncodeConcat("fals", "e");
    assert "true" == "tr" + "ue" && "null" == "nu" + "ll" && "fals" == "fa" + "ls" && "false" == "fals" + "e";
  }

  /** Booleans, integers and strings; anything else writes nothing. */
  method UpdateJcsScalar(digest: Digest, value: Json)
    modifies digest
    ensures digest.fed == old(digest.fed) + if value.Bool? || value.Int? || value.Str? then Encode(Text(value)) else []
  {
    hide Encode, Quoted;
    if value.Bool? {
      LiteralBytes();
      if value.b {
        digest.Update([116, 114, 117, 101]);
      } else {
        digest.Update([102, 97, 108, 115, 101]);
      }
    } else if value.Int? {
      digest.Update(Encode(IntText(value.n)));
    } else if value.Str? {
      UpdateJcsString(digest, value.s);
    }
  }

  // ---------- rows ----------

  /** The bytes still to come after k fields of a row. */
  ghost function FieldsLeft(row: seq<Json>, k: nat): Bytes
    requires k <= |row|
  {
    Encode(ItemsLeft(Arr(row), row, k))
  }

  lemma NextField(row: seq<Json>, k: nat, before: Bytes)
    requires k < |row|
    ensures before + FieldsLeft(row, k)
         == before + (if k == 0 then [] else [44]) + Encode(Text(row[k])) + FieldsLeft(row, k + 1)
  {
    hide Text, Encode, ItemsLeft;
    var v := Arr(row);
    NextItem(v, row, k);
    var comma := if k == 0 then "" else ",";
    EncodeConcat(comma, Text(row[k]) + ItemsLeft(v, row, k + 1));
    EncodeConcat(Text(row[k]), ItemsLeft(v, row, k + 1));
    CommaBytes(k);
    Regroup(before, Encode(comma), Encode(Text(row[k])), FieldsLeft(row, k + 1));
  }

  lemma CommaBytes(k: nat)
    ensures Encode(if k == 0 then "" else ",") == if k == 0 then [] else [44]
  {
    EncodeOne(',');
    AsciiByte(',');
  }

  lemma Regroup(a: Bytes, b: Bytes, c: Bytes, d: Bytes)
    ensures a + (b + (c + d)) == a + b + c + d
  {
  }

  lemma RowBrackets(row: seq<Json>, before: Bytes)
    ensures before + [91] + FieldsLeft(row, 0) + [93, 10] == before + RowBytes(row) + [10]
    ensures FieldsLeft(row, |row|) == []
  {
    hide Encode, ItemsLeft, ItemsText;
    var v := Arr(row);
    AllItemsLeft(v, row);
    NothingLeft(v, row);
    EncodeConcat("[", ItemsText(v, row));
    EncodeConcat("[" + ItemsText(v, row), "]");
    BracketBytes();
  }

  lemma BracketBytes()
    ensures Encode("[") == [91] && Encode("]") == [93] && Encode("") == []
  {
    EncodeOne('[');
    EncodeOne(']');
    AsciiByte('[');
    AsciiByte(']');
  }

  method UpdateCanonicalRow(digest: Digest, row: seq<Json>) returns (fault: Option<RowFault>)
    modifies digest
    ensures fault == FaultOf(Canonical, row)
    ensures fault.None? ==> digest.fed == old(digest.fed) + RowBytes(row) + [10]
  {
    hide FieldsLeft, Encode, Text, RowBytes;
    if |row| != CANONICAL_FIELDS {
      return Some(WrongLength);
    }
    RowBrackets(row, digest.fed);
    digest.Update([91]);
    for k := 0 to CANONICAL_FIELDS
      invariant FaultFrom(Canonical, row, 0) == FaultFrom(Canonical, row, k)
      invariant digest.fed + FieldsLeft(row, k) == old(digest.fed) + [91] + FieldsLeft(row, 0)
    {
      NextField(row, k, digest.fed);
      ghost var before := digest.fed;
      if k != 0 {
        digest.Update([44]);
      }
      assert k == 0 ==> before + [] == before;
      var value := row[k];
      if value.Float? {
        return Some(FloatForbidden);
      }
      if !(value.Bool? || value.Int? || value.Str?) {
        return Some(NotAdmitted);
      }
      UpdateJcsScalar(digest, value);
    }
    assert digest.fed + [] == digest.fed;
    digest.Update([93, 10]);
    fault := None;
  }

  method UpdateResearchRow(digest: Digest, row: seq<Json>) returns (fault: Option<RowFault>)
    modifies digest
    ensures fault == FaultOf(Research, row)
    ensures fault.None? ==> digest.fed == old(digest.fed) + RowBytes(row) + [10]
  {
    hide FieldsLeft, Encode, RowBytes, ValidQ18, IsQ18, Quoted, ItemsText, MembersText, IntText;
    if |row| != RESEARCH_FIELDS {
      return Some(WrongLength);
    }
    RowBrackets(row, digest.fed);
    digest.Update([91]);
    for k := 0 to RESEARCH_FIELDS
      invariant FaultFrom(Research, row, 0) == FaultFrom(Research, row, k)
      invariant digest.fed + FieldsLeft(row, k) == old(digest.fed) + [91] + FieldsLeft(row, 0)
    {
      NextField(row, k, digest.fed);
      ghost var before := digest.fed;
      if k != 0 {
        digest.Update([44]);
      }
      assert k == 0 ==> before + [] == before;
      var value := row[k];
      if value.Float? {
        return Some(FloatForbidden);
      }
      if value.Null? {
        if !RESEARCH_NULLABLE[k] {
          return Some(NeverNull(k));
        }
        LiteralBytes();
        digest.Update([110, 117, 108, 108]);
        continue;
      }
      if 1 <= k <= 5 {
        if value.Str? {
          ValidQ18IsPattern(value.s);
        }
        if !(value.Str? && ValidQ18(value.s)) {
          return Some(NotQ18(k));
        }
      } else if value.Bool? || !value.Int? {
        return Some(NotInt(k));
      }
      UpdateJcsScalar(digest, value);
    }
    assert digest.fed + [] == digest.fed;
    digest.Update([93, 10]);
    fault := None;
  }

  method KernelContentHash(sha: Bytes -> string, schema: Schema, fingerprint: string, rows: seq<seq<Json>>)
    returns (r: Result<string, RowFault>)
    ensures r == ContentHash(sha, schema, fingerprint, rows)
  {
    hide Header, FaultOf, RowBytes, Lower, Encode, Terminated;
    var digest := HashPrefix(Domain(schema), fingerprint);
    StartOfStream(Domain(schema), fingerprint);
    for k := 0 to |rows|
      invariant FirstFault(schema, rows) == FirstFault(schema, rows[k..])
      invariant digest.fed == Stream(Domain(schema), fingerprint, rows[..k])
    {
      NextRow(Domain(schema), fingerprint, rows, k);
      assert rows[k..][0] == rows[k] && rows[k..][1..] == rows[k + 1..];
      var fault: Option<RowFault>;
      if schema.Canonical? {
        fault := UpdateCanonicalRow(digest, rows[k]);
      } else {
        fault := UpdateResearchRow(digest, rows[k]);
      }
      if fault.Some? {
        return Err(fault.value);
      }
    }
    assert rows[..|rows|] == rows;
    r := Ok(sha(digest.fed));
  }
}
