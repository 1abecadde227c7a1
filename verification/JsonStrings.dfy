/** Quoted JSON strings with the shortest escapes, and why a quoted string ends where it ends. */
module JsonStrings {

  function HexDigit(n: nat): char
    requires n < 16
  {
    "0123456789abcdef"[n]
  }

  /** Two-character escapes for the seven named characters, six characters for other controls. */
  function EscapeChar(c: char): (e: string)
    ensures e != ""
  {
    if c == '"' then "\\\""
    else if c == '\\' then "\\\\"
    else if c == '\U{8}' then "\\b"
    else if c == '\U{c}' then "\\f"
    else if c == '\n' then "\\n"
    else if c == '\r' then "\\r"
    else if c == '\t' then "\\t"
    else if c < ' ' then "\\u00" + [HexDigit(c as int / 16), HexDigit(c as int % 16)]
    else [c]
  }

  function Escaped(s: string): string {
    if s == "" then "" else EscapeChar(s[0]) + Escaped(s[1..])
  }

  function Quoted(s: string): string {
    "\"" + Escaped(s) + "\""
  }

  lemma HexDigitInjective(m: nat, n: nat)
    requires m < 16 && n < 16 && HexDigit(m) == HexDigit(n)
    ensures m == n
  {
  }

  /** An escape never starts with a quote, and no character below a space survives. */
  lemma EscapeShape(c: char)
    ensures EscapeChar(c)[0] != '"'
    ensures forall i :: 0 <= i < |EscapeChar(c)| ==> EscapeChar(c)[i] >= ' '
  {
  }

  /**
   Two characters for the seven with a name, six with lower-case digits for the other controls, and
   everything else as it is.
   */
  lemma EscapeTable(c: char)
    ensures c == '"' || c == '\\' || c == '\U{8}' || c == '\t' || c == '\n' || c == '\U{c}' || c == '\r' <==>
            |EscapeChar(c)| == 2
    ensures |EscapeChar(c)| == 6 <==> c < ' ' && |EscapeChar(c)| != 2
    ensures |EscapeChar(c)| == 6 ==> forall i :: 0 <= i < 6 ==> !('A' <= EscapeChar(c)[i] <= 'Z')
    ensures |EscapeChar(c)| != 2 && |EscapeChar(c)| != 6 ==> EscapeChar(c) == [c]
  {
  }

  /** Escapes can be told apart from their beginning. */
  lemma EscapePrefix(c: char, d: char, x: string, y: string)
    requires EscapeChar(c) + x == EscapeChar(d) + y
    ensures c == d && x == y
  {
    var whole := EscapeChar(c) + x;
    assert whole == EscapeChar(d) + y;
    assert forall i :: 0 <= i < |EscapeChar(c)| ==> whole[i] == EscapeChar(c)[i];
    assert forall i :: 0 <= i < |EscapeChar(d)| ==> whole[i] == EscapeChar(d)[i];
    SameEscape(c, d, whole);
    assert x == whole[|EscapeChar(c)|..] && y == whole[|EscapeChar(d)|..];
  }

  predicate LongEscape(c: char) {
    c < ' ' && c != '\U{8}' && c != '\U{c}' && c != '\n' && c != '\r' && c != '\t'
  }

  lemma SameEscape(c: char, d: char, whole: string)
    requires EscapeChar(c) <= whole && EscapeChar(d) <= whole
    ensures c == d
  {
    assert EscapeChar(c)[0] == whole[0] == EscapeChar(d)[0];
    if whole[0] == '\\' {
      assert EscapeChar(c)[1] == whole[1] == EscapeChar(d)[1];
      if LongEscape(c) && LongEscape(d) {
        assert EscapeChar(c)[4] == whole[4] == EscapeChar(d)[4];
        assert EscapeChar(c)[5] == whole[5] == EscapeChar(d)[5];
        HexDigitInjective(c as int / 16, d as int / 16);
        HexDigitInjective(c as int % 16, d as int % 16);
        assert c as int == 16 * (c as int / 16) + c as int % 16;
        assert d as int == 16 * (d as int / 16) + d as int % 16;
      }
    }
  }

  lemma EscapedFirst(s: string, x: string)
    ensures (Escaped(s) + "\"" + x)[0] == '"' <==> s == ""
  {
    if s != "" {
      EscapeShape(s[0]);
      assert (Escaped(s) + "\"" + x)[0] == EscapeChar(s[0])[0];
    }
  }

  /** The closing quote of an escaped string is the first one met while reading escapes. */
  lemma {:induction false} EscapedPrefix(s: string, t: string, x: string, y: string)
    requires Escaped(s) + "\"" + x == Escaped(t) + "\"" + y
    ensures s == t && x == y
    decreases |s| + |t|
  {
    hide EscapeChar;
    var whole := Escaped(s) + "\"" + x;
    assert whole == Escaped(t) + "\"" + y;
    EscapedFirst(s, x);
    EscapedFirst(t, y);
    if s == "" && t == "" {
      assert x == whole[1..] && y == whole[1..];
    } else if s != "" && t != "" {
      var x', y' := Escaped(s[1..]) + "\"" + x, Escaped(t[1..]) + "\"" + y;
      assert whole == EscapeChar(s[0]) + x' && whole == EscapeChar(t[0]) + y';
      EscapePrefix(s[0], t[0], x', y');
      EscapedPrefix(s[1..], t[1..], x, y);
      assert s == [s[0]] + s[1..] && t == [t[0]] + t[1..];
    }
  }

  lemma QuotedPrefix(s: string, t: string, x: string, y: string)
    requires Quoted(s) + x == Quoted(t) + y
    ensures s == t && x == y
  {
    hide Escaped;
    assert (Quoted(s) + x)[1..] == Escaped(s) + "\"" + x;
    assert (Quoted(t) + y)[1..] == Escaped(t) + "\"" + y;
    EscapedPrefix(s, t, x, y);
  }

  lemma {:induction false} EscapedHasNoControls(s: string)
    ensures forall i :: 0 <= i < |Escaped(s)| ==> Escaped(s)[i] >= ' '
  {
    if s != "" {
      EscapeShape(s[0]);
      EscapedHasNoControls(s[1..]);
    }
  }

  /** A quoted string never contains a line break or any other control character. */
  lemma QuotedHasNoControls(s: string)
    ensures forall i :: 0 <= i < |Quoted(s)| ==> Quoted(s)[i] >= ' '
  {
    EscapedHasNoControls(s);
  }

  lemma {:induction false} EscapedConcat(s: string, t: string)
    ensures Escaped(s + t) == Escaped(s) + Escaped(t)
  {
    hide EscapeChar;
    if s == "" {
      assert s + t == t;
    } else {
      EscapedConcat(s[1..], t);
      assert (s + t)[1..] == s[1..] + t && (s + t)[0] == s[0];
      Associates(EscapeChar(s[0]), Escaped(s[1..]), Escaped(t));
    }
  }

  lemma Associates(a: string, b: string, c: string)
    ensures a + (b + c) == (a + b) + c
  {
  }
}
