/** Bytes, and the UTF-8 encoding of text as section 3 of RFC 3629 defines it. */
module Utf8 {
  import opened Wrappers

  type byte = x: int | 0 <= x < 256
  type Bytes = seq<byte>

  /** One to four bytes, the high bits of the first giving their number. */
  function EncodeChar(c: char): (e: Bytes)
    ensures 1 <= |e| <= 4
  {
    var n := c as int;
    if n < 0x80 then [n]
    else if n < 0x800 then [0xC0 + n / 64, 0x80 + n % 64]
    else if n < 0x10000 then [0xE0 + n / 4096, 0x80 + n / 64 % 64, 0x80 + n % 64]
    else [0xF0 + n / 262144, 0x80 + n / 4096 % 64, 0x80 + n / 64 % 64, 0x80 + n % 64]
  }

  function Encode(s: string): Bytes {
    if s == "" then [] else EncodeChar(s[0]) + Encode(s[1..])
  }

  lemma {:induction false} EncodeConcat(s: string, t: string)
    ensures Encode(s + t) == Encode(s) + Encode(t)
  {
    hide EncodeChar;
    if s == "" {
      assert s + t == t;
    } else {
      EncodeConcat(s[1..], t);
      assert (s + t)[1..] == s[1..] + t && (s + t)[0] == s[0];
      assert EncodeChar(s[0]) + (Encode(s[1..]) + Encode(t)) == EncodeChar(s[0]) + Encode(s[1..]) + Encode(t);
    }
  }

  lemma EncodeOne(c: char)
    ensures Encode([c]) == EncodeChar(c)
  {
    assert [c][1..] == "";
  }

  lemma SameBytes(c: char, d: char)
    requires |EncodeChar(c)| == |EncodeChar(d)|
    requires forall i :: 0 <= i < |EncodeChar(c)| ==> EncodeChar(c)[i] == EncodeChar(d)[i]
    ensures c == d
  {
    var n, m := c as int, d as int;
    var e, f := EncodeChar(c), EncodeChar(d);
    assert e[0] == f[0];
    if |e| == 2 {
      assert e[1] == f[1];
    } else if |e| == 3 {
      assert e[1] == f[1] && e[2] == f[2];
      ThreeBytes(n);
      ThreeBytes(m);
    } else if |e| == 4 {
      assert e[1] == f[1] && e[2] == f[2] && e[3] == f[3];
      FourBytes(n);
      FourBytes(m);
    }
  }

  /** A character's bytes are not the beginning of another character's bytes. */
  lemma CharPrefix(c: char, d: char, whole: Bytes)
    requires EncodeChar(c) <= whole && EncodeChar(d) <= whole
    ensures c == d
  {
    var e, f := EncodeChar(c), EncodeChar(d);
    assert forall i :: 0 <= i < |e| ==> e[i] == whole[i];
    assert forall i :: 0 <= i < |f| ==> f[i] == whole[i];
    assert e[0] == f[0];
    assert |e| == |f|;
    SameBytes(c, d);
  }

  lemma LowBits(n: nat)
    ensures n / 4096 == n / 64 / 64 && n == 64 * (n / 64) + n % 64
  {
  }

  lemma ThreeBytes(n: nat)
    ensures n == 4096 * (n / 4096) + 64 * (n / 64 % 64) + n % 64
  {
    LowBits(n);
    assert n / 64 == 64 * (n / 64 / 64) + n / 64 % 64;
  }

  lemma FourBytes(n: nat)
    ensures n == 262144 * (n / 262144) + 4096 * (n / 4096 % 64) + 64 * (n / 64 % 64) + n % 64
  {
    ThreeBytes(n);
    HighBits(n);
  }

  lemma HighBits(n: nat)
    ensures n / 4096 == 64 * (n / 262144) + n / 4096 % 64
  {
    var k := n / 4096;
    assert n == 4096 * k + n % 4096;
    assert k == 64 * (k / 64) + k % 64;
  }

  /** Different texts have different encodings. */
  lemma {:induction false} EncodeInjective(s: string, t: string)
    requires Encode(s) == Encode(t)
    ensures s == t
  {
    hide EncodeChar;
    if s != "" && t != "" {
      var whole := Encode(s);
      CharPrefix(s[0], t[0], whole);
      assert Encode(s[1..]) == whole[|EncodeChar(s[0])|..] && Encode(t[1..]) == whole[|EncodeChar(t[0])|..];
      EncodeInjective(s[1..], t[1..]);
      assert s == [s[0]] + s[1..] && t == [t[0]] + t[1..];
    }
  }

  lemma CharBytes(c: char, b: byte)
    requires b < 0x80 && c as int != b
    ensures forall i :: 0 <= i < |EncodeChar(c)| ==> EncodeChar(c)[i] != b
  {
  }

  /** An ASCII byte occurs only where its own character does. */
  lemma {:induction false} AsciiByteAbsent(s: string, b: byte)
    requires b < 0x80 && forall i :: 0 <= i < |s| ==> s[i] as int != b
    ensures forall i :: 0 <= i < |Encode(s)| ==> Encode(s)[i] != b
  {
    hide EncodeChar;
    if s != "" {
      CharBytes(s[0], b);
      AsciiByteAbsent(s[1..], b);
    }
  }

  // ---------- decoding ----------

  predicate Continuation(b: byte) {
    0x80 <= b < 0xC0
  }

  /** Code points that are characters: no surrogates, nothing past the last plane. */
  predicate IsCodePoint(n: int) {
    0 <= n < 0xD800 || 0xE000 <= n < 0x11_0000
  }

  /** How many bytes the first byte announces. */
  function Announced(b: byte): nat {
    if b < 0x80 then 1 else if b < 0xC0 then 0 else if b < 0xE0 then 2 else if b < 0xF0 then 3 else if b < 0xF8 then 4 else 0
  }

  /** The bits of a first byte and its continuation bytes, put together. */
  function PutTogether(e: Bytes): int
    requires 1 <= |e| <= 4
  {
    if |e| == 1 then e[0]
    else if |e| == 2 then (e[0] as int - 0xC0) * 0x40 + (e[1] as int - 0x80)
    else if |e| == 3 then (e[0] as int - 0xE0) * 0x1000 + (e[1] as int - 0x80) * 0x40 + (e[2] as int - 0x80)
    else (e[0] as int - 0xF0) * 0x4_0000 + (e[1] as int - 0x80) * 0x1000 + (e[2] as int - 0x80) * 0x40 + (e[3] as int - 0x80)
  }

  /** The first character of some bytes, and how many bytes it takes. */
  function DecodeFirst(b: Bytes): (r: Option<(char, nat)>)
    ensures r.Some? ==> 0 < r.value.1 <= |b|
  {
    if b == [] then None
    else
      var k := Announced(b[0]);
      if k == 0 || |b| < k || !(forall i :: 1 <= i < k ==> Continuation(b[i])) then None
      else
        var n := PutTogether(b[..k]);
        if IsCodePoint(n) then Some((n as char, k)) else None
  }

  function Decode(b: Bytes): Option<string>
    decreases |b|
  {
    if b == [] then Some("")
    else
      var first :- DecodeFirst(b);
      var rest :- Decode(b[first.1..]);
      Some([first.0] + rest)
  }

  lemma EncodedShape(c: char)
    ensures var e := EncodeChar(c);
      Announced(e[0]) == |e| && forall i :: 1 <= i < |e| ==> Continuation(e[i])
  {
  }

  lemma EncodedBits(c: char)
    ensures PutTogether(EncodeChar(c)) == c as int
  {
    var n := c as int;
    ThreeBytes(n);
    FourBytes(n);
    LowBits(n);
  }

  lemma FirstDecodes(c: char, rest: Bytes)
    ensures DecodeFirst(EncodeChar(c) + rest) == Some((c, |EncodeChar(c)|))
  {
    hide EncodeChar, PutTogether, Announced, Continuation;
    var e := EncodeChar(c);
    var b := e + rest;
    EncodedShape(c);
    EncodedBits(c);
    assert b[0] == e[0] && b[..|e|] == e;
    assert forall i :: 1 <= i < |e| ==> b[i] == e[i];
  }

  /** Decoding by the first bytes' announced lengths gives the text back. */
  lemma {:induction false} DecodeEncoded(s: string)
    ensures Decode(Encode(s)) == Some(s)
  {
    hide EncodeChar, DecodeFirst;
    if s != "" {
      var b := Encode(s);
      FirstDecodes(s[0], Encode(s[1..]));
      DecodeEncoded(s[1..]);
      assert b[|EncodeChar(s[0])|..] == Encode(s[1..]);
      assert [s[0]] + s[1..] == s;
    }
  }
}
