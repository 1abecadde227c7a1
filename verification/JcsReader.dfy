/**
 A reader for JSON text as section 2 of RFC 8259 lays it out, without white space and fractions, and
 the proof that it undoes the serializer.
 */
module JcsReader {
  import opened Wrappers
  import opened Digits
  import opened KeyOrder
  import opened JsonStrings
  import opened Jcs
  import opened JcsInjective

  // ---------- strings ----------

  function HexValue(c: char): Option<nat> {
    if '0' <= c <= '9' then Some(c as int - '0' as int)
    else if 'a' <= c <= 'f' then Some(c as int - 'a' as int + 10)
    else if 'A' <= c <= 'F' then Some(c as int - 'A' as int + 10)
    else None
  }

  /** The character a \uXXXX escape names, surrogates excepted. */
  function ReadUnicode(s: string): (r: Option<char>)
    requires |s| == 4
  {
    var a :- HexValue(s[0]);
    var b :- HexValue(s[1]);
    var c :- HexValue(s[2]);
    var d :- HexValue(s[3]);
    var n := 4096 * a + 256 * b + 16 * c + d;
    if n < 0xD800 then Some(n as char) else None
  }

  /** One escape, after its backslash: the character it stands for and what follows. */
  function ReadEscape(s: string): (r: Option<(char, string)>)
    ensures r.Some? ==> |r.value.1| < |s|
  {
    if s == "" then None
    else if s[0] == '"' || s[0] == '\\' || s[0] == '/' then Some((s[0], s[1..]))
    else if s[0] == 'b' then Some(('\U{8}', s[1..]))
    else if s[0] == 'f' then Some(('\U{c}', s[1..]))
    else if s[0] == 'n' then Some(('\n', s[1..]))
    else if s[0] == 'r' then Some(('\r', s[1..]))
    else if s[0] == 't' then Some(('\t', s[1..]))
    else if s[0] == 'u' && |s| >= 5 then
      var c :- ReadUnicode(s[1..5]);
      Some((c, s[5..]))
    else None
  }

  /** Characters up to the closing quote. */
  function ReadChars(s: string): (r: Option<(string, string)>)
    ensures r.Some? ==> |r.value.1| < |s|
    decreases |s|
  {
    if s == "" then None
    else if s[0] == '"' then Some(("", s[1..]))
    else if s[0] == '\\' then
      var e :- ReadEscape(s[1..]);
      var more :- ReadChars(e.1);
      Some(([e.0] + more.0, more.1))
    else if s[0] < ' ' then None
    else
      var more :- ReadChars(s[1..]);
      Some(([s[0]] + more.0, more.1))
  }

  lemma HexReads(n: nat)
    requires n < 16
    ensures HexValue(HexDigit(n)) == Some(n)
  {
  }

  lemma UnicodeReads(c: char)
    requires LongEscape(c)
    ensures ReadUnicode("00" + [HexDigit(c as int / 16), HexDigit(c as int % 16)]) == Some(c)
  {
    hide HexDigit, HexValue;
    HexReads(0);
    HexReads(c as int / 16);
    HexReads(c as int % 16);
    assert HexDigit(0) == '0' by { ZeroDigit(); }
    assert 16 * (c as int / 16) + c as int % 16 == c as int;
  }

  lemma ZeroDigit()
    ensures HexDigit(0) == '0'
  {
  }

  lemma LongEscapeText(c: char, x: string)
    requires LongEscape(c)
    ensures (EscapeChar(c) + x)[1..] == "u" + ("00" + [HexDigit(c as int / 16), HexDigit(c as int % 16)]) + x
  {
    hide HexDigit;
    var h, l := HexDigit(c as int / 16), HexDigit(c as int % 16);
    assert EscapeChar(c) == ['\\', 'u', '0', '0', h, l];
  }

  lemma LongEscapeReads(c: char, x: string)
    requires LongEscape(c)
    ensures ReadEscape((EscapeChar(c) + x)[1..]) == Some((c, x))
  {
    hide EscapeChar, HexDigit, ReadUnicode;
    var h := "00" + [HexDigit(c as int / 16), HexDigit(c as int % 16)];
    LongEscapeText(c, x);
    var s := "u" + h + x;
    assert s[0] == 'u' && s[1..5] == h && s[5..] == x;
    UnicodeReads(c);
  }

  lemma EscapeReads(c: char, x: string)
    requires EscapeChar(c)[0] == '\\'
    ensures ReadEscape((EscapeChar(c) + x)[1..]) == Some((c, x))
  {
    hide HexDigit, ReadUnicode;
    if LongEscape(c) {
      LongEscapeReads(c, x);
    } else {
      assert (EscapeChar(c) + x)[1..][1..] == x;
    }
  }

  lemma PlainChar(c: char)
    ensures EscapeChar(c)[0] == '\\' || (EscapeChar(c) == [c] && c != '"' && c != '\\' && c >= ' ')
  {
  }

  lemma {:induction false} CharsRead(s: string, x: string)
    ensures ReadChars(Escaped(s) + "\"" + x) == Some((s, x))
  {
    hide EscapeChar, ReadEscape;
    var whole := Escaped(s) + "\"" + x;
    if s == "" {
      assert whole == "\"" + x && whole[1..] == x;
    } else {
      var rest := Escaped(s[1..]) + "\"" + x;
      assert whole == EscapeChar(s[0]) + rest;
      CharsRead(s[1..], x);
      assert [s[0]] + s[1..] == s;
      PlainChar(s[0]);
      EscapeShape(s[0]);
      if EscapeChar(s[0])[0] == '\\' {
        EscapeReads(s[0], rest);
      } else {
        assert whole[1..] == rest;
      }
    }
  }

  // ---------- numbers ----------

  function RunLength(s: string): (n: nat)
    ensures n <= |s| && forall i :: 0 <= i < n ==> IsDigit(s[i])
    ensures n < |s| ==> !IsDigit(s[n])
  {
    if s == "" || !IsDigit(s[0]) then 0 else 1 + RunLength(s[1..])
  }

  lemma RunOf(d: string, x: string)
    requires AllDigits(d) && Delimited(x)
    ensures RunLength(d + x) == |d| && (d + x)[..|d|] == d && (d + x)[|d|..] == x
  {
    hide RunLength;
    var whole := d + x;
    RunEnds(whole, d, x);
    assert RunLength(whole) == |d|;
  }

  /** An optional minus sign and at least one digit. */
  function ReadInt(s: string): (r: Option<(int, string)>)
    ensures r.Some? ==> |r.value.1| < |s|
  {
    var negative := s != "" && s[0] == '-';
    var body := if negative then s[1..] else s;
    var n := RunLength(body);
    if n == 0 then None
    else
      var value: int := NatOf(body[..n]);
      Some((if negative then -value else value, body[n..]))
  }

  lemma IntReads(n: int, x: string)
    requires Delimited(x)
    ensures ReadInt(IntText(n) + x) == Some((n, x))
  {
    hide NatOf, NatText, RunLength;
    var whole := IntText(n) + x;
    assert whole[0] == IntText(n)[0];
    if n < 0 {
      var d := NatText(-n);
      assert whole[1..] == d + x;
      RunOf(d, x);
      NatOfNatText(-n);
    } else {
      RunOf(NatText(n), x);
      NatOfNatText(n);
    }
  }

  // ---------- values ----------

  function ReadValue(s: string): (r: Option<(Json, string)>)
    ensures r.Some? ==> |r.value.1| < |s|
    decreases |s|, 1
  {
    if s == "" then None
    else if "null" <= s then Some((Null, s[4..]))
    else if "true" <= s then Some((Bool(true), s[4..]))
    else if "false" <= s then Some((Bool(false), s[5..]))
    else if s[0] == '"' then
      var chars :- ReadChars(s[1..]);
      Some((Str(chars.0), chars.1))
    else if s[0] == '[' then
      if |s| > 1 && s[1] == ']' then Some((Arr([]), s[2..]))
      else
        var items :- ReadItems(s[1..]);
        Some((Arr(items.0), items.1))
    else if s[0] == '{' then
      if |s| > 1 && s[1] == '}' then Some((Obj([]), s[2..]))
      else
        var members :- ReadMembers(s[1..]);
        Some((Obj(members.0), members.1))
    else
      var number :- ReadInt(s);
      Some((Int(number.0), number.1))
  }

  /** Items up to the closing bracket. */
  function ReadItems(s: string): (r: Option<(seq<Json>, string)>)
    ensures r.Some? ==> |r.value.1| < |s|
    decreases |s|, 2
  {
    var v :- ReadValue(s);
    if v.1 != "" && v.1[0] == ']' then Some(([v.0], v.1[1..]))
    else if v.1 != "" && v.1[0] == ',' then
      var more :- ReadItems(v.1[1..]);
      Some(([v.0] + more.0, more.1))
    else None
  }

  /** Members up to the closing brace. */
  function ReadMembers(s: string): (r: Option<(seq<(string, Json)>, string)>)
    ensures r.Some? ==> |r.value.1| < |s|
    decreases |s|, 2
  {
    if s == "" || s[0] != '"' then None
    else
      var key :- ReadChars(s[1..]);
      if key.1 == "" || key.1[0] != ':' then None
      else
        var v :- ReadValue(key.1[1..]);
        if v.1 != "" && v.1[0] == '}' then Some(([(key.0, v.0)], v.1[1..]))
        else if v.1 != "" && v.1[0] == ',' then
          var more :- ReadMembers(v.1[1..]);
          Some(([(key.0, v.0)] + more.0, more.1))
        else None
  }

  // ---------- what is read back ----------

  /** The value with every object's members in key order. */
  function Canon(v: Json): Json
    decreases v
  {
    match v
    case Arr(items) => Arr(CanonItems(v, items))
    case Obj(members) => Obj(CanonMembers(v, Ordered(members)))
    case _ => v
  }

  function CanonItems(context: Json, items: seq<Json>): (c: seq<Json>)
    requires forall i :: 0 <= i < |items| ==> items[i] < context
    ensures |c| == |items|
    decreases context, |items|
  {
    if items == [] then [] else [Canon(items[0])] + CanonItems(context, items[1..])
  }

  function CanonMembers(context: Json, members: seq<(string, Json)>): (c: seq<(string, Json)>)
    requires forall m :: m in members ==> m.1 < context
    ensures |c| == |members|
    decreases context, |members|
  {
    if members == [] then [] else [(members[0].0, Canon(members[0].1))] + CanonMembers(context, members[1..])
  }

  // ---------- reading undoes writing ----------

  lemma LiteralsRead(x: string)
    ensures ReadValue("null" + x) == Some((Null, x))
    ensures ReadValue("true" + x) == Some((Bool(true), x))
    ensures ReadValue("false" + x) == Some((Bool(false), x))
  {
    hide ReadItems, ReadMembers, ReadInt, ReadChars;
    assert ("null" + x)[4..] == x && ("true" + x)[4..] == x && ("false" + x)[5..] == x;
    assert ("true" + x)[0] == 't' && ("false" + x)[0] == 'f';
  }

  /** A text that does not start like a literal is read by its first character. */
  lemma NoLiteral(s: string)
    requires s != "" && s[0] != 'n' && s[0] != 't' && s[0] != 'f'
    ensures !("null" <= s) && !("true" <= s) && !("false" <= s)
  {
  }

  lemma StringReads(t: string, x: string)
    ensures ReadValue(Quoted(t) + x) == Some((Str(t), x))
  {
    hide ReadItems, ReadMembers, ReadInt, ReadChars, Escaped;
    var s := Quoted(t) + x;
    assert s[0] == '"' && s[1..] == Escaped(t) + "\"" + x;
    NoLiteral(s);
    CharsRead(t, x);
  }

  lemma NumberReads(n: int, x: string)
    requires Delimited(x)
    ensures ReadValue(IntText(n) + x) == Some((Int(n), x))
  {
    hide ReadItems, ReadMembers, ReadInt, ReadChars, NatText;
    var s := IntText(n) + x;
    assert s[0] == IntText(n)[0];
    assert n >= 0 ==> IsDigit(IntText(n)[0]);
    NoLiteral(s);
    IntReads(n, x);
  }

  lemma {:induction false} ItemsRead(v: Json, a: seq<Json>, x: string)
    requires a != [] && forall i :: 0 <= i < |a| ==> a[i] < v && Valid(a[i])
    ensures ReadItems(ItemsText(v, a) + "]" + x) == Some((CanonItems(v, a), x))
    decreases v, |a|
  {
    hide Text, ItemsText, ItemsRest, ReadValue, ReadMembers, Canon, Valid;
    var rest := ItemsRest(v, a) + "]" + x;
    FirstItem(v, a);
    SplitConcat(Text(a[0]), ItemsRest(v, a), "]", x);
    ItemsRestShape(v, a, x);
    ValueReads(a[0], rest);
    FirstCanon(v, a);
    if |a| > 1 {
      ItemsRead(v, a[1..], x);
    }
  }

  lemma FirstCanon(v: Json, a: seq<Json>)
    requires a != [] && forall i :: 0 <= i < |a| ==> a[i] < v
    ensures CanonItems(v, a) == [Canon(a[0])] + CanonItems(v, a[1..])
    ensures |a| == 1 ==> CanonItems(v, a) == [Canon(a[0])]
  {
    hide Canon;
  }

  lemma FirstCanonMember(v: Json, a: seq<(string, Json)>)
    requires a != [] && forall m :: m in a ==> m.1 < v
    ensures CanonMembers(v, a) == [(a[0].0, Canon(a[0].1))] + CanonMembers(v, a[1..])
    ensures |a| == 1 ==> CanonMembers(v, a) == [(a[0].0, Canon(a[0].1))]
  {
    hide Canon;
  }

  /** A key, its colon, and what follows. */
  lemma KeyReads(k: string, x: string)
    ensures var s := Quoted(k) + (":" + x);
      && s != "" && s[0] == '"' && ReadChars(s[1..]) == Some((k, ":" + x)) && (":" + x)[0] == ':' && (":" + x)[1..] == x
  {
    hide ReadChars, Escaped;
    var s := Quoted(k) + (":" + x);
    assert s[1..] == Escaped(k) + "\"" + (":" + x);
    CharsRead(k, ":" + x);
  }

  lemma {:induction false} MembersRead(v: Json, a: seq<(string, Json)>, x: string)
    requires a != [] && forall m :: m in a ==> m.1 < v && Valid(m.1)
    ensures ReadMembers(MembersText(v, a) + "}" + x) == Some((CanonMembers(v, a), x))
    decreases v, |a|
  {
    hide Text, MembersText, MembersRest, ReadValue, ReadItems, ReadChars, Canon, Valid, Quoted;
    var rest := MembersRest(v, a) + "}" + x;
    assert a[0] in a;
    MemberSplits(v, a, x);
    KeyReads(a[0].0, Text(a[0].1) + rest);
    MembersRestShape(v, a, x);
    ValueReads(a[0].1, rest);
    FirstCanonMember(v, a);
    if |a| > 1 {
      MembersRead(v, a[1..], x);
    }
  }

  lemma {:induction false} ArrayReads(v: Json, x: string)
    requires v.Arr? && Valid(v)
    ensures ReadValue(Text(v) + x) == Some((Canon(v), x))
    decreases v, |v.items| + 1
  {
    hide ReadItems, ReadMembers, ReadInt, ReadChars, ItemsText, CanonItems;
    var s := Text(v) + x;
    assert s[0] == '[' && s[1..] == ItemsText(v, v.items) + "]" + x;
    NoLiteral(s);
    ItemsHead(v, v.items, x);
    if v.items == [] {
      assert ItemsText(v, v.items) == "" by { NoItems(v); }
      assert s == "[]" + x && s[2..] == x;
      assert CanonItems(v, v.items) == [];
    } else {
      assert s[1] == s[1..][0];
      ItemsRead(v, v.items, x);
    }
  }

  lemma {:induction false} ObjectReads(v: Json, x: string)
    requires v.Obj? && Valid(v)
    ensures ReadValue(Text(v) + x) == Some((Canon(v), x))
    decreases v, |v.members| + 1
  {
    hide ReadItems, ReadMembers, ReadInt, ReadChars, MembersText, CanonMembers, Ordered;
    var a := Ordered(v.members);
    ValidMembers(v);
    var s := Text(v) + x;
    assert s[0] == '{' && s[1..] == MembersText(v, a) + "}" + x;
    NoLiteral(s);
    MembersHead(v, a, x);
    if a == [] {
      assert MembersText(v, a) == "" by { NoItems(v); }
      assert s == "{}" + x && s[2..] == x;
      assert CanonMembers(v, a) == [];
    } else {
      assert s[1] == s[1..][0];
      MembersRead(v, a, x);
    }
  }

  /** Before any delimited continuation, reading gives the value back and stops where the text ends. */
  lemma {:induction false} ValueReads(v: Json, x: string)
    requires Valid(v) && Delimited(x)
    ensures ReadValue(Text(v) + x) == Some((Canon(v), x))
    decreases v
  {
    hide ReadValue, ReadItems, ReadMembers, ItemsText, MembersText, CanonItems, CanonMembers, Quoted, IntText;
    match v
    case Null => LiteralsRead(x);
    case Bool(_) => LiteralsRead(x);
    case Int(n) => NumberReads(n, x);
    case Str(t) => StringReads(t, x);
    case Arr(_) => ArrayReads(v, x);
    case Obj(_) => ObjectReads(v, x);
    case Float =>
  }

  // ---------- the order of members is all that is lost ----------

  lemma {:induction false} CanonItemsSame(v: Json, a: seq<Json>)
    requires forall i :: 0 <= i < |a| ==> a[i] < v && Valid(a[i])
    ensures forall i :: 0 <= i < |a| ==> Same(a[i], CanonItems(v, a)[i])
    decreases v, |a|
  {
    hide Same, Canon, Valid;
    if a != [] {
      CanonIsSame(a[0]);
      CanonItemsSame(v, a[1..]);
      FirstCanon(v, a);
      assert forall i :: 1 <= i < |a| ==> a[i] == a[1..][i - 1] && CanonItems(v, a)[i] == CanonItems(v, a[1..])[i - 1];
    }
  }

  lemma {:induction false} CanonMembersSame(v: Json, a: seq<(string, Json)>)
    requires forall m :: m in a ==> m.1 < v && Valid(m.1)
    ensures Matched(a, CanonMembers(v, a))
    decreases v, |a|
  {
    hide Same, Canon, Valid;
    if a != [] {
      assert a[0] in a;
      CanonIsSame(a[0].1);
      CanonMembersSame(v, a[1..]);
      FirstCanonMember(v, a);
      assert forall i :: 1 <= i < |a| ==> a[i] == a[1..][i - 1] && CanonMembers(v, a)[i] == CanonMembers(v, a[1..])[i - 1];
    }
  }

  lemma MatchedMember(members: seq<(string, Json)>, b: seq<(string, Json)>, i: nat)
    requires Matched(Ordered(members), b) && i < |members|
    ensures HasMatch(members[i], b)
  {
    hide Same;
    var o := Ordered(members);
    assert members[i] in o;
    var k :| 0 <= k < |o| && o[k] == members[i];
  }

  lemma {:induction false} CanonIsSame(v: Json)
    requires Valid(v)
    ensures Same(v, Canon(v))
    decreases v
  {
    hide Ordered, CanonItems, CanonMembers, Matched, HasMatch;
    match v
    case Arr(items) => CanonItemsSame(v, items);
    case Obj(members) =>
      ValidMembers(v);
      CanonMembersSame(v, Ordered(members));
      forall i | 0 <= i < |members|
        ensures HasMatch(members[i], CanonMembers(v, Ordered(members)))
      {
        MatchedMember(members, CanonMembers(v, Ordered(members)), i);
      }
    case _ =>
  }

  // ---------- the order of members in the text ----------

  /** Every object's keys come in ascending order of their UTF-16 code units. */
  ghost predicate InKeyOrder(v: Json) {
    match v
    case Arr(items) => forall i :: 0 <= i < |items| ==> InKeyOrder(items[i])
    case Obj(members) =>
      && (forall i :: 0 <= i < |members| ==> InKeyOrder(members[i].1))
      && (forall i, j :: 0 <= i < j < |members| ==> ComesBefore(members[i].0, members[j].0))
    case _ => true
  }

  lemma {:induction false} CanonItemsInOrder(v: Json, a: seq<Json>)
    requires forall i :: 0 <= i < |a| ==> a[i] < v && Valid(a[i])
    ensures forall i :: 0 <= i < |a| ==> InKeyOrder(CanonItems(v, a)[i])
    decreases v, |a|
  {
    hide InKeyOrder, Canon, Valid;
    if a != [] {
      CanonInKeyOrder(a[0]);
      CanonItemsInOrder(v, a[1..]);
      FirstCanon(v, a);
      assert forall i :: 1 <= i < |a| ==> CanonItems(v, a)[i] == CanonItems(v, a[1..])[i - 1];
    }
  }

  lemma {:induction false} CanonMembersInOrder(v: Json, a: seq<(string, Json)>)
    requires forall m :: m in a ==> m.1 < v && Valid(m.1)
    ensures MembersMatchInOrder(a, CanonMembers(v, a))
    decreases v, |a|
  {
    hide InKeyOrder, Canon, Valid, CanonMembers;
    if a != [] {
      assert a[0] in a;
      CanonInKeyOrder(a[0].1);
      CanonMembersInOrder(v, a[1..]);
      FirstCanonMember(v, a);
      PrependInOrder(a, CanonMembers(v, a[1..]), Canon(a[0].1));
    }
  }

  /** The same keys, with values in order. */
  ghost predicate MembersMatchInOrder(a: seq<(string, Json)>, c: seq<(string, Json)>) {
    |c| == |a| && forall i :: 0 <= i < |a| ==> c[i].0 == a[i].0 && InKeyOrder(c[i].1)
  }

  lemma PrependInOrder(a: seq<(string, Json)>, c: seq<(string, Json)>, w: Json)
    requires a != [] && MembersMatchInOrder(a[1..], c) && InKeyOrder(w)
    ensures MembersMatchInOrder(a, [(a[0].0, w)] + c)
  {
    hide InKeyOrder;
    var whole := [(a[0].0, w)] + c;
    forall i | 0 <= i < |a|
      ensures whole[i].0 == a[i].0 && InKeyOrder(whole[i].1)
    {
      if i > 0 {
        assert whole[i] == c[i - 1] && a[i] == a[1..][i - 1];
      }
    }
  }

  lemma {:induction false} CanonInKeyOrder(v: Json)
    requires Valid(v)
    ensures InKeyOrder(Canon(v))
    decreases v
  {
    hide Ordered, CanonItems, CanonMembers, ComesBefore, KeyLess;
    match v
    case Arr(items) => CanonItemsInOrder(v, items);
    case Obj(members) =>
      ValidMembers(v);
      var a := Ordered(members);
      CanonMembersInOrder(v, a);
      OrderedAscending(members);
      forall i, j | 0 <= i < j < |a|
        ensures ComesBefore(a[i].0, a[j].0)
      {
        KeyOrderIsFirstDifference(a[i].0, a[j].0);
      }
    case _ =>
  }

  /** Reading the canonical text gives the same value, its keys in ascending order. */
  ghost predicate ReadsInKeyOrder(text: string, v: Json) {
    var r := ReadValue(text);
    r.Some? && r.value.1 == "" && Same(v, r.value.0) && InKeyOrder(r.value.0)
  }

  /** The members of every object in the canonical text come in ascending order of their keys. */
  lemma CanonicalTextIsOrdered(v: Json)
    requires Valid(v)
    ensures ReadsInKeyOrder(Text(v), v)
  {
    hide Text, ReadValue, Canon, Same, Valid, InKeyOrder;
    CanonicalTextReadsBack(v);
    CanonInKeyOrder(v);
  }

  /** The canonical text has an inverse: reading it gives the value back up to the order of members. */
  lemma CanonicalTextReadsBack(v: Json)
    requires Valid(v)
    ensures ReadValue(Text(v)) == Some((Canon(v), "")) && Same(v, Canon(v))
  {
    hide Text, ReadValue, Canon, Same, Valid;
    assert Text(v) + "" == Text(v);
    ValueReads(v, "");
    CanonIsSame(v);
  }
}
