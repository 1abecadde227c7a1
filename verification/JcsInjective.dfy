/** Canonical text determines the value: two valid values print alike exactly when they are the same value. */
module JcsInjective {
  import opened Digits
  import opened KeyOrder
  import opened JsonStrings
  import opened Jcs

  /** Nothing follows, or a character that cannot continue a number. */
  predicate Delimited(r: string) {
    r == "" || r[0] == ',' || r[0] == ']' || r[0] == '}'
  }

  // ---------- the first character tells the kind ----------

  function KindOfChar(c: char): nat {
    if c == 'n' then 0 else if c == 't' then 1 else if c == 'f' then 2
    else if c == '-' || IsDigit(c) then 3
    else if c == '"' then 4 else if c == '[' then 5 else if c == '{' then 6 else 7
  }

  function Kind(v: Json): nat {
    match v
    case Null => 0
    case Bool(b) => if b then 1 else 2
    case Int(_) => 3
    case Str(_) => 4
    case Arr(_) => 5
    case Obj(_) => 6
    case Float => 7
  }

  lemma TextHead(v: Json)
    requires !v.Float?
    ensures Text(v) != "" && KindOfChar(Text(v)[0]) == Kind(v)
  {
    hide Escaped, NatText;
    if v.Int? {
      assert v.n >= 0 ==> IsDigit(IntText(v.n)[0]);
    }
  }

  // ---------- numbers ----------

  lemma RunEnds(whole: string, a: string, r: string)
    requires AllDigits(a) && Delimited(r) && whole == a + r
    ensures forall k :: 0 <= k < |a| ==> IsDigit(whole[k])
    ensures |a| < |whole| ==> !IsDigit(whole[|a|])
  {
    if |a| < |whole| {
      assert whole[|a|] == r[0];
    }
  }

  lemma DigitRun(a: string, b: string, r: string, r': string)
    requires AllDigits(a) && AllDigits(b) && Delimited(r) && Delimited(r')
    requires a + r == b + r'
    ensures a == b && r == r'
  {
    hide AllDigits, Delimited;
    var whole := a + r;
    RunEnds(whole, a, r);
    RunEnds(whole, b, r');
    assert |a| == |b|;
    assert a == whole[..|a|] && b == whole[..|b|] && r == whole[|a|..] && r' == whole[|b|..];
  }

  /** Optional minus and digits. */
  function SignOf(n: int): string {
    if n < 0 then "-" else ""
  }

  function DigitsOf(n: int): (d: string)
    ensures AllDigits(d) && d != ""
  {
    NatText(if n < 0 then -n else n)
  }

  lemma IntParts(n: int, r: string)
    ensures IntText(n) == SignOf(n) + DigitsOf(n)
    ensures (IntText(n) + r)[|SignOf(n)|..] == DigitsOf(n) + r
  {
    hide NatText;
  }

  lemma IntPrefix(m: int, n: int, r: string, r': string)
    requires IntText(m) + r == IntText(n) + r' && Delimited(r) && Delimited(r')
    ensures m == n && r == r'
  {
    hide NatText, Delimited, IntText, DigitsOf;
    var whole := IntText(m) + r;
    assert whole[0] == IntText(m)[0] == IntText(n)[0];
    assert (m < 0) == (n < 0);
    IntParts(m, r);
    IntParts(n, r');
    DigitRun(DigitsOf(m), DigitsOf(n), r, r');
    IntTextInjective(m, n);
  }

  // ---------- arrays and objects ----------

  /** What follows the first item inside its array. */
  function ItemsRest(context: Json, items: seq<Json>): string
    requires forall i :: 0 <= i < |items| ==> items[i] < context
  {
    if |items| <= 1 then "" else "," + ItemsText(context, items[1..])
  }

  function MembersRest(context: Json, members: seq<(string, Json)>): string
    requires forall m :: m in members ==> m.1 < context
  {
    if |members| <= 1 then "" else "," + MembersText(context, members[1..])
  }

  lemma SplitConcat(a: string, b: string, c: string, d: string)
    ensures a + b + c + d == a + (b + c + d)
  {
  }

  lemma {:induction false} ItemsPrefix(v: Json, w: Json, a: seq<Json>, b: seq<Json>, r: string, r': string)
    requires forall i :: 0 <= i < |a| ==> a[i] < v && Valid(a[i])
    requires forall i :: 0 <= i < |b| ==> b[i] < w && Valid(b[i])
    requires ItemsText(v, a) + "]" + r == ItemsText(w, b) + "]" + r'
    ensures |a| == |b| && (forall i :: 0 <= i < |a| ==> Same(a[i], b[i])) && r == r'
    decreases v, |a|
  {
    hide Text, ItemsText, Same, ItemsRest;
    ItemsHead(v, a, r);
    ItemsHead(w, b, r');
    if a == [] && b == [] {
      assert r == ("]" + r)[1..] && r' == ("]" + r')[1..];
      assert ItemsText(v, a) == "" && ItemsText(w, b) == "" by { NoItems(v); NoItems(w); }
      assert "" + "]" + r == "]" + r && "" + "]" + r' == "]" + r';
    } else if a != [] && b != [] {
      var x, x' := ItemsRest(v, a) + "]" + r, ItemsRest(w, b) + "]" + r';
      FirstItem(v, a);
      FirstItem(w, b);
      SplitConcat(Text(a[0]), ItemsRest(v, a), "]", r);
      SplitConcat(Text(b[0]), ItemsRest(w, b), "]", r');
      ItemsRestShape(v, a, r);
      ItemsRestShape(w, b, r');
      TextPrefix(a[0], b[0], x, x');
      if |a| > 1 {
        ItemsPrefix(v, w, a[1..], b[1..], r, r');
        assert forall i :: 1 <= i < |a| ==> a[i] == a[1..][i - 1] && b[i] == b[1..][i - 1];
      }
    }
  }

  lemma ItemsRestShape(v: Json, a: seq<Json>, r: string)
    requires a != [] && forall i :: 0 <= i < |a| ==> a[i] < v
    ensures var x := ItemsRest(v, a) + "]" + r;
      && Delimited(x) && x != "" && x[0] == (if |a| == 1 then ']' else ',')
      && x[1..] == if |a| == 1 then r else ItemsText(v, a[1..]) + "]" + r
  {
    hide ItemsText;
    if |a| > 1 {
      SplitConcat(",", ItemsText(v, a[1..]), "]", r);
    } else {
      assert "" + "]" + r == "]" + r;
    }
  }

  lemma MembersRestShape(v: Json, a: seq<(string, Json)>, r: string)
    requires a != [] && forall m :: m in a ==> m.1 < v
    ensures var x := MembersRest(v, a) + "}" + r;
      && Delimited(x) && x != "" && x[0] == (if |a| == 1 then '}' else ',')
      && x[1..] == if |a| == 1 then r else MembersText(v, a[1..]) + "}" + r
  {
    hide MembersText;
    if |a| > 1 {
      SplitConcat(",", MembersText(v, a[1..]), "}", r);
    } else {
      assert "" + "}" + r == "}" + r;
    }
  }

  lemma NoItems(v: Json)
    ensures ItemsText(v, []) == "" && MembersText(v, []) == ""
  {
  }

  lemma FirstItem(v: Json, a: seq<Json>)
    requires a != [] && forall i :: 0 <= i < |a| ==> a[i] < v
    ensures ItemsText(v, a) == Text(a[0]) + ItemsRest(v, a)
  {
  }

  lemma ItemsHead(v: Json, a: seq<Json>, r: string)
    requires forall i :: 0 <= i < |a| ==> a[i] < v && Valid(a[i])
    ensures (ItemsText(v, a) + "]" + r)[0] == ']' <==> a == []
  {
    hide Text;
    if a != [] {
      TextHead(a[0]);
      FirstItem(v, a);
      assert (ItemsText(v, a) + "]" + r)[0] == Text(a[0])[0];
    }
  }

  lemma FirstMember(v: Json, a: seq<(string, Json)>)
    requires a != [] && forall m :: m in a ==> m.1 < v
    ensures MembersText(v, a) == Quoted(a[0].0) + (":" + Text(a[0].1) + MembersRest(v, a))
  {
    hide Quoted, Text;
    MembersByFirst(v, a);
    SplitConcat(Quoted(a[0].0), ":", Text(a[0].1), MembersRest(v, a));
  }

  lemma MembersByFirst(v: Json, a: seq<(string, Json)>)
    requires a != [] && forall m :: m in a ==> m.1 < v
    ensures MembersText(v, a) == MemberText(v, a[0]) + MembersRest(v, a)
  {
    hide MemberText;
    var m := MemberText(v, a[0]);
    if |a| == 1 {
      assert m + "" == m;
    } else {
      Associates(m, ",", MembersText(v, a[1..]));
    }
  }

  lemma MembersHead(v: Json, a: seq<(string, Json)>, r: string)
    requires forall m :: m in a ==> m.1 < v
    ensures (MembersText(v, a) + "}" + r)[0] == '}' <==> a == []
  {
    hide Escaped, Text;
    if a != [] {
      FirstMember(v, a);
      assert (MembersText(v, a) + "}" + r)[0] == '"';
    }
  }

  lemma {:induction false} MembersPrefix(v: Json, w: Json, a: seq<(string, Json)>, b: seq<(string, Json)>, r: string, r': string)
    requires forall m :: m in a ==> m.1 < v && Valid(m.1)
    requires forall m :: m in b ==> m.1 < w && Valid(m.1)
    requires MembersText(v, a) + "}" + r == MembersText(w, b) + "}" + r'
    ensures Matched(a, b) && r == r'
    decreases v, |a|
  {
    hide Text, MembersText, Same, Quoted, MembersRest;
    MembersHead(v, a, r);
    MembersHead(w, b, r');
    if a == [] && b == [] {
      NoItems(v);
      NoItems(w);
      assert r == ("" + "}" + r)[1..] && r' == ("" + "}" + r')[1..];
    } else if a != [] && b != [] {
      MemberSplits(v, a, r);
      MemberSplits(w, b, r');
      var x, x' := MembersRest(v, a) + "}" + r, MembersRest(w, b) + "}" + r';
      QuotedPrefix(a[0].0, b[0].0, ":" + (Text(a[0].1) + x), ":" + (Text(b[0].1) + x'));
      assert (":" + (Text(a[0].1) + x))[1..] == Text(a[0].1) + x && (":" + (Text(b[0].1) + x'))[1..] == Text(b[0].1) + x';
      MembersRestShape(v, a, r);
      MembersRestShape(w, b, r');
      TextPrefix(a[0].1, b[0].1, x, x');
      if |a| > 1 {
        MembersPrefix(v, w, a[1..], b[1..], r, r');
        assert forall i :: 1 <= i < |a| ==> a[i] == a[1..][i - 1] && b[i] == b[1..][i - 1];
      }
    }
  }

  lemma MemberSplits(v: Json, a: seq<(string, Json)>, r: string)
    requires a != [] && forall m :: m in a ==> m.1 < v
    ensures MembersText(v, a) + "}" + r == Quoted(a[0].0) + (":" + (Text(a[0].1) + (MembersRest(v, a) + "}" + r)))
  {
    hide Text, MembersText, Quoted;
    FirstMember(v, a);
  }

  /** Two values printed before delimited continuations: the same text means the same value and continuation. */
  lemma {:induction false} TextPrefix(v: Json, w: Json, r: string, r': string)
    requires Valid(v) && Valid(w) && Delimited(r) && Delimited(r')
    requires Text(v) + r == Text(w) + r'
    ensures Same(v, w) && r == r'
    decreases v
  {
    hide Quoted, ItemsText, MembersText, Matched, IntText;
    TextHead(v);
    TextHead(w);
    assert (Text(v) + r)[0] == Text(v)[0] && (Text(w) + r')[0] == Text(w)[0];
    assert Kind(v) == Kind(w);
    match v
    case Int(_) => IntPrefix(v.n, w.n, r, r');
    case Str(_) => QuotedPrefix(v.s, w.s, r, r');
    case Arr(_) => ArrPrefix(v, w, r, r');
    case Obj(_) => ObjPrefix(v, w, r, r');
    case Float =>
    case Null =>
      assert r == (Text(v) + r)[|Text(v)|..] && r' == (Text(w) + r')[|Text(w)|..];
    case Bool(_) =>
      assert r == (Text(v) + r)[|Text(v)|..] && r' == (Text(w) + r')[|Text(w)|..];
  }

  lemma {:induction false} ArrPrefix(v: Json, w: Json, r: string, r': string)
    requires v.Arr? && w.Arr? && Valid(v) && Valid(w)
    requires Text(v) + r == Text(w) + r'
    ensures Same(v, w) && r == r'
    decreases v, |v.items| + 1
  {
    hide ItemsText;
    assert (Text(v) + r)[1..] == ItemsText(v, v.items) + "]" + r;
    assert (Text(w) + r')[1..] == ItemsText(w, w.items) + "]" + r';
    ItemsPrefix(v, w, v.items, w.items, r, r');
  }

  lemma {:induction false} ObjPrefix(v: Json, w: Json, r: string, r': string)
    requires v.Obj? && w.Obj? && Valid(v) && Valid(w)
    requires Text(v) + r == Text(w) + r'
    ensures Same(v, w) && r == r'
    decreases v, |v.members| + 1
  {
    hide MembersText, Matched, Covered;
    var a, b := Ordered(v.members), Ordered(w.members);
    assert (Text(v) + r)[1..] == MembersText(v, a) + "}" + r;
    assert (Text(w) + r')[1..] == MembersText(w, b) + "}" + r';
    ValidMembers(v);
    ValidMembers(w);
    MembersPrefix(v, w, a, b, r, r');
    MatchedMeansCovered(v.members, w.members);
    CoveredMeansSame(v, w);
  }

  lemma CoveredMeansSame(v: Json, w: Json)
    requires v.Obj? && w.Obj? && Covered(v.members, w.members)
    ensures Same(v, w)
  {
  }

  lemma ValidMembers(v: Json)
    requires v.Obj? && Valid(v)
    ensures forall m :: m in Ordered(v.members) ==> m.1 < v && Valid(m.1)
  {
    forall m | m in Ordered(v.members)
      ensures m.1 < v && Valid(m.1)
    {
      assert m in v.members;
      var i :| 0 <= i < |v.members| && v.members[i] == m;
    }
  }
}
