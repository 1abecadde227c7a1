/**
 The serializer itself: a recursive walk that appends pieces to one shared list and stops at the first
 float.
 */
module JcsSerializer {
  import opened Digits
  import opened JsonStrings
  import opened Jcs
  import opened JcsInjective
  import opened JcsReader
  import opened Wrappers

  ghost predicate FloatFree(v: Json) {
    match v
    case Arr(items) => forall i :: 0 <= i < |items| ==> FloatFree(items[i])
    case Obj(members) => forall i :: 0 <= i < |members| ==> FloatFree(members[i].1)
    case Float => false
    case _ => true
  }

  /** All pieces end to end. */
  function Joined(pieces: seq<string>): string {
    if pieces == [] then "" else Joined(pieces[..|pieces| - 1]) + pieces[|pieces| - 1]
  }

  lemma JoinedAppend(pieces: seq<string>, piece: string)
    ensures Joined(pieces + [piece]) == Joined(pieces) + piece
  {
    assert (pieces + [piece])[..|pieces|] == pieces;
  }

  /** The list every recursive call appends to. */
  class Output {
    var pieces: seq<string>

    constructor ()
      ensures pieces == []
    {
      pieces := [];
    }

    ghost function Written(): string
      reads this
    {
      Joined(pieces)
    }

    method Append(piece: string)
      modifies this
      ensures Written() == old(Written()) + piece
    {
      JoinedAppend(pieces, piece);
      pieces := pieces + [piece];
    }
  }

  method QuoteString(s: string) returns (q: string)
    ensures q == Quoted(s)
  {
    var pieces := ["\""];
    for i := 0 to |s|
      invariant Joined(pieces) + Escaped(s[i..]) == "\"" + Escaped(s)
    {
      JoinedAppend(pieces, EscapeChar(s[i]));
      EscapedStep(s[i..], Joined(pieces));
      assert s[i..][1..] == s[i + 1..];
      pieces := pieces + [EscapeChar(s[i])];
    }
    JoinedAppend(pieces, "\"");
    q := Joined(pieces + ["\""]);
    assert Joined(pieces) + "" == Joined(pieces);
  }

  lemma EscapedStep(s: string, before: string)
    requires s != ""
    ensures before + Escaped(s) == before + EscapeChar(s[0]) + Escaped(s[1..])
  {
    hide EscapeChar;
  }

  /** What is still to be written after k items. */
  ghost function ItemsLeft(v: Json, items: seq<Json>, k: nat): string
    requires k <= |items| && forall i :: 0 <= i < |items| ==> items[i] < v
  {
    if k == 0 then ItemsText(v, items) else ItemsRest(v, items[k - 1..])
  }

  ghost function MembersLeft(v: Json, members: seq<(string, Json)>, k: nat): string
    requires k <= |members| && forall m :: m in members ==> m.1 < v
  {
    if k == 0 then MembersText(v, members) else MembersRest(v, members[k - 1..])
  }

  lemma NextItem(v: Json, items: seq<Json>, k: nat)
    requires k < |items| && forall i :: 0 <= i < |items| ==> items[i] < v
    ensures ItemsLeft(v, items, k) == (if k == 0 then "" else ",") + (Text(items[k]) + ItemsLeft(v, items, k + 1))
  {
    hide Text, ItemsText;
    FirstItem(v, items[k..]);
    assert items[0..] == items;
    assert k > 0 ==> items[k - 1..][1..] == items[k..];
  }

  lemma NextMember(v: Json, members: seq<(string, Json)>, k: nat)
    requires k < |members| && forall m :: m in members ==> m.1 < v
    ensures MembersLeft(v, members, k) ==
            (if k == 0 then "" else ",") + (Quoted(members[k].0) + (":" + Text(members[k].1) + MembersLeft(v, members, k + 1)))
  {
    hide Text, Quoted, MembersText;
    FirstMember(v, members[k..]);
    assert members[0..] == members;
    assert k > 0 ==> members[k - 1..][1..] == members[k..];
  }

  lemma NothingLeft(v: Json, items: seq<Json>)
    requires forall i :: 0 <= i < |items| ==> items[i] < v
    ensures ItemsLeft(v, items, |items|) == ""
  {
  }

  lemma NoMemberLeft(v: Json, members: seq<(string, Json)>)
    requires forall m :: m in members ==> m.1 < v
    ensures MembersLeft(v, members, |members|) == ""
  {
  }

  lemma FourPieces(a: string, b: string, c: string, d: string)
    ensures a + (b + (c + d)) == a + b + c + d
  {
  }

  lemma SixPieces(a: string, b: string, c: string, d: string, e: string)
    ensures a + (b + (c + (":" + d + e))) == a + b + c + ":" + d + e
  {
  }

  /** Writes the value's canonical text, and fails exactly when it meets a float. */
  method Serialize(v: Json, out: Output) returns (ok: bool)
    modifies out
    ensures ok <==> FloatFree(v)
    ensures ok ==> out.Written() == old(out.Written()) + Text(v)
    decreases v, 1
  {
    match v
    case Null => out.Append("null"); ok := true;
    case Bool(b) => out.Append(if b then "true" else "false"); ok := true;
    case Int(n) => out.Append(IntText(n)); ok := true;
    case Str(s) =>
      var q := QuoteString(s);
      out.Append(q);
      ok := true;
    case Arr(items) => ok := SerializeItems(v, out);
    case Obj(members) => ok := SerializeMembers(v, out);
    case Float => ok := false;
  }

  method SerializeItems(v: Json, out: Output) returns (ok: bool)
    requires v.Arr?
    modifies out
    ensures ok <==> FloatFree(v)
    ensures ok ==> out.Written() == old(out.Written()) + Text(v)
    decreases v, 0
  {
    hide Joined, ItemsText, ItemsLeft, IntText, Quoted, MembersText;
    ghost var before := out.Written();
    var items := v.items;
    out.Append("[");
    assert ItemsLeft(v, items, 0) == ItemsText(v, items) by { AllItemsLeft(v, items); }
    var k := 0;
    while k < |items|
      invariant 0 <= k <= |items|
      invariant forall i :: 0 <= i < k ==> FloatFree(items[i])
      invariant out.Written() + ItemsLeft(v, items, k) == before + "[" + ItemsText(v, items)
    {
      NextItem(v, items, k);
      ghost var written := out.Written();
      if k > 0 {
        out.Append(",");
      }
      ok := Serialize(items[k], out);
      if !ok {
        return;
      }
      FourPieces(written, if k == 0 then "" else ",", Text(items[k]), ItemsLeft(v, items, k + 1));
      assert k == 0 ==> written + "" == written;
      k := k + 1;
    }
    NothingLeft(v, items);
    assert out.Written() + "" == out.Written();
    out.Append("]");
    ok := true;
    assert before + "[" + ItemsText(v, items) + "]" == before + ("[" + ItemsText(v, items) + "]");
  }

  lemma AllItemsLeft(v: Json, items: seq<Json>)
    requires forall i :: 0 <= i < |items| ==> items[i] < v
    ensures ItemsLeft(v, items, 0) == ItemsText(v, items)
  {
  }

  lemma AllMembersLeft(v: Json, members: seq<(string, Json)>)
    requires forall m :: m in members ==> m.1 < v
    ensures MembersLeft(v, members, 0) == MembersText(v, members)
  {
  }

  lemma OrderedInside(v: Json)
    requires v.Obj?
    ensures forall m :: m in Ordered(v.members) ==> m.1 < v
  {
    hide FloatFree;
    forall m | m in Ordered(v.members)
      ensures m.1 < v
    {
      assert m in v.members;
    }
  }

  lemma FloatInMember(v: Json, m: (string, Json))
    requires v.Obj? && m in Ordered(v.members) && !FloatFree(m.1)
    ensures !FloatFree(v)
  {
    hide Ordered;
    assert m in v.members;
  }

  lemma NoFloatInMembers(v: Json)
    requires v.Obj? && forall m :: m in Ordered(v.members) ==> FloatFree(m.1)
    ensures FloatFree(v)
  {
    hide Ordered;
    forall i | 0 <= i < |v.members|
      ensures FloatFree(v.members[i].1)
    {
      assert v.members[i] in Ordered(v.members);
    }
  }

  method SerializeMembers(v: Json, out: Output) returns (ok: bool)
    requires v.Obj?
    modifies out
    ensures ok <==> FloatFree(v)
    ensures ok ==> out.Written() == old(out.Written()) + Text(v)
    decreases v, 0
  {
    hide Joined, MembersText, MembersLeft, ItemsText, IntText, Quoted, Ordered, FloatFree;
    ghost var before := out.Written();
    var members := Ordered(v.members);
    OrderedInside(v);
    out.Append("{");
    AllMembersLeft(v, members);
    var k := 0;
    while k < |members|
      invariant 0 <= k <= |members|
      invariant forall i :: 0 <= i < k ==> FloatFree(members[i].1)
      invariant out.Written() + MembersLeft(v, members, k) == before + "{" + MembersText(v, members)
    {
      NextMember(v, members, k);
      ghost var written := out.Written();
      if k > 0 {
        out.Append(",");
      }
      var q := QuoteString(members[k].0);
      out.Append(q);
      out.Append(":");
      assert members[k] in members;
      ok := Serialize(members[k].1, out);
      if !ok {
        FloatInMember(v, members[k]);
        return;
      }
      SixPieces(written, if k == 0 then "" else ",", q, Text(members[k].1), MembersLeft(v, members, k + 1));
      assert k == 0 ==> written + "" == written;
      k := k + 1;
    }
    NoMemberLeft(v, members);
    NoFloatInMembers(v);
    assert out.Written() + "" == out.Written();
    out.Append("}");
    ok := true;
    assert before + "{" + MembersText(v, members) + "}" == before + ("{" + MembersText(v, members) + "}");
  }

  lemma {:induction false} ValidIsFloatFree(v: Json)
    requires Valid(v)
    ensures FloatFree(v)
  {
    match v
    case Arr(items) =>
      forall i | 0 <= i < |items|
        ensures FloatFree(items[i])
      {
        ValidIsFloatFree(items[i]);
      }
    case Obj(members) =>
      forall i | 0 <= i < |members|
        ensures FloatFree(members[i].1)
      {
        ValidIsFloatFree(members[i].1);
      }
    case _ =>
  }

  /**
   The canonical text, or nothing when a float appears anywhere. The text of a value with distinct keys
   reads back as that value with every object's keys in ascending order.
   */
  method Canonicalize(v: Json) returns (r: Option<string>)
    ensures r == if FloatFree(v) then Some(Text(v)) else None
    ensures Valid(v) ==> r.Some? && ReadsInKeyOrder(r.value, v)
  {
    hide Text, ReadsInKeyOrder;
    if Valid(v) {
      ValidIsFloatFree(v);
      CanonicalTextIsOrdered(v);
    }
    var out := new Output();
    var ok := Serialize(v, out);
    if ok {
      assert out.Written() == "" + Text(v) == Text(v);
      r := Some(Joined(out.pieces));
    } else {
      r := None;
    }
  }
}
