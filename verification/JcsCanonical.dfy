/** The same value always prints the same text, whatever the insertion order, and the serializer prints it. */
module JcsCanonical {
  import opened Digits
  import opened FiniteSets
  import opened KeyOrder
  import opened JsonStrings
  import opened Jcs
  import opened JcsInjective

  ghost function KeySet(members: seq<(string, Json)>): (s: set<string>)
    ensures forall k :: k in s <==> exists i :: 0 <= i < |members| && members[i].0 == k
  {
    if members == [] then {} else KeySet(members[1..]) + {members[0].0}
  }

  lemma {:induction false} KeySetSize(members: seq<(string, Json)>)
    requires DistinctKeys(members)
    ensures |KeySet(members)| == |members|
  {
    if members != [] {
      var rest := members[1..];
      KeySetSize(rest);
      forall i | 0 <= i < |rest|
        ensures rest[i].0 != members[0].0
      {
        assert members[i + 1].0 != members[0].0;
      }
    }
  }

  lemma LeastKey(a: seq<(string, Json)>, b: seq<(string, Json)>)
    requires a != [] && Ascending(a) && Ascending(b) && KeySet(a) == KeySet(b)
    ensures b != [] && a[0].0 == b[0].0
  {
    hide KeyLess;
    assert a[0].0 in KeySet(a);
    var j :| 0 <= j < |b| && b[j].0 == a[0].0;
    assert b[0].0 in KeySet(b);
    var k :| 0 <= k < |a| && a[k].0 == b[0].0;
    if j > 0 && k > 0 {
      assert KeyLess(b[0].0, b[j].0) && KeyLess(a[0].0, a[k].0);
      KeyOrderIsStrictTotal(a[0].0, b[0].0, a[0].0);
    }
  }

  lemma RestKeys(a: seq<(string, Json)>)
    requires a != [] && Ascending(a)
    ensures Ascending(a[1..]) && KeySet(a[1..]) == KeySet(a) - {a[0].0}
  {
    hide KeyLess;
    forall i | 0 <= i < |a[1..]|
      ensures a[1..][i].0 != a[0].0
    {
      KeyOrderIsStrictTotal(a[0].0, a[0].0, a[0].0);
      assert KeyLess(a[0].0, a[i + 1].0);
    }
  }

  /** Two ascending lists with the same keys have them in the same places. */
  lemma {:induction false} KeysAligned(a: seq<(string, Json)>, b: seq<(string, Json)>)
    requires Ascending(a) && Ascending(b) && KeySet(a) == KeySet(b)
    ensures |a| == |b| && forall i :: 0 <= i < |a| ==> a[i].0 == b[i].0
  {
    hide KeyLess, Ascending;
    assert b != [] ==> b[0].0 in KeySet(b);
    if a == [] {
    } else {
      LeastKey(a, b);
      RestKeys(a);
      RestKeys(b);
      KeysAligned(a[1..], b[1..]);
      assert forall i :: 1 <= i < |a| ==> a[i] == a[1..][i - 1] && b[i] == b[1..][i - 1];
    }
  }

  lemma SameKeySets(a: seq<(string, Json)>, b: seq<(string, Json)>)
    requires Covered(a, b) && DistinctKeys(a) && DistinctKeys(b)
    ensures KeySet(a) == KeySet(b)
  {
    hide Same;
    forall k | k in KeySet(a)
      ensures k in KeySet(b)
    {
      var i :| 0 <= i < |a| && a[i].0 == k;
      assert HasMatch(a[i], b);
    }
    KeySetSize(a);
    KeySetSize(b);
    SameSize(KeySet(a), KeySet(b));
  }

  lemma OrderedKeySet(members: seq<(string, Json)>)
    ensures KeySet(Ordered(members)) == KeySet(members)
  {
    var o := Ordered(members);
    forall k
      ensures k in KeySet(o) <==> k in KeySet(members)
    {
      if k in KeySet(o) {
        var i :| 0 <= i < |o| && o[i].0 == k;
        assert o[i] in members;
      }
      if k in KeySet(members) {
        var i :| 0 <= i < |members| && members[i].0 == k;
        assert members[i] in o;
      }
    }
  }

  /** Covering members, once both sides are sorted, match place by place. */
  lemma CoveredMeansMatched(a: seq<(string, Json)>, b: seq<(string, Json)>)
    requires Covered(a, b) && DistinctKeys(a) && DistinctKeys(b)
    ensures Matched(Ordered(a), Ordered(b))
  {
    hide Same, KeyLess;
    SameKeySets(a, b);
    OrderedKeySet(a);
    OrderedKeySet(b);
    OrderedAscending(a);
    OrderedAscending(b);
    var oa, ob := Ordered(a), Ordered(b);
    KeysAligned(oa, ob);
    forall i | 0 <= i < |oa|
      ensures Same(oa[i].1, ob[i].1)
    {
      assert oa[i] in a;
      MatchInSorted(a, b, oa[i], ob, i);
    }
  }

  lemma MatchInSorted(a: seq<(string, Json)>, b: seq<(string, Json)>, m: (string, Json), ob: seq<(string, Json)>, i: nat)
    requires Covered(a, b) && m in a && ob == Ordered(b) && Ascending(ob)
    requires i < |ob| && ob[i].0 == m.0
    ensures Same(m.1, ob[i].1)
  {
    hide Same, KeyLess;
    var n :| 0 <= n < |a| && a[n] == m;
    assert HasMatch(a[n], b);
    var j :| 0 <= j < |b| && m.0 == b[j].0 && Same(m.1, b[j].1);
    assert b[j] in ob;
    var k :| 0 <= k < |ob| && ob[k] == b[j];
    KeyOrderIsStrictTotal(m.0, m.0, m.0);
    assert !(k < i) && !(i < k);
  }

  // ---------- the same value prints the same text ----------

  lemma {:induction false} SameItemsText(v: Json, w: Json, a: seq<Json>, b: seq<Json>)
    requires forall i :: 0 <= i < |a| ==> a[i] < v && Valid(a[i])
    requires forall i :: 0 <= i < |b| ==> b[i] < w && Valid(b[i])
    requires |a| == |b| && forall i :: 0 <= i < |a| ==> Same(a[i], b[i])
    ensures ItemsText(v, a) == ItemsText(w, b)
    decreases v, |a|
  {
    hide Text, Same, ItemsText;
    if a == [] {
      NoItems(v);
      NoItems(w);
    } else {
      SameText(a[0], b[0]);
      SameItemsText(v, w, a[1..], b[1..]);
      FirstItem(v, a);
      FirstItem(w, b);
    }
  }

  lemma {:induction false} SameMembersText(v: Json, w: Json, a: seq<(string, Json)>, b: seq<(string, Json)>)
    requires forall m :: m in a ==> m.1 < v && Valid(m.1)
    requires forall m :: m in b ==> m.1 < w && Valid(m.1)
    requires Matched(a, b)
    ensures MembersText(v, a) == MembersText(w, b)
    decreases v, |a|
  {
    hide Text, Same, MembersText;
    if a == [] {
      NoItems(v);
      NoItems(w);
    } else {
      assert a[0] in a && b[0] in b;
      SameText(a[0].1, b[0].1);
      SameMembersText(v, w, a[1..], b[1..]);
      FirstMember(v, a);
      FirstMember(w, b);
    }
  }

  lemma {:induction false} SameText(v: Json, w: Json)
    requires Valid(v) && Valid(w) && Same(v, w)
    ensures Text(v) == Text(w)
    decreases v
  {
    hide Quoted, IntText, ItemsText, MembersText;
    if v.Arr? {
      SameItemsText(v, w, v.items, w.items);
    } else if v.Obj? {
      CoveredMeansMatched(v.members, w.members);
      ValidMembers(v);
      ValidMembers(w);
      SameMembersText(v, w, Ordered(v.members), Ordered(w.members));
    }
  }

  /** Canonical text is equal exactly for values that are equal up to member order. */
  lemma CanonicalTextDecides(v: Json, w: Json)
    requires Valid(v) && Valid(w)
    ensures Text(v) == Text(w) <==> Same(v, w)
  {
    hide Text, Same, Valid;
    if Text(v) == Text(w) {
      assert Text(v) + "" == Text(v) && Text(w) + "" == Text(w);
      TextPrefix(v, w, "", "");
    }
    if Same(v, w) {
      SameText(v, w);
    }
  }

  lemma {:induction false} SameReflexive(v: Json)
    ensures Same(v, v)
    decreases v
  {
    match v
    case Arr(items) =>
      forall i | 0 <= i < |items|
        ensures Same(items[i], items[i])
      {
        SameReflexive(items[i]);
      }
    case Obj(members) =>
      forall i | 0 <= i < |members|
        ensures HasMatch(members[i], members)
      {
        SameReflexive(members[i].1);
      }
    case _ =>
  }

  /** Inserting the same members in another order does not change the text. */
  lemma InsertionOrderIsIrrelevant(a: seq<(string, Json)>, b: seq<(string, Json)>)
    requires Valid(Obj(a)) && Valid(Obj(b)) && |a| == |b|
    requires forall m :: m in a ==> m in b
    ensures Text(Obj(a)) == Text(Obj(b))
  {
    hide Text;
    forall i | 0 <= i < |a|
      ensures HasMatch(a[i], b)
    {
      assert a[i] in b;
      SameReflexive(a[i].1);
    }
    SameText(Obj(a), Obj(b));
  }

  /** The text holds no control character, so in particular no line break. */
  lemma {:induction false} TextHasNoControls(v: Json)
    ensures forall i :: 0 <= i < |Text(v)| ==> Text(v)[i] >= ' '
    decreases v
  {
    match v
    case Int(n) => IntHasNoControls(n);
    case Str(s) => QuotedHasNoControls(s);
    case Arr(items) => ItemsHaveNoControls(v, items);
    case Obj(members) => MembersHaveNoControls(v, Ordered(members));
    case _ =>
  }

  lemma IntHasNoControls(n: int)
    ensures forall i :: 0 <= i < |IntText(n)| ==> IntText(n)[i] >= ' '
  {
    hide NatText;
    var t := IntText(n);
    if n < 0 {
      assert forall i :: 1 <= i < |t| ==> t[i] == t[1..][i - 1];
    }
  }

  lemma {:induction false} ItemsHaveNoControls(v: Json, items: seq<Json>)
    requires forall i :: 0 <= i < |items| ==> items[i] < v
    ensures forall i :: 0 <= i < |ItemsText(v, items)| ==> ItemsText(v, items)[i] >= ' '
    decreases v, |items|
  {
    if items != [] {
      TextHasNoControls(items[0]);
      ItemsHaveNoControls(v, items[1..]);
    }
  }

  lemma {:induction false} MembersHaveNoControls(v: Json, members: seq<(string, Json)>)
    requires forall m :: m in members ==> m.1 < v
    ensures forall i :: 0 <= i < |MembersText(v, members)| ==> MembersText(v, members)[i] >= ' '
    decreases v, |members|
  {
    hide Quoted, Text, MemberText;
    if members != [] {
      MemberHasNoControls(v, members[0]);
      MembersHaveNoControls(v, members[1..]);
    }
  }

  lemma {:induction false} MemberHasNoControls(v: Json, m: (string, Json))
    requires m.1 < v
    ensures forall i :: 0 <= i < |MemberText(v, m)| ==> MemberText(v, m)[i] >= ' '
    decreases v, 0
  {
    hide Quoted, Text;
    QuotedHasNoControls(m.0);
    TextHasNoControls(m.1);
  }
}
