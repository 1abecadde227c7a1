/**
 Canonical JSON for the float-free subset: the serializer, and the proof that its text determines the
 value up to the order in which object members were inserted.
 */
module Jcs {
  import opened Digits
  import opened KeyOrder
  import opened JsonStrings

  /** Objects keep their members in insertion order, as dictionaries do. */
  datatype Json =
    | Null | Bool(b: bool) | Int(n: int) | Str(s: string)
    | Arr(items: seq<Json>) | Obj(members: seq<(string, Json)>) | Float

  /** No float anywhere, and every object's keys are distinct. */
  ghost predicate Valid(v: Json) {
    match v
    case Arr(items) => forall i :: 0 <= i < |items| ==> Valid(items[i])
    case Obj(members) =>
      && (forall i :: 0 <= i < |members| ==> Valid(members[i].1))
      && DistinctKeys(members)
    case Float => false
    case _ => true
  }

  ghost predicate DistinctKeys(members: seq<(string, Json)>) {
    forall i, j :: 0 <= i < j < |members| ==> members[i].0 != members[j].0
  }

  /** Equality that ignores member order, as for dictionaries. */
  ghost predicate Same(v: Json, w: Json) {
    match (v, w)
    case (Arr(a), Arr(b)) => |a| == |b| && forall i :: 0 <= i < |a| ==> Same(a[i], b[i])
    case (Obj(a), Obj(b)) =>
      |a| == |b| && forall i :: 0 <= i < |a| ==> HasMatch(a[i], b)
    case (Arr(_), _) => false
    case (Obj(_), _) => false
    case _ => v == w
  }

  /** Some member has the same key and the same value. */
  ghost predicate HasMatch(m: (string, Json), members: seq<(string, Json)>)
    decreases m
  {
    exists j :: 0 <= j < |members| && m.0 == members[j].0 && Same(m.1, members[j].1)
  }

  // ---------- members in key order ----------

  /** Members sorted by key, by insertion. */
  function Ordered(members: seq<(string, Json)>): (o: seq<(string, Json)>)
    ensures |o| == |members| && forall x :: x in o <==> x in members
  {
    if members == [] then [] else InsertMember(members[0], Ordered(members[1..]))
  }

  function InsertMember(m: (string, Json), sorted: seq<(string, Json)>): (o: seq<(string, Json)>)
    ensures |o| == |sorted| + 1 && forall x :: x in o <==> x == m || x in sorted
  {
    if sorted == [] || KeyLess(m.0, sorted[0].0) then [m] + sorted
    else [sorted[0]] + InsertMember(m, sorted[1..])
  }

  ghost predicate Ascending(members: seq<(string, Json)>) {
    forall i, j :: 0 <= i < j < |members| ==> KeyLess(members[i].0, members[j].0)
  }

  // ---------- the text ----------

  function Text(v: Json): string
    decreases v
  {
    match v
    case Null => "null"
    case Bool(b) => if b then "true" else "false"
    case Int(n) => IntText(n)
    case Str(s) => Quoted(s)
    case Arr(items) => "[" + ItemsText(v, items) + "]"
    case Obj(members) =>
      "{" + MembersText(v, Ordered(members)) + "}"
    case Float => ""
  }

  function ItemsText(context: Json, items: seq<Json>): string
    requires forall i :: 0 <= i < |items| ==> items[i] < context
    decreases context, |items|
  {
    if items == [] then ""
    else if |items| == 1 then Text(items[0])
    else Text(items[0]) + "," + ItemsText(context, items[1..])
  }

  function MemberText(context: Json, m: (string, Json)): string
    requires m.1 < context
    decreases context, 0
  {
    Quoted(m.0) + ":" + Text(m.1)
  }

  function MembersText(context: Json, members: seq<(string, Json)>): string
    requires forall m :: m in members ==> m.1 < context
    decreases context, |members|
  {
    if members == [] then ""
    else if |members| == 1 then MemberText(context, members[0])
    else MemberText(context, members[0]) + "," + MembersText(context, members[1..])
  }

  // ---------- sorting facts ----------

  lemma {:induction false} OrderedAscending(members: seq<(string, Json)>)
    requires DistinctKeys(members)
    ensures Ascending(Ordered(members))
  {
    if members != [] {
      var rest := members[1..];
      OrderedAscending(rest);
      forall x | x in Ordered(rest)
        ensures x.0 != members[0].0
      {
        var j :| 0 <= j < |rest| && rest[j] == x;
        assert members[j + 1] == x;
      }
      InsertAscending(members[0], Ordered(rest));
    }
  }

  lemma {:induction false} InsertAscending(m: (string, Json), sorted: seq<(string, Json)>)
    requires Ascending(sorted) && forall x :: x in sorted ==> x.0 != m.0
    ensures Ascending(InsertMember(m, sorted))
  {
    hide KeyLess;
    if sorted == [] {
    } else {
      KeyOrderIsStrictTotal(m.0, sorted[0].0, "");
      if KeyLess(m.0, sorted[0].0) {
        SmallestFirst(m, sorted);
      } else {
        InsertAscending(m, sorted[1..]);
        var tail := InsertMember(m, sorted[1..]);
        forall x | x in tail
          ensures KeyLess(sorted[0].0, x.0)
        {
        }
        PrependAscending(sorted[0], tail);
      }
    }
  }

  lemma SmallestFirst(m: (string, Json), sorted: seq<(string, Json)>)
    requires Ascending(sorted) && sorted != [] && KeyLess(m.0, sorted[0].0)
    ensures Ascending([m] + sorted)
  {
    hide KeyLess;
    forall i | 0 <= i < |sorted|
      ensures KeyLess(m.0, sorted[i].0)
    {
      KeyOrderIsStrictTotal(m.0, sorted[0].0, sorted[i].0);
    }
    PrependAscending(m, sorted);
  }

  lemma PrependAscending(m: (string, Json), tail: seq<(string, Json)>)
    requires Ascending(tail) && forall i :: 0 <= i < |tail| ==> KeyLess(m.0, tail[i].0)
    ensures Ascending([m] + tail)
  {
    hide KeyLess;
    var all := [m] + tail;
    forall i, j | 0 <= i < j < |all|
      ensures KeyLess(all[i].0, all[j].0)
    {
      assert all[j] == tail[j - 1];
      assert i > 0 ==> all[i] == tail[i - 1];
    }
  }

  /** Position i of one object's sorted members matches position i of the other's. */
  ghost predicate Matched(a: seq<(string, Json)>, b: seq<(string, Json)>) {
    |a| == |b| && forall i :: 0 <= i < |a| ==> a[i].0 == b[i].0 && Same(a[i].1, b[i].1)
  }

  /** Every member of a has its match in b. */
  ghost predicate Covered(a: seq<(string, Json)>, b: seq<(string, Json)>) {
    |a| == |b| && forall i :: 0 <= i < |a| ==> HasMatch(a[i], b)
  }

  /** Matching sorted members are a match of the unsorted ones. */
  lemma MatchedMeansCovered(a: seq<(string, Json)>, b: seq<(string, Json)>)
    requires Matched(Ordered(a), Ordered(b))
    ensures Covered(a, b)
  {
    hide Same;
    var oa, ob := Ordered(a), Ordered(b);
    assert |a| == |b|;
    forall i | 0 <= i < |a|
      ensures HasMatch(a[i], b)
    {
      assert a[i] in oa;
      var k :| 0 <= k < |oa| && oa[k] == a[i];
      assert ob[k] in b;
      var j :| 0 <= j < |b| && b[j] == ob[k];
    }
  }
}
