/** Sizes of finite sets, and why a list of distinct small indices lists them all. */
module FiniteSets {

  lemma SubsetSize<T>(a: set<T>, b: set<T>)
    requires a <= b
    ensures |a| + |b - a| == |b|
  {
    assert b == a + (b - a);
  }

  lemma SameSize<T>(a: set<T>, b: set<T>)
    requires a <= b && |a| == |b|
    ensures a == b
  {
    SubsetSize(a, b);
    assert b == a + (b - a);
  }

  /** The indices below n. */
  ghost function Below(n: nat): (s: set<nat>)
    ensures forall i :: i in s <==> 0 <= i < n
    ensures |s| == n
  {
    if n == 0 then {} else Below(n - 1) + {n - 1}
  }

  ghost function Elements(s: seq<nat>): (r: set<nat>)
    ensures forall x :: x in r <==> x in s
  {
    if s == [] then {} else Elements(s[1..]) + {s[0]}
  }

  lemma {:induction false} ElementsSize(s: seq<nat>)
    requires forall i, j :: 0 <= i < j < |s| ==> s[i] != s[j]
    ensures |Elements(s)| == |s|
  {
    if s != [] {
      ElementsSize(s[1..]);
      forall x | x in s[1..]
        ensures x != s[0]
      {
      }
    }
  }

  /** A list of n distinct indices below n has every index somewhere. */
  lemma Onto(s: seq<nat>, c: nat) returns (j: nat)
    requires forall i, k :: 0 <= i < k < |s| ==> s[i] != s[k]
    requires forall i :: 0 <= i < |s| ==> s[i] < |s|
    requires c < |s|
    ensures j < |s| && s[j] == c
  {
    ElementsSize(s);
    SameSize(Elements(s), Below(|s|));
    assert c in Elements(s);
    j :| 0 <= j < |s| && s[j] == c;
  }
}
