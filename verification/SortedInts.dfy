/** Sorting a list of integers by insertion. */
module SortedInts {

  function Sorted(keys: seq<int>): seq<int> {
    if keys == [] then [] else Insert(keys[0], Sorted(keys[1..]))
  }

  function Insert(k: int, sorted: seq<int>): (s: seq<int>)
    ensures |s| == |sorted| + 1
  {
    if sorted == [] || k <= sorted[0] then [k] + sorted else [sorted[0]] + Insert(k, sorted[1..])
  }

  ghost predicate Ascending(keys: seq<int>) {
    forall i, j :: 0 <= i < j < |keys| ==> keys[i] < keys[j]
  }

  lemma Prepend(k: int, tail: seq<int>)
    requires Ascending(tail) && forall x :: x in tail ==> k < x
    ensures Ascending([k] + tail)
  {
    var all := [k] + tail;
    forall i, j | 0 <= i < j < |all|
      ensures all[i] < all[j]
    {
      assert all[j] in tail;
    }
  }

  lemma {:induction false} InsertKeeps(k: int, sorted: seq<int>)
    requires Ascending(sorted) && k !in sorted
    ensures Ascending(Insert(k, sorted)) && (forall x :: x in Insert(k, sorted) <==> x == k || x in sorted)
  {
    if sorted != [] && k > sorted[0] {
      InsertKeeps(k, sorted[1..]);
      var tail := Insert(k, sorted[1..]);
      forall x | x in tail
        ensures sorted[0] < x
      {
      }
      Prepend(sorted[0], tail);
    } else {
      forall x | x in sorted
        ensures k < x
      {
      }
      Prepend(k, sorted);
    }
  }

  /** Distinct integers come out strictly ascending, the same ones and as many. */
  lemma {:induction false} Sorts(keys: seq<int>)
    requires forall i, j :: 0 <= i < j < |keys| ==> keys[i] != keys[j]
    ensures Ascending(Sorted(keys)) && (forall x :: x in Sorted(keys) <==> x in keys) && |Sorted(keys)| == |keys|
  {
    if keys != [] {
      Sorts(keys[1..]);
      InsertKeeps(keys[0], Sorted(keys[1..]));
    }
  }

  lemma {:induction false} SortedAlready(keys: seq<int>)
    requires Ascending(keys)
    ensures Sorted(keys) == keys
  {
    if keys != [] {
      SortedAlready(keys[1..]);
      assert |keys| > 1 ==> keys[1..][0] == keys[1];
    }
  }
}
