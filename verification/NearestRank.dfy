/** The non-interpolated 2.5% / 97.5% interval of a list of replicate means. */
module NearestRank {
  import opened Wrappers
  import opened Sums
  import opened Ranks

  /** v is the rank-th smallest value: fewer than `rank` values lie below it, at least `rank` do not exceed it. */
  ghost predicate IsRank(values: seq<real>, v: real, rank: nat) {
    Below(values, v) < rank as real <= Below(values, v) + Tied(values, v)
  }

  lemma {:induction false} IndicatorCounts(values: seq<real>, v: real)
    ensures Below(values, v) == |set k | 0 <= k < |values| && values[k] < v| as real
    ensures Below(values, v) + Tied(values, v) == |set k | 0 <= k < |values| && values[k] <= v| as real
  {
    hide Sum;
    var n := |values|;
    CountIsCard(values, x => x < v, n);
    CountIsCard(values, x => x <= v, n);
    var below := (k: int) => if At(values, k) < v then 1.0 else 0.0;
    var tied := (k: int) => if At(values, k) == v then 1.0 else 0.0;
    var both := (k: int) => if At(values, k) <= v then 1.0 else 0.0;
    SumEqual(n, below, k => if At(values, k) < v then 1.0 else 0.0);
    SumEqual(n, tied, k => if At(values, k) == v then 1.0 else 0.0);
    SumLinear(n, both, 1.0, below, 1.0, tied);
    SumEqual(n, below, k => if (x => x < v)(At(values, k)) then 1.0 else 0.0);
    SumEqual(n, both, k => if (x => x <= v)(At(values, k)) then 1.0 else 0.0);
    assert Satisfying(values, x => x < v, n) == set k | 0 <= k < |values| && values[k] < v;
    assert Satisfying(values, x => x <= v, n) == set k | 0 <= k < |values| && values[k] <= v;
  }

  ghost function Satisfying(values: seq<real>, p: real -> bool, n: nat): (r: set<int>)
    ensures forall k :: k in r <==> 0 <= k < n && p(At(values, k))
  {
    set k | 0 <= k < n && p(At(values, k))
  }

  lemma {:induction false} CountIsCard(values: seq<real>, p: real -> bool, n: nat)
    ensures Sum(n, k => if p(At(values, k)) then 1.0 else 0.0) == |Satisfying(values, p, n)| as real
  {
    if n != 0 {
      CountIsCard(values, p, n - 1);
      var f := (k: int) => if p(At(values, k)) then 1.0 else 0.0;
      SumEqual(n, f, k => if p(At(values, k)) then 1.0 else 0.0);
      SumEqual(n - 1, f, k => if p(At(values, k)) then 1.0 else 0.0);
      var before := Satisfying(values, p, n - 1);
      assert Satisfying(values, p, n) == if p(At(values, n - 1)) then before + {n - 1} else before;
    }
  }

  /** Ranks by counting: fewer than `rank` values are smaller than v, and at least `rank` are at most v. */
  lemma RankIsCounted(values: seq<real>, v: real, rank: nat)
    ensures IsRank(values, v, rank) <==>
      |set k | 0 <= k < |values| && values[k] < v| < rank <= |set k | 0 <= k < |values| && values[k] <= v|
  {
    hide Below, Tied;
    IndicatorCounts(values, v);
  }

  /** The value at position p of the sorted order has rank p + 1. */
  lemma SortedPositionHasRank(values: seq<real>, order: seq<nat>, p: nat)
    requires SortedOrder(values, order) && p < |order|
    ensures IsRank(values, values[order[p]], p + 1)
  {
    hide Sum;
    var v := values[order[p]];
    var below := (k: int) => if At(values, k) < v then 1.0 else 0.0;
    var tied := (k: int) => if At(values, k) == v then 1.0 else 0.0;
    var both := (k: int) => if At(values, k) <= v then 1.0 else 0.0;
    SumEqual(|values|, below, k => if At(values, k) < v then 1.0 else 0.0);
    SumEqual(|values|, tied, k => if At(values, k) == v then 1.0 else 0.0);
    SumLinear(|values|, both, 1.0, below, 1.0, tied);
    SumAlongOrder(values, order, below);
    SumAlongOrder(values, order, both);
    CountAtMost(|values|, p, q => below(if 0 <= q < |order| then order[q] else 0));
    CountAtLeast(|values|, p + 1, q => both(if 0 <= q < |order| then order[q] else 0));
  }

  lemma {:induction false} CountAtMost(n: nat, limit: nat, f: int -> real)
    requires limit <= n
    requires forall q :: 0 <= q < n ==> f(q) <= 1.0 && (q >= limit ==> f(q) <= 0.0)
    ensures Sum(n, f) <= limit as real
  {
    if n != 0 {
      CountAtMost(n - 1, if limit < n then limit else limit - 1, f);
    }
  }

  lemma {:induction false} CountAtLeast(n: nat, limit: nat, f: int -> real)
    requires limit <= n
    requires forall q :: 0 <= q < n ==> f(q) >= 0.0 && (q < limit ==> f(q) >= 1.0)
    ensures Sum(n, f) >= limit as real
  {
    if n != 0 {
      CountAtLeast(n - 1, if limit < n then limit else limit - 1, f);
    }
  }

  lemma {:induction false} SumAtMost(n: nat, f: int -> real, g: int -> real)
    requires forall i :: 0 <= i < n ==> f(i) <= g(i)
    ensures Sum(n, f) <= Sum(n, g)
  {
    if n != 0 {
      SumAtMost(n - 1, f, g);
    }
  }

  /** Everything up to v lies below any larger value. */
  lemma UpToIsBelow(values: seq<real>, v: real, v': real)
    requires v < v'
    ensures Below(values, v) + Tied(values, v) <= Below(values, v')
  {
    hide Sum;
    var upTo := (k: int) => if At(values, k) <= v then 1.0 else 0.0;
    SumLinear(|values|, upTo, 1.0, k => if At(values, k) < v then 1.0 else 0.0, 1.0, k => if At(values, k) == v then 1.0 else 0.0);
    SumAtMost(|values|, upTo, k => if At(values, k) < v' then 1.0 else 0.0);
  }

  /** A rank names one value only, and a larger rank never a smaller value. */
  lemma RankIsMonotone(values: seq<real>, v: real, rank: nat, v': real, rank': nat)
    requires IsRank(values, v, rank) && IsRank(values, v', rank') && rank <= rank'
    ensures v <= v'
  {
    hide Below, Tied;
    if v' < v {
      UpToIsBelow(values, v', v);
    }
  }

  /** The least rank that is at least a fortieth of the count. */
  function LowerRank(count: nat): (rank: nat)
    ensures 40 * (rank - 1) < count <= 40 * rank
  {
    (count + 40 - 1) / 40
  }

  /** The least rank that is at least thirty-nine fortieths of the count. */
  function UpperRank(count: nat): (rank: nat)
    ensures 40 * (rank - 1) < 39 * count <= 40 * rank
  {
    (39 * count + 40 - 1) / 40
  }

  datatype Error = NoReplicates

  /** Nearest ranks ceil(n/40) and ceil(39n/40) of the sorted list. */
  method NearestRankInterval(means: seq<real>) returns (r: Result<(real, real), Error>)
    ensures r.Err? <==> means == []
    ensures r.Ok? ==>
      && r.value.0 in means && r.value.1 in means && r.value.0 <= r.value.1
      && IsRank(means, r.value.0, LowerRank(|means|)) && IsRank(means, r.value.1, UpperRank(|means|))
  {
    hide Below, Tied, OrderOf;
    if means == [] {
      return Err(NoReplicates);
    }
    var count := |means|;
    OrderIsSorted(means, count);
    assert means[..count] == means;
    var order := OrderOf(means, count);
    var lower, upper := LowerRank(count), UpperRank(count);
    SortedPositionHasRank(means, order, lower - 1);
    SortedPositionHasRank(means, order, upper - 1);
    r := Ok((means[order[lower - 1]], means[order[upper - 1]]));
  }
}
