/**
 Tie-averaged ranks and the Mann-Whitney area under the curve built on them, over exact reals.
 */
module Ranks {
  import opened Wrappers
  import opened Sums

  // ---------- the order the ranks are read from ----------

  /** `order` lists every index once, by ascending value. */
  ghost predicate SortedOrder(values: seq<real>, order: seq<nat>) {
    && |order| == |values|
    && (forall p :: 0 <= p < |order| ==> order[p] < |values|)
    && (forall p, q :: 0 <= p < q < |order| ==> order[p] != order[q])
    && (forall p, q :: 0 <= p < q < |order| ==> values[order[p]] <= values[order[q]])
  }

  /** The first n indices by ascending value, ties by index, built by insertion. */
  function OrderOf(values: seq<real>, n: nat): (order: seq<nat>)
    requires n <= |values|
    ensures |order| == n && forall p :: 0 <= p < n ==> order[p] < n
  {
    if n == 0 then []
    else
      var shorter := OrderOf(values, n - 1);
      var p := InsertionPoint(values, shorter, values[n - 1], n - 1);
      shorter[..p] + [n - 1] + shorter[p..]
  }

  /** One past the last of the first k ordered values that is at most v. */
  function InsertionPoint(values: seq<real>, order: seq<nat>, v: real, k: nat): (p: nat)
    requires k <= |order| && forall p :: 0 <= p < |order| ==> order[p] < |values|
    ensures p <= k
    ensures p > 0 ==> values[order[p - 1]] <= v
    ensures forall q :: p <= q < k ==> v < values[order[q]]
  {
    if k == 0 || values[order[k - 1]] <= v then k
    else InsertionPoint(values, order, v, k - 1)
  }

  lemma {:induction false} OrderIsSorted(values: seq<real>, n: nat)
    requires n <= |values|
    ensures SortedOrder(values[..n], OrderOf(values, n))
  {
    if n != 0 {
      OrderIsSorted(values, n - 1);
      var shorter := OrderOf(values, n - 1);
      var p := InsertionPoint(values, shorter, values[n - 1], n - 1);
      InsertionSplits(values, shorter, n - 1, p);
      InsertedIsSorted(values, shorter, n - 1, p);
    }
  }

  lemma InsertionSplits(values: seq<real>, shorter: seq<nat>, m: nat, p: nat)
    requires m < |values| && SortedOrder(values[..m], shorter)
    requires p == InsertionPoint(values, shorter, values[m], m)
    ensures forall q :: 0 <= q < p ==> values[shorter[q]] <= values[m]
    ensures forall q :: p <= q < m ==> values[m] <= values[shorter[q]]
  {
    hide InsertionPoint;
    forall q | 0 <= q < p
      ensures values[shorter[q]] <= values[m]
    {
      assert values[..m][shorter[q]] <= values[..m][shorter[p - 1]];
    }
  }

  lemma InsertedIsSorted(values: seq<real>, shorter: seq<nat>, m: nat, p: nat)
    requires m < |values| && SortedOrder(values[..m], shorter) && p <= m
    requires forall q :: 0 <= q < p ==> values[shorter[q]] <= values[m]
    requires forall q :: p <= q < m ==> values[m] <= values[shorter[q]]
    ensures SortedOrder(values[..m + 1], shorter[..p] + [m] + shorter[p..])
  {
    var order := shorter[..p] + [m] + shorter[p..];
    forall q, r | 0 <= q < r < m + 1
      ensures order[q] != order[r] && order[q] <= m && order[r] <= m
      ensures values[..m + 1][order[q]] <= values[..m + 1][order[r]]
    {
      InsertedPair(values, shorter, order, m, p, q, r);
    }
  }

  lemma InsertedPair(values: seq<real>, shorter: seq<nat>, order: seq<nat>, m: nat, p: nat, q: nat, r: nat)
    requires m < |values| && SortedOrder(values[..m], shorter) && p <= m
    requires forall q :: 0 <= q < p ==> values[shorter[q]] <= values[m]
    requires forall q :: p <= q < m ==> values[m] <= values[shorter[q]]
    requires order == shorter[..p] + [m] + shorter[p..] && q < r < m + 1
    ensures order[q] != order[r] && order[q] <= m && order[r] <= m && values[order[q]] <= values[order[r]]
  {
    var a, b := if q < p then q else q - 1, if r < p then r else r - 1;
    assert q != p ==> order[q] == shorter[a];
    assert r != p ==> order[r] == shorter[b];
    if q == p {
      assert order[q] == m && b >= p;
    } else if r == p {
      assert order[r] == m && a < p;
    } else {
      assert values[..m][shorter[a]] <= values[..m][shorter[b]];
    }
  }

  // ---------- what ranks mean ----------

  ghost function Below(values: seq<real>, v: real): real {
    Sum(|values|, k => if At(values, k) < v then 1.0 else 0.0)
  }

  ghost function Tied(values: seq<real>, v: real): real {
    Sum(|values|, k => if At(values, k) == v then 1.0 else 0.0)
  }

  /** Values strictly below, plus the mean position inside the group of equal values. */
  ghost function RankOf(values: seq<real>, v: real): real {
    Below(values, v) + (Tied(values, v) + 1.0) / 2.0
  }

  /** Summing along a permutation of the indices changes nothing. */
  lemma SumAlongOrder(values: seq<real>, order: seq<nat>, f: int -> real)
    requires SortedOrder(values, order)
    ensures Sum(|values|, p => f(if 0 <= p < |order| then order[p] else 0)) == Sum(|values|, f)
  {
    PartialOrder(values, order, f, |order|);
    AllVisited(order, |order|);
    assert order[..|order|] == order;
    SumEqual(|values|, k => if k in order[..|order|] then f(k) else 0.0, f);
  }

  lemma {:induction false} PartialOrder(values: seq<real>, order: seq<nat>, f: int -> real, m: nat)
    requires SortedOrder(values, order) && m <= |order|
    ensures Sum(m, p => f(if 0 <= p < |order| then order[p] else 0))
         == Sum(|values|, k => if k in order[..m] then f(k) else 0.0)
  {
    var included := k => if k in order[..m] then f(k) else 0.0;
    if m == 0 {
      SumZero(|values|, included);
    } else {
      PartialOrder(values, order, f, m - 1);
      var before := k => if k in order[..m - 1] then f(k) else 0.0;
      var last := k => if k == order[m - 1] then f(k) else 0.0;
      assert order[..m] == order[..m - 1] + [order[m - 1]];
      assert order[m - 1] !in order[..m - 1];
      SumLinear(|values|, included, 1.0, before, 1.0, last);
      SumSingle(|values|, last, order[m - 1]);
    }
  }

  /** Distinct indices below n, n of them, are all the indices below n. */
  lemma {:induction false} AllVisited(order: seq<nat>, n: nat)
    requires |order| == n
    requires forall p :: 0 <= p < n ==> order[p] < n
    requires forall p, q :: 0 <= p < q < n ==> order[p] != order[q]
    ensures forall k :: 0 <= k < n ==> k in order
  {
    if n != 0 {
      if n - 1 in order {
        var p :| 0 <= p < n && order[p] == n - 1;
        var rest := order[..p] + order[p + 1..];
        AllVisited(rest, n - 1);
        assert forall k :: k in rest ==> k in order;
      } else {
        TooManyDistinct(order, n - 1);
      }
    }
  }

  lemma {:induction false} TooManyDistinct(order: seq<nat>, n: nat)
    requires |order| > n
    requires forall p :: 0 <= p < |order| ==> order[p] < n
    requires forall p, q :: 0 <= p < q < |order| ==> order[p] != order[q]
    ensures false
  {
    assert order[0] < n;
    if n != 0 {
      if n - 1 in order {
        var p :| 0 <= p < |order| && order[p] == n - 1;
        TooManyDistinct(order[..p] + order[p + 1..], n - 1);
      } else {
        TooManyDistinct(order, n - 1);
      }
    }
  }

  /** In the sorted order, positions i..j hold one group of equal values, and it ends there on both sides. */
  ghost predicate Group(values: seq<real>, order: seq<nat>, i: nat, j: nat, v: real)
    requires SortedOrder(values, order)
  {
    && i <= j < |order|
    && (forall p :: 0 <= p < i ==> values[order[p]] < v)
    && (forall p :: i <= p <= j ==> values[order[p]] == v)
    && (forall p :: j < p < |order| ==> v < values[order[p]])
  }

  lemma {:induction false} CountInterval(n: nat, lo: nat, hi: nat, f: int -> real)
    requires lo <= hi <= n
    requires forall p :: 0 <= p < n ==> f(p) == if lo <= p < hi then 1.0 else 0.0
    ensures Sum(n, f) == (hi - lo) as real
  {
    if n != 0 {
      if hi == n && lo < hi {
        CountInterval(n - 1, lo, n - 1, f);
      } else {
        CountInterval(n - 1, if lo == n then n - 1 else lo, if hi == n then n - 1 else hi, f);
      }
    }
  }

  /** The middle position of a group is the rank of its value. */
  lemma GroupRank(values: seq<real>, order: seq<nat>, i: nat, j: nat, v: real)
    requires SortedOrder(values, order) && Group(values, order, i, j, v)
    ensures RankOf(values, v) == (i + j) as real / 2.0 + 1.0
  {
    hide Sum;
    var below := (k: int) => if At(values, k) < v then 1.0 else 0.0;
    var tied := (k: int) => if At(values, k) == v then 1.0 else 0.0;
    SumAlongOrder(values, order, below);
    SumAlongOrder(values, order, tied);
    CountInterval(|values|, 0, i, p => below(if 0 <= p < |order| then order[p] else 0));
    CountInterval(|values|, i, j + 1, p => tied(if 0 <= p < |order| then order[p] else 0));
    SumEqual(|values|, below, k => if At(values, k) < v then 1.0 else 0.0);
    SumEqual(|values|, tied, k => if At(values, k) == v then 1.0 else 0.0);
  }

  /** Extends the group of equal values that starts at position i as far as it goes. */
  method GroupEnd(values: seq<real>, order: seq<nat>, i: nat) returns (j: nat)
    requires SortedOrder(values, order) && i < |order|
    requires forall p :: 0 <= p < i ==> values[order[p]] < values[order[i]]
    ensures Group(values, order, i, j, values[order[i]])
  {
    j := i;
    while j + 1 < |order| && values[order[j + 1]] == values[order[i]]
      invariant i <= j < |order|
      invariant forall p :: i <= p <= j ==> values[order[p]] == values[order[i]]
    {
      j := j + 1;
    }
  }

  /** Positions before `upTo` have their rank written at the index they stand for. */
  ghost predicate Ranked(values: seq<real>, order: seq<nat>, ranks: seq<real>, upTo: nat)
    requires SortedOrder(values, order) && |ranks| == |values| && upTo <= |order|
  {
    forall p :: 0 <= p < upTo ==> ranks[order[p]] == RankOf(values, values[order[p]])
  }

  method FillGroup(values: seq<real>, order: seq<nat>, slots: array<real>, i: nat, j: nat)
    requires SortedOrder(values, order) && slots.Length == |values|
    requires i <= j < |order| && Group(values, order, i, j, values[order[i]])
    requires Ranked(values, order, slots[..], i)
    modifies slots
    ensures Ranked(values, order, slots[..], j + 1)
  {
    hide RankOf;
    GroupRank(values, order, i, j, values[order[i]]);
    var middle := (i + j) as real / 2.0 + 1.0;
    for k := i to j + 1
      invariant Ranked(values, order, slots[..], k)
    {
      slots[order[k]] := middle;
    }
  }

  /** Ranks written group by group, in place, along the sorted order. */
  method AverageRanks(values: seq<real>) returns (ranks: seq<real>)
    ensures |ranks| == |values|
    ensures forall k :: 0 <= k < |values| ==> ranks[k] == RankOf(values, values[k])
  {
    hide RankOf, OrderOf, SortedOrder, Group, Ranked;
    var n := |values|;
    OrderIsSorted(values, n);
    assert values[..n] == values;
    var order := OrderOf(values, n);
    var slots := new real[n](_ => 0.0);
    var i := 0;
    NothingRanked(values, order, slots[..]);
    while i < n
      invariant 0 <= i <= n
      invariant i < n ==> forall p :: 0 <= p < i ==> values[order[p]] < values[order[i]]
      invariant Ranked(values, order, slots[..], i)
    {
      var j := GroupEnd(values, order, i);
      NextGroup(values, order, i, j);
      FillGroup(values, order, slots, i, j);
      i := j + 1;
    }
    ranks := slots[..];
    EveryIndexRanked(values, order, ranks);
  }

  lemma NothingRanked(values: seq<real>, order: seq<nat>, ranks: seq<real>)
    requires SortedOrder(values, order) && |ranks| == |values|
    ensures Ranked(values, order, ranks, 0)
  {
  }

  lemma NextGroup(values: seq<real>, order: seq<nat>, i: nat, j: nat)
    requires SortedOrder(values, order) && i < |order| && Group(values, order, i, j, values[order[i]])
    ensures i <= j < |order|
    ensures j + 1 < |order| ==> forall p :: 0 <= p < j + 1 ==> values[order[p]] < values[order[j + 1]]
  {
  }

  lemma EveryIndexRanked(values: seq<real>, order: seq<nat>, ranks: seq<real>)
    requires SortedOrder(values, order) && |ranks| == |values| && Ranked(values, order, ranks, |order|)
    ensures forall k :: 0 <= k < |values| ==> ranks[k] == RankOf(values, values[k])
  {
    hide RankOf;
    AllVisited(order, |order|);
    forall k | 0 <= k < |values|
      ensures ranks[k] == RankOf(values, values[k])
    {
      assert k in order;
      var p :| 0 <= p < |order| && order[p] == k;
      assert ranks[order[p]] == RankOf(values, values[order[p]]);
    }
  }

  // ---------- what ranks add up to ----------

  /** One for a win of a over b, a half for a tie. */
  function Credit(a: real, b: real): real {
    if a > b then 1.0 else if a == b then 0.5 else 0.0
  }

  /** Total credit of pairs (i, j) weighted by u(i) * v(j). */
  ghost function PairCredit(values: seq<real>, u: int -> real, v: int -> real): real {
    Sum(|values|, i => CreditRow(values, u, v, i))
  }

  ghost function CreditRow(values: seq<real>, u: int -> real, v: int -> real, i: int): real {
    Sum(|values|, j => u(i) * v(j) * Credit(At(values, i), At(values, j)))
  }

  lemma RankIsCredit(values: seq<real>, v: real)
    ensures RankOf(values, v) == Sum(|values|, j => Credit(v, At(values, j))) + 0.5
  {
    hide Sum;
    var below := (k: int) => if At(values, k) < v then 1.0 else 0.0;
    var tied := (k: int) => if At(values, k) == v then 1.0 else 0.0;
    SumEqual(|values|, below, k => if At(values, k) < v then 1.0 else 0.0);
    SumEqual(|values|, tied, k => if At(values, k) == v then 1.0 else 0.0);
    SumLinear(|values|, j => Credit(v, At(values, j)), 1.0, below, 0.5, tied);
  }

  /** Crediting a pair both ways always gives out exactly one. */
  lemma CreditBothWays(values: seq<real>, u: int -> real, v: int -> real)
    ensures PairCredit(values, u, v) + PairCredit(values, v, u) == Sum(|values|, u) * Sum(|values|, v)
  {
    hide Sum, At, Credit, CreditRow;
    var n := |values|;
    var column := i => CreditColumn(values, v, u, i);
    CreditByColumn(values, v, u);
    forall i: int
      ensures CreditRow(values, u, v, i) + column(i) == u(i) * Sum(n, v)
    {
      CreditsOfOne(values, u, v, i);
    }
    var both := i => u(i) * Sum(n, v);
    SumLinear(n, both, 1.0, i => CreditRow(values, u, v, i), 1.0, column);
    SumLinear(n, both, Sum(n, v), u, 0.0, i => 0.0);
  }

  ghost function CreditColumn(values: seq<real>, u: int -> real, v: int -> real, j: int): real {
    Sum(|values|, i => u(i) * v(j) * Credit(At(values, i), At(values, j)))
  }

  lemma CreditByColumn(values: seq<real>, u: int -> real, v: int -> real)
    ensures PairCredit(values, u, v) == Sum(|values|, j => CreditColumn(values, u, v, j))
  {
    hide Sum, At, Credit;
    var n := |values|;
    var f := (i: int, j: int) => u(i) * v(j) * Credit(At(values, i), At(values, j));
    SumSwap(n, n, f);
    forall i: int
      ensures CreditRow(values, u, v, i) == Sum(n, j => f(i, j))
      ensures CreditColumn(values, u, v, i) == Sum(n, k => f(k, i))
    {
      SumEqual(n, j => f(i, j), j => u(i) * v(j) * Credit(At(values, i), At(values, j)));
      SumEqual(n, k => f(k, i), k => u(k) * v(i) * Credit(At(values, k), At(values, i)));
    }
    SumEqual(n, i => CreditRow(values, u, v, i), i => Sum(n, j => f(i, j)));
    SumEqual(n, j => CreditColumn(values, u, v, j), j => Sum(n, i => f(i, j)));
  }

  lemma CreditsOfOne(values: seq<real>, u: int -> real, v: int -> real, i: int)
    ensures CreditRow(values, u, v, i) + CreditColumn(values, v, u, i) == u(i) * Sum(|values|, v)
  {
    hide Sum, At, Credit;
    var both := j => u(i) * v(j);
    forall j: int
      ensures both(j) == u(i) * v(j) * Credit(At(values, i), At(values, j)) + v(j) * u(i) * Credit(At(values, j), At(values, i))
    {
      CreditAddsUp(At(values, i), At(values, j));
      SplitCredit(u(i), v(j), Credit(At(values, i), At(values, j)), Credit(At(values, j), At(values, i)));
    }
    SumLinear(|values|, both, 1.0, j => u(i) * v(j) * Credit(At(values, i), At(values, j)),
              1.0, j => v(j) * u(i) * Credit(At(values, j), At(values, i)));
    SumLinear(|values|, both, u(i), v, 0.0, j => 0.0);
  }

  lemma CreditAddsUp(a: real, b: real)
    ensures Credit(a, b) + Credit(b, a) == 1.0
  {
  }

  lemma SplitCredit(u: real, v: real, c: real, d: real)
    requires c + d == 1.0
    ensures u * v == u * v * c + v * u * d
  {
    assert d == 1.0 - c;
  }

  /** u(i) times the rank of value i, summed: the credit against everyone plus half a point each. */
  lemma WeightedRanks(values: seq<real>, u: int -> real, one: int -> real)
    requires forall i :: one(i) == 1.0
    ensures Sum(|values|, i => u(i) * RankOf(values, At(values, i)))
         == PairCredit(values, u, one) + 0.5 * Sum(|values|, u)
  {
    hide Sum, At, Credit, RankOf;
    var n := |values|;
    var weighted := i => u(i) * RankOf(values, At(values, i));
    forall i: int
      ensures weighted(i) == CreditRow(values, u, one, i) + 0.5 * u(i)
    {
      RankIsCredit(values, At(values, i));
      SumLinear(n, j => u(i) * one(j) * Credit(At(values, i), At(values, j)), u(i),
                j => Credit(At(values, i), At(values, j)), 0.0, j => 0.0);
    }
    SumEqual(n, weighted, i => u(i) * RankOf(values, At(values, i)));
    SumLinear(n, weighted, 1.0, i => CreditRow(values, u, one, i), 0.5, u);
  }

  /** Ranks always add up to n(n+1)/2, ties or not. */
  lemma RanksTotal(values: seq<real>)
    ensures Sum(|values|, i => RankOf(values, At(values, i))) == |values| as real * (|values| as real + 1.0) / 2.0
  {
    hide Sum, At, RankOf, PairCredit;
    var n := |values|;
    var one := (i: int) => 1.0;
    WeightedRanks(values, one, one);
    CreditBothWays(values, one, one);
    SumConstant(n, 1.0, one);
    SumEqual(n, i => one(i) * RankOf(values, At(values, i)), i => RankOf(values, At(values, i)));
  }

  lemma PairCreditSplits(values: seq<real>, u: int -> real, v: int -> real, v1: int -> real, v2: int -> real)
    requires forall j :: v(j) == v1(j) + v2(j)
    ensures PairCredit(values, u, v) == PairCredit(values, u, v1) + PairCredit(values, u, v2)
  {
    hide Sum, At, Credit;
    var n := |values|;
    forall i: int
      ensures CreditRow(values, u, v, i) == CreditRow(values, u, v1, i) + CreditRow(values, u, v2, i)
    {
      forall j: int
        ensures u(i) * v(j) * Credit(At(values, i), At(values, j))
             == u(i) * v1(j) * Credit(At(values, i), At(values, j)) + u(i) * v2(j) * Credit(At(values, i), At(values, j))
      {
        DistributeCredit(u(i), v1(j), v2(j), Credit(At(values, i), At(values, j)));
      }
      SumLinear(n, j => u(i) * v(j) * Credit(At(values, i), At(values, j)),
                1.0, j => u(i) * v1(j) * Credit(At(values, i), At(values, j)),
                1.0, j => u(i) * v2(j) * Credit(At(values, i), At(values, j)));
    }
    SumLinear(n, i => CreditRow(values, u, v, i), 1.0, i => CreditRow(values, u, v1, i), 1.0, i => CreditRow(values, u, v2, i));
  }

  lemma DistributeCredit(u: real, v1: real, v2: real, c: real)
    ensures u * (v1 + v2) * c == u * v1 * c + u * v2 * c
  {
  }

  lemma PairCreditNonNegative(values: seq<real>, u: int -> real, v: int -> real)
    requires forall i :: u(i) >= 0.0 && v(i) >= 0.0
    ensures PairCredit(values, u, v) >= 0.0
  {
    hide Sum, At;
    forall i: int
      ensures CreditRow(values, u, v, i) >= 0.0
    {
      forall j: int
        ensures u(i) * v(j) * Credit(At(values, i), At(values, j)) >= 0.0
      {
        ProductNonNegative(u(i), v(j));
        ProductNonNegative(u(i) * v(j), Credit(At(values, i), At(values, j)));
      }
      SumNonNegative(|values|, j => u(i) * v(j) * Credit(At(values, i), At(values, j)));
    }
    SumNonNegative(|values|, i => CreditRow(values, u, v, i));
  }

  lemma ProductNonNegative(x: real, y: real)
    requires x >= 0.0 && y >= 0.0
    ensures x * y >= 0.0
  {
  }

  // ---------- the area under the curve ----------

  datatype Error = LengthMismatch

  /** Weight one on the samples labelled 1, zero elsewhere. */
  ghost function Positive(labels: seq<int>): int -> real {
    i => if 0 <= i < |labels| && labels[i] == 1 then 1.0 else 0.0
  }

  ghost function Negative(labels: seq<int>): int -> real {
    i => if 0 <= i < |labels| && labels[i] == 1 then 0.0 else 1.0
  }

  /** Positives scored above negatives, ties counted a half. */
  ghost function Wins(scores: seq<real>, labels: seq<int>): real {
    PairCredit(scores, Positive(labels), Negative(labels))
  }

  ghost function Positives(labels: seq<int>): real {
    Sum(|labels|, Positive(labels))
  }

  ghost function Negatives(labels: seq<int>): real {
    Sum(|labels|, Negative(labels))
  }

  lemma ClassesPartition(labels: seq<int>)
    ensures Positives(labels) + Negatives(labels) == |labels| as real
    ensures Positives(labels) >= 0.0 && Negatives(labels) >= 0.0
  {
    hide Sum;
    var one := (i: int) => 1.0;
    SumConstant(|labels|, 1.0, one);
    SumLinear(|labels|, one, 1.0, Positive(labels), 1.0, Negative(labels));
    SumNonNegative(|labels|, Positive(labels));
    SumNonNegative(|labels|, Negative(labels));
  }

  /** The ranks of the positives: their wins over the negatives plus what they earn among themselves. */
  lemma PositiveRankSum(scores: seq<real>, labels: seq<int>)
    requires |scores| == |labels|
    ensures Sum(|scores|, i => Positive(labels)(i) * RankOf(scores, At(scores, i)))
         == Wins(scores, labels) + Positives(labels) * (Positives(labels) + 1.0) / 2.0
  {
    hide Sum, At, RankOf, PairCredit;
    var one := (i: int) => 1.0;
    WeightedRanks(scores, Positive(labels), one);
    PairCreditSplits(scores, Positive(labels), one, Positive(labels), Negative(labels));
    CreditBothWays(scores, Positive(labels), Positive(labels));
  }

  lemma WinsBounded(scores: seq<real>, labels: seq<int>)
    requires |scores| == |labels|
    ensures 0.0 <= Wins(scores, labels) <= Positives(labels) * Negatives(labels)
  {
    hide Sum, At, PairCredit;
    PairCreditNonNegative(scores, Positive(labels), Negative(labels));
    PairCreditNonNegative(scores, Negative(labels), Positive(labels));
    CreditBothWays(scores, Positive(labels), Negative(labels));
  }

  /** The value the program returns when both classes are present. */
  ghost function AreaUnderCurve(scores: seq<real>, labels: seq<int>): real
    requires Positives(labels) * Negatives(labels) != 0.0
  {
    Wins(scores, labels) / (Positives(labels) * Negatives(labels))
  }

  /** Every label turned into the other class. */
  ghost predicate Swapped(labels: seq<int>, flipped: seq<int>) {
    |flipped| == |labels| && forall i :: 0 <= i < |labels| ==> (flipped[i] == 1 <==> labels[i] != 1)
  }

  lemma SwappedClasses(labels: seq<int>, flipped: seq<int>)
    requires Swapped(labels, flipped)
    ensures Positives(flipped) == Negatives(labels) && Negatives(flipped) == Positives(labels)
  {
    hide Sum;
    SumEqual(|labels|, Positive(flipped), Negative(labels));
    SumEqual(|labels|, Negative(flipped), Positive(labels));
  }

  lemma PairCreditEqual(values: seq<real>, u: int -> real, v: int -> real, u': int -> real, v': int -> real)
    requires forall i :: 0 <= i < |values| ==> u(i) == u'(i) && v(i) == v'(i)
    ensures PairCredit(values, u, v) == PairCredit(values, u', v')
  {
    hide Sum, At, Credit;
    forall i: int | 0 <= i < |values|
      ensures CreditRow(values, u, v, i) == CreditRow(values, u', v', i)
    {
      SumEqual(|values|, j => u(i) * v(j) * Credit(At(values, i), At(values, j)),
               j => u'(i) * v'(j) * Credit(At(values, i), At(values, j)));
    }
    SumEqual(|values|, i => CreditRow(values, u, v, i), i => CreditRow(values, u', v', i));
  }

  /** The area lies in [0, 1], and exchanging the classes turns it into one minus itself. */
  lemma AreaSymmetry(scores: seq<real>, labels: seq<int>, flipped: seq<int>)
    requires |scores| == |labels| && Swapped(labels, flipped)
    requires Positives(labels) * Negatives(labels) != 0.0
    ensures 0.0 <= AreaUnderCurve(scores, labels) <= 1.0
    ensures Positives(flipped) * Negatives(flipped) != 0.0
    ensures AreaUnderCurve(scores, flipped) == 1.0 - AreaUnderCurve(scores, labels)
  {
    hide Wins, Positives, Negatives;
    SwappedClasses(labels, flipped);
    ClassesPartition(labels);
    WinsBounded(scores, labels);
    WinsComplement(scores, labels, flipped);
    assert Positives(flipped) * Negatives(flipped) == Positives(labels) * Negatives(labels);
    Ratio(Wins(scores, labels), Wins(scores, flipped), Positives(labels) * Negatives(labels));
  }

  lemma WinsComplement(scores: seq<real>, labels: seq<int>, flipped: seq<int>)
    requires |scores| == |labels| && Swapped(labels, flipped)
    ensures Wins(scores, flipped) + Wins(scores, labels) == Positives(labels) * Negatives(labels)
  {
    hide Sum, PairCredit;
    PairCreditEqual(scores, Positive(flipped), Negative(flipped), Negative(labels), Positive(labels));
    CreditBothWays(scores, Positive(labels), Negative(labels));
  }

  lemma Ratio(w: real, w': real, total: real)
    requires 0.0 <= w <= total && w + w' == total && total != 0.0
    ensures 0.0 <= w / total <= 1.0
    ensures w' / total == 1.0 - w / total
  {
    assert w / total + w' / total == (w + w') / total;
  }

  /** Shared rank loop, positive rank sum, then the Mann-Whitney formula; undefined for a single class. */
  method Auc(scores: seq<real>, labels: seq<int>) returns (r: Result<Option<real>, Error>)
    ensures r.Err? <==> |scores| != |labels|
    ensures r.Ok? ==> (r.value.None? <==> Positives(labels) * Negatives(labels) == 0.0)
    ensures r.Ok? && r.value.Some? ==>
      Positives(labels) * Negatives(labels) != 0.0 && r.value.value == AreaUnderCurve(scores, labels)
  {
    hide RankOf, Wins;
    if |scores| != |labels| {
      return Err(LengthMismatch);
    }
    var n := |scores|;
    var ranks := AverageRanks(scores);
    var positives := 0;
    var rankSum := 0.0;
    for i := 0 to n
      invariant 0 <= positives <= i
      invariant positives as real == Sum(i, Positive(labels))
      invariant rankSum == Sum(i, k => Positive(labels)(k) * RankOf(scores, At(scores, k)))
    {
      if labels[i] == 1 {
        positives := positives + 1;
        rankSum := rankSum + ranks[i];
      }
    }
    var negatives := n - positives;
    ClassesPartition(labels);
    if positives == 0 || negatives == 0 {
      return Ok(None);
    }
    PositiveRankSum(scores, labels);
    BothPresent(positives as real, negatives as real);
    r := Ok(Some((rankSum - positives as real * (positives as real + 1.0) / 2.0) / (positives as real * negatives as real)));
  }

  lemma BothPresent(x: real, y: real)
    requires x > 0.0 && y > 0.0
    ensures x * y != 0.0
  {
  }
}
