/**
 Holm's step-down procedure for a family of hypotheses, compared with its definition as closed testing
 with Bonferroni at every intersection.  P-values are exact.
 */
module Holm {
  import opened Wrappers
  import opened FiniteSets
  import opened Ranks

  const ALPHA: real := 1.0 / 20.0

  datatype Step = Step(rank: nat, hypothesis: string, pValue: real, threshold: real, rejected: bool)
  datatype HolmResult = HolmResult(pValues: seq<real>, steps: seq<Step>, rejections: seq<bool>)
  datatype HolmError = WrongFamily | OutsideUnit(hypothesis: string)

  /** The level of position k, counted from 0, in a family of m. */
  function Threshold(m: nat, k: nat): real
    requires k < m
  {
    ALPHA / (m - k) as real
  }

  // ---------- the definition ----------

  /** The intersection of the hypotheses in s is rejected by Bonferroni. */
  ghost predicate IntersectionRejected(p: seq<real>, s: set<nat>)
    requires s != {} && forall i :: i in s ==> i < |p|
  {
    exists i :: i in s && p[i] <= 0.05 / |s| as real
  }

  ghost predicate Intersection(p: seq<real>, s: set<nat>, h: nat) {
    h in s && forall i :: i in s ==> i < |p|
  }

  /** h is rejected by closed testing: so is every intersection it takes part in. */
  ghost predicate ClosedRejects(p: seq<real>, h: nat) {
    forall s: set<nat> :: Intersection(p, s, h) ==> IntersectionRejected(p, s)
  }

  // ---------- the procedure on a sorted order ----------

  /** Every position up to r is at or below its threshold. */
  ghost predicate StepsDownTo(p: seq<real>, order: seq<nat>, r: nat)
    requires SortedOrder(p, order)
  {
    r < |order| && forall k :: 0 <= k <= r ==> p[order[k]] <= Threshold(|p|, k)
  }

  ghost predicate Later(order: seq<nat>, k: nat, h: nat) {
    exists q :: k <= q < |order| && order[q] == h
  }

  /** The hypotheses at positions k and later. */
  ghost function Tail(order: seq<nat>, k: nat): (s: set<nat>)
    requires k <= |order|
    ensures forall h :: h in s <==> Later(order, k, h)
    decreases |order| - k
  {
    if k == |order| then {} else Tail(order, k + 1) + {order[k]}
  }

  lemma NotLater(p: seq<real>, order: seq<nat>, k: nat)
    requires SortedOrder(p, order) && k < |order|
    ensures order[k] !in Tail(order, k + 1)
  {
    forall q | k + 1 <= q < |order|
      ensures order[q] != order[k]
    {
    }
  }

  lemma {:induction false} TailSize(p: seq<real>, order: seq<nat>, k: nat)
    requires SortedOrder(p, order) && k <= |order|
    ensures |Tail(order, k)| == |order| - k
    decreases |order| - k
  {
    hide SortedOrder, Later;
    if k < |order| {
      TailSize(p, order, k + 1);
      NotLater(p, order, k);
    }
  }

  /** A set of hypotheses has a first member in the order. */
  lemma {:induction false} FirstMember(p: seq<real>, order: seq<nat>, s: set<nat>, r: nat) returns (k: nat)
    requires SortedOrder(p, order) && r < |order| && order[r] in s
    ensures k <= r && order[k] in s && forall q :: 0 <= q < k ==> order[q] !in s
  {
    k := 0;
    while order[k] !in s
      decreases r - k
      invariant k <= r && forall q :: 0 <= q < k ==> order[q] !in s
    {
      k := k + 1;
    }
  }

  lemma OrderIsOnto(p: seq<real>, order: seq<nat>, h: nat) returns (q: nat)
    requires SortedOrder(p, order) && h < |p|
    ensures q < |order| && order[q] == h
  {
    q := Onto(order, h);
  }

  lemma LargerDivisor(a: nat, b: nat)
    requires 0 < a <= b
    ensures ALPHA / b as real <= ALPHA / a as real
  {
    var x, y := ALPHA / a as real, ALPHA / b as real;
    assert x * a as real == ALPHA && y * b as real == ALPHA;
    if y > x {
      Grows(x, y, a as real, b as real);
    }
  }

  lemma Grows(x: real, y: real, a: real, b: real)
    requires 0.0 <= x < y && 0.0 < a <= b
    ensures x * a < y * b
  {
    assert x * a <= x * b;
    assert (y - x) * b > 0.0;
  }

  /** Down to position r the first member of any intersection through order[r] is small enough. */
  lemma StepsRejectIntersection(p: seq<real>, order: seq<nat>, r: nat, s: set<nat>)
    requires SortedOrder(p, order) && StepsDownTo(p, order, r) && Intersection(p, s, order[r])
    ensures IntersectionRejected(p, s)
  {
    var k := FirstMember(p, order, s, r);
    forall i | i in s
      ensures i in Tail(order, k)
    {
      var q := OrderIsOnto(p, order, i);
      assert q >= k;
    }
    TailSize(p, order, k);
    SubsetSize(s, Tail(order, k));
    NonEmptySize(s, order[r]);
    LargerDivisor(|s|, |p| - k);
    assert p[order[k]] <= Threshold(|p|, k);
  }

  lemma NonEmptySize(s: set<nat>, h: nat)
    requires h in s
    ensures |s| > 0
  {
  }

  lemma TailIsLarge(p: seq<real>, order: seq<nat>, k: nat, i: nat)
    requires SortedOrder(p, order) && k < |order| && i in Tail(order, k)
    ensures i < |p| && order[k] < |p| && p[i] >= p[order[k]]
  {
    var q :| k <= q < |order| && order[q] == i;
    assert q == k || p[order[k]] <= p[order[q]];
  }

  /** At a failing position the whole tail is an intersection that survives. */
  lemma FailureKeepsTail(p: seq<real>, order: seq<nat>, k: nat, r: nat)
    requires SortedOrder(p, order) && k <= r < |order| == |p| && order[k] < |p| && p[order[k]] > Threshold(|p|, k)
    ensures !ClosedRejects(p, order[r])
  {
    hide SortedOrder;
    var s := Tail(order, k);
    TailSize(p, order, k);
    forall i | i in s
      ensures i < |p| && p[i] > ALPHA / |s| as real
    {
      TailIsLarge(p, order, k, i);
    }
    assert order[r] in s;
    assert Intersection(p, s, order[r]);
    assert !IntersectionRejected(p, s);
  }

  /** Holm is closed testing: position r is reached exactly when every intersection is rejected. */
  lemma HolmIsClosedTesting(p: seq<real>, order: seq<nat>, r: nat)
    requires SortedOrder(p, order) && r < |order|
    ensures StepsDownTo(p, order, r) <==> ClosedRejects(p, order[r])
  {
    if StepsDownTo(p, order, r) {
      forall s: set<nat> | Intersection(p, s, order[r])
        ensures IntersectionRejected(p, s)
      {
        StepsRejectIntersection(p, order, r, s);
      }
    } else {
      var k :| 0 <= k <= r && p[order[k]] > Threshold(|p|, k);
      FailureKeepsTail(p, order, k, r);
    }
  }

  // ---------- consequences ----------

  /** Rejections do not depend on how ties were ordered. */
  lemma TieOrderIsIrrelevant(p: seq<real>, order: seq<nat>, order': seq<nat>, r: nat, r': nat)
    requires SortedOrder(p, order) && SortedOrder(p, order') && r < |order| && r' < |order'| && order[r] == order'[r']
    ensures StepsDownTo(p, order, r) <==> StepsDownTo(p, order', r')
  {
    HolmIsClosedTesting(p, order, r);
    HolmIsClosedTesting(p, order', r');
  }

  /** Smaller p-values never lose a rejection. */
  lemma RejectionsAreMonotone(p: seq<real>, p': seq<real>, h: nat)
    requires |p| == |p'| && (forall i :: 0 <= i < |p| ==> p'[i] <= p[i]) && ClosedRejects(p, h)
    ensures ClosedRejects(p', h)
  {
    forall s: set<nat> | Intersection(p', s, h)
      ensures IntersectionRejected(p', s)
    {
      assert Intersection(p, s, h);
      var i :| i in s && p[i] <= ALPHA / |s| as real;
      assert p'[i] <= ALPHA / |s| as real;
    }
  }

  // ---------- the procedure ----------

  ghost predicate Distinct(family: seq<string>) {
    forall i, j :: 0 <= i < j < |family| ==> family[i] != family[j]
  }

  ghost function Names(family: seq<string>): set<string> {
    set i | 0 <= i < |family| :: family[i]
  }

  /** The given p-values in family order. */
  ghost predicate Copied(p: seq<real>, family: seq<string>, given: map<string, real>, n: nat) {
    n == |p| <= |family| && forall i :: 0 <= i < n ==> family[i] in given && p[i] == given[family[i]] && 0.0 <= p[i] <= 1.0
  }

  method HasExactly(family: seq<string>, given: map<string, real>) returns (ok: bool)
    ensures ok <==> given.Keys == Names(family)
  {
    var names: set<string> := {};
    for i := 0 to |family|
      invariant names == Names(family[..i])
    {
      NamesNext(family, i);
      names := names + {family[i]};
    }
    assert family[..|family|] == family;
    ok := given.Keys == names;
  }

  lemma NamesNext(family: seq<string>, i: nat)
    requires i < |family|
    ensures Names(family[..i + 1]) == Names(family[..i]) + {family[i]}
  {
    assert family[..i + 1] == family[..i] + [family[i]];
    forall x | x in Names(family[..i]) + {family[i]}
      ensures x in Names(family[..i + 1])
    {
      if x == family[i] {
        assert family[..i + 1][i] == x;
      } else {
        var k :| 0 <= k < i && family[..i][k] == x;
        assert family[..i + 1][k] == x;
      }
    }
  }

  /** Copies the p-values in family order and checks their range. */
  method CopyPValues(family: seq<string>, given: map<string, real>) returns (r: Result<seq<real>, HolmError>)
    requires given.Keys == Names(family)
    ensures r.Ok? ==> Copied(r.value, family, given, |family|)
    ensures r.Err? ==> r.error.OutsideUnit? && OutsideRange(given, r.error.hypothesis)
    ensures r.Err? <==> exists h :: OutsideRange(given, h)
  {
    var p: seq<real> := [];
    for i := 0 to |family|
      invariant Copied(p, family, given, i)
    {
      assert family[i] in Names(family);
      var value := given[family[i]];
      if value < 0.0 || value > 1.0 {
        assert OutsideRange(given, family[i]);
        return Err(OutsideUnit(family[i]));
      }
      p := p + [value];
    }
    AllCopied(p, family, given);
    r := Ok(p);
  }

  ghost predicate OutsideRange(given: map<string, real>, h: string) {
    h in given && !(0.0 <= given[h] <= 1.0)
  }

  ghost predicate RejectedSoFar(rejections: seq<bool>, p: seq<real>, order: seq<nat>, k: nat)
    requires SortedOrder(p, order) && k <= |order|
  {
    |rejections| == |p| && forall q :: 0 <= q < k ==> order[q] < |p| && (rejections[order[q]] <==> StepsDownTo(p, order, q))
  }

  lemma RejectNext(rejections: seq<bool>, p: seq<real>, order: seq<nat>, k: nat, rejected: bool)
    requires SortedOrder(p, order) && k < |order| && RejectedSoFar(rejections, p, order, k) && order[k] < |p|
    requires rejected == StepsDownTo(p, order, k)
    ensures RejectedSoFar(rejections[order[k] := rejected], p, order, k + 1)
  {
    hide SortedOrder, StepsDownTo;
    DistinctPositions(p, order, k);
    OrderInRange(p, order);
  }

  /** One pass down the sorted p-values with the active flag. */
  method StepDown(p: seq<real>, family: seq<string>) returns (steps: seq<Step>, rejections: seq<bool>)
    requires |p| == |family|
    ensures StepsFollow(steps, p, family, |family|)
    ensures |rejections| == |p| && forall h :: 0 <= h < |p| ==> (rejections[h] <==> ClosedRejects(p, h))
  {
    hide SortedOrder, OrderOf, StepsDownTo, ClosedRejects, RejectedSoFar;
    var m := |family|;
    var order := OrderOf(p, m);
    OrderIsSorted(p, m);
    assert p[..m] == p;
    OrderInRange(p, order);
    var active := true;
    steps := [];
    rejections := seq(m, _ => false);
    NoneRejected(rejections, p, order);
    for k := 0 to m
      invariant |steps| == k && |rejections| == m
      invariant active <==> k == 0 || StepsDownTo(p, order, k - 1)
      invariant forall q :: 0 <= q < k ==> StepAt(steps[q], p, order, family, q)
      invariant RejectedSoFar(rejections, p, order, k)
    {
      var h := order[k];
      var threshold := Threshold(m, k);
      var rejected := active && p[h] <= threshold;
      NextStep(p, order, k, active, rejected);
      if !rejected {
        active := false;
      }
      RejectNext(rejections, p, order, k, rejected);
      rejections := rejections[h := rejected];
      steps := steps + [Step(k + 1, family[h], p[h], threshold, rejected)];
    }
    assert StepsOver(steps, p, order, family, m);
    forall h | 0 <= h < m
      ensures rejections[h] <==> ClosedRejects(p, h)
    {
      RejectionsAreClosed(rejections, p, order, h);
    }
  }

  lemma NoneRejected(rejections: seq<bool>, p: seq<real>, order: seq<nat>)
    requires SortedOrder(p, order) && |rejections| == |p|
    ensures RejectedSoFar(rejections, p, order, 0)
  {
  }

  lemma RejectionsAreClosed(rejections: seq<bool>, p: seq<real>, order: seq<nat>, h: nat)
    requires SortedOrder(p, order) && |order| == |p| && RejectedSoFar(rejections, p, order, |p|) && h < |p|
    ensures |rejections| == |p| && (rejections[h] <==> ClosedRejects(p, h))
  {
    hide SortedOrder, StepsDownTo, ClosedRejects;
    var q := OrderIsOnto(p, order, h);
    HolmIsClosedTesting(p, order, q);
  }

  /**
   The whole procedure: a hypothesis is rejected exactly when closed testing rejects it, and the steps
   follow the family by ascending p-value.
   */
  method HolmStepDown(family: seq<string>, given: map<string, real>) returns (r: Result<HolmResult, HolmError>)
    requires Distinct(family)
    ensures given.Keys != Names(family) <==> r == Err(WrongFamily)
    ensures r.Err? && r.error.OutsideUnit? ==> OutsideRange(given, r.error.hypothesis)
    ensures r.Err? <==> given.Keys != Names(family) || exists h :: OutsideRange(given, h)
    ensures r.Ok? ==>
      && Copied(r.value.pValues, family, given, |family|)
      && |r.value.rejections| == |family|
      && (forall h :: 0 <= h < |family| ==> (r.value.rejections[h] <==> ClosedRejects(r.value.pValues, h)))
      && StepsFollow(r.value.steps, r.value.pValues, family, |family|)
  {
    hide ClosedRejects, StepsFollow;
    var known := HasExactly(family, given);
    if !known {
      return Err(WrongFamily);
    }
    var p :- CopyPValues(family, given);
    var steps, rejections := StepDown(p, family);
    r := Ok(HolmResult(p, steps, rejections));
  }

  lemma AllCopied(p: seq<real>, family: seq<string>, given: map<string, real>)
    requires Copied(p, family, given, |family|) && given.Keys == Names(family)
    ensures forall h :: h in given ==> 0.0 <= given[h] <= 1.0
  {
    forall h | h in given
      ensures 0.0 <= given[h] <= 1.0
    {
      assert h in Names(family);
      var i :| 0 <= i < |family| && family[i] == h;
    }
  }

  lemma OrderInRange(p: seq<real>, order: seq<nat>)
    requires SortedOrder(p, order)
    ensures |order| == |p| && forall k :: 0 <= k < |order| ==> order[k] < |p|
  {
  }

  lemma DistinctPositions(p: seq<real>, order: seq<nat>, k: nat)
    requires SortedOrder(p, order) && k < |order|
    ensures forall q :: 0 <= q < k ==> order[q] != order[k]
  {
  }

  lemma NextStep(p: seq<real>, order: seq<nat>, k: nat, active: bool, rejected: bool)
    requires SortedOrder(p, order) && k < |order| == |p| && order[k] < |p|
    requires active <==> k == 0 || StepsDownTo(p, order, k - 1)
    requires rejected == (active && p[order[k]] <= Threshold(|p|, k))
    ensures rejected <==> StepsDownTo(p, order, k)
  {
  }

  ghost predicate StepAt(step: Step, p: seq<real>, order: seq<nat>, family: seq<string>, q: nat)
    requires SortedOrder(p, order) && |p| == |family|
  {
    && q < |order|
    && step == Step(q + 1, family[order[q]], p[order[q]], Threshold(|p|, q), StepsDownTo(p, order, q))
  }

  ghost predicate StepsOver(steps: seq<Step>, p: seq<real>, order: seq<nat>, family: seq<string>, n: nat) {
    SortedOrder(p, order) && |p| == |family| && n == |steps| && forall q :: 0 <= q < n ==> StepAt(steps[q], p, order, family, q)
  }

  /** The steps go through the family once by ascending p-value, and rejections form a prefix of them. */
  ghost predicate StepsFollow(steps: seq<Step>, p: seq<real>, family: seq<string>, n: nat) {
    exists order :: StepsOver(steps, p, order, family, n)
  }

  lemma RejectionsArePrefix(steps: seq<Step>, p: seq<real>, family: seq<string>, i: nat, j: nat)
    requires StepsFollow(steps, p, family, |family|) && i < j < |steps| && steps[j].rejected
    ensures steps[i].rejected && steps[i].pValue <= steps[j].pValue
  {
    var order :| StepsOver(steps, p, order, family, |family|);
    assert StepAt(steps[i], p, order, family, i) && StepAt(steps[j], p, order, family, j);
  }
}
