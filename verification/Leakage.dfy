/**
 No look-ahead: over two runs whose parent rows agree before a fold's test block, the fold's training
 rows agree, features and labels alike.  The embargo must cover the label horizon, and exactly then.
 */
module Leakage {
  import opened Wrappers
  import opened Folds
  import opened Features

  ghost predicate Agree(a: seq<Parent>, b: seq<Parent>, k: nat) {
    |a| == |b| && k <= |a| && forall i :: 0 <= i < k ==> a[i] == b[i]
  }

  // ---------- causality ----------

  lemma {:induction false} ReturnsCausal(f: Context, c: seq<real>, d: seq<real>, lo: nat, hi: nat)
    requires |c| == |d| && 1 <= lo <= hi <= |c| && forall i :: 0 <= i < hi ==> c[i] == d[i]
    ensures Returns(f, c, lo, hi) == Returns(f, d, lo, hi)
    decreases hi - lo
  {
    if lo < hi {
      ReturnsCausal(f, c, d, lo, hi - 1);
    }
  }

  /** A feature looks at rows up to its own only. */
  lemma FeatureCausal(f: Context, column: Column, c: seq<real>, v: seq<real>, d: seq<real>, w: seq<real>, t: nat)
    requires t < |c| == |d| == |v| == |w|
    requires forall i :: 0 <= i <= t ==> c[i] == d[i] && v[i] == w[i]
    ensures FeatureAt(f, column, c, v, t) == FeatureAt(f, column, d, w, t)
  {
    hide Total, Deviation, Returns;
    if column == Rvol && t >= VOL_WINDOW {
      ReturnsCausal(f, c, d, t - VOL_WINDOW + 1, t + 1);
    }
    if column == VolRatio && t >= VOLUME_WINDOW - 1 {
      assert v[t + 1 - VOLUME_WINDOW..t + 1] == w[t + 1 - VOLUME_WINDOW..t + 1];
    }
  }

  /** A row looks no further than its horizon. */
  lemma RowCausal(f: Context, a: seq<Parent>, b: seq<Parent>, horizon: nat, t: nat, k: nat)
    requires Agree(a, b, k) && t < k && t + horizon < k
    ensures RowAt(f, a, horizon, t) == RowAt(f, b, horizon, t)
  {
    hide FeatureAt, Stored;
    var c, v, d, w := Closes(a), Volumes(a), Closes(b), Volumes(b);
    assert forall i :: 0 <= i < k ==> c[i] == d[i] && v[i] == w[i];
    FeatureCausal(f, Ret, c, v, d, w, t);
    FeatureCausal(f, Roc, c, v, d, w, t);
    FeatureCausal(f, Rvol, c, v, d, w, t);
    FeatureCausal(f, VolRatio, c, v, d, w, t);
  }

  /** Without room for a label, a row looks back only. */
  lemma UnlabelledRowCausal(f: Context, a: seq<Parent>, b: seq<Parent>, horizon: nat, t: nat, k: nat)
    requires Agree(a, b, k) && t < k && t + horizon >= |a|
    ensures RowAt(f, a, horizon, t) == RowAt(f, b, horizon, t)
  {
    hide FeatureAt, Stored;
    var c, v, d, w := Closes(a), Volumes(a), Closes(b), Volumes(b);
    assert forall i :: 0 <= i < k ==> c[i] == d[i] && v[i] == w[i];
    FeatureCausal(f, Ret, c, v, d, w, t);
    FeatureCausal(f, Roc, c, v, d, w, t);
    FeatureCausal(f, Rvol, c, v, d, w, t);
    FeatureCausal(f, VolRatio, c, v, d, w, t);
  }

  // ---------- the exact condition ----------

  ghost predicate SameTraining(f: Context, a: seq<Parent>, b: seq<Parent>, horizon: nat, trainEnd: nat)
    requires |a| == |b| && trainEnd <= |a|
  {
    forall t :: 0 <= t < trainEnd ==> RowAt(f, a, horizon, t) == RowAt(f, b, horizon, t)
  }

  /** No change at or after the test start can reach a training row. */
  ghost predicate NoLeak(f: Context, n: nat, horizon: nat, trainEnd: nat, testStart: nat)
    requires trainEnd <= testStart <= n
  {
    forall a: seq<Parent>, b: seq<Parent> :: |a| == n && Agree(a, b, testStart) ==> SameTraining(f, a, b, horizon, trainEnd)
  }

  function Flat(n: nat): (a: seq<Parent>)
    ensures |a| == n && forall i :: 0 <= i < n ==> a[i] == Parent(i, 1.0, 1.0)
  {
    seq(n, i => Parent(i, 1.0, 1.0))
  }

  /** With too short an embargo, one later close changes the direction label of a training row. */
  lemma ShortEmbargoLeaks(f: Context, n: nat, horizon: nat, trainEnd: nat, testStart: nat)
    requires 0 < trainEnd <= testStart < n && testStart - trainEnd < horizon < n
    ensures !NoLeak(f, n, horizon, trainEnd, testStart)
  {
    hide FeatureAt, ForwardReturnAt, Stored;
    var t: nat := if testStart >= horizon then testStart - horizon else 0;
    var a := Flat(n);
    var b := a[t + horizon := Parent(t + horizon, 2.0, 1.0)];
    assert Agree(a, b, testStart);
    assert DirectionAt(Closes(a), horizon, t) == Some(0);
    assert DirectionAt(Closes(b), horizon, t) == Some(1);
    assert RowAt(f, a, horizon, t) != RowAt(f, b, horizon, t);
    assert !SameTraining(f, a, b, horizon, trainEnd);
  }

  lemma LongEmbargoIsSafe(f: Context, n: nat, horizon: nat, trainEnd: nat, testStart: nat)
    requires trainEnd <= testStart < n && (testStart - trainEnd >= horizon || horizon >= n || trainEnd == 0)
    ensures NoLeak(f, n, horizon, trainEnd, testStart)
  {
    hide RowAt;
    forall a: seq<Parent>, b: seq<Parent> | |a| == n && Agree(a, b, testStart)
      ensures SameTraining(f, a, b, horizon, trainEnd)
    {
      forall t | 0 <= t < trainEnd
        ensures RowAt(f, a, horizon, t) == RowAt(f, b, horizon, t)
      {
        if horizon >= n {
          UnlabelledRowCausal(f, a, b, horizon, t, testStart);
        } else {
          RowCausal(f, a, b, horizon, t, testStart);
        }
      }
    }
  }

  /**
   A fold is free of look-ahead for every pair of parents exactly when its embargo covers the horizon,
   or there are no labels at all, or nothing to train on.
   */
  lemma FoldLeaksExactlyWhen(p: Partition, n: nat, size: int, minTrain: nat, embargo: nat, i: nat, f: Context, horizon: nat)
    requires size > 0 && GoodPartition(p, n, size, minTrain, embargo) && i < |p.folds|
    ensures p.folds[i].train.Some? && 0 <= p.folds[i].train.value.end <= p.folds[i].test.start < n
    ensures NoLeak(f, n, horizon, p.folds[i].train.value.end, p.folds[i].test.start)
            <==> embargo >= horizon || horizon >= n || p.folds[i].train.value.end == 0
  {
    hide NoLeak, GoodPartition;
    FoldShape(p, n, size, minTrain, embargo, i);
    var trainEnd, testStart := p.folds[i].train.value.end, p.folds[i].test.start;
    if embargo >= horizon || horizon >= n || trainEnd == 0 {
      LongEmbargoIsSafe(f, n, horizon, trainEnd, testStart);
    } else {
      ShortEmbargoLeaks(f, n, horizon, trainEnd, testStart);
    }
  }

  /** Two completed tables from parents that agree before the test block have the same training rows. */
  lemma TrainingTablesAgree(p: Partition, n: nat, size: int, minTrain: nat, embargo: nat, i: nat, f: Context, horizon: nat,
                            a: seq<Parent>, b: seq<Parent>, rows: seq<ResearchRow>, rows': seq<ResearchRow>)
    requires size > 0 && GoodPartition(p, n, size, minTrain, embargo) && i < |p.folds| && embargo >= horizon
    requires p.folds[i].test.start >= 0 && |a| == n && Agree(a, b, p.folds[i].test.start)
    requires IsTable(Some(rows), f, a, horizon) && IsTable(Some(rows'), f, b, horizon)
    ensures p.folds[i].train.Some? && 0 <= p.folds[i].train.value.end <= |rows| == |rows'|
    ensures rows[..p.folds[i].train.value.end] == rows'[..p.folds[i].train.value.end]
  {
    hide GoodPartition, RowAt;
    FoldShape(p, n, size, minTrain, embargo, i);
    var trainEnd, testStart := p.folds[i].train.value.end, p.folds[i].test.start;
    forall t | 0 <= t < trainEnd
      ensures rows[t] == rows'[t]
    {
      RowCausal(f, a, b, horizon, t, testStart);
      assert Holds(rows[t], RowAt(f, a, horizon, t)) && Holds(rows'[t], RowAt(f, b, horizon, t));
    }
  }
}
