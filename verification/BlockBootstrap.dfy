/**
 One year of the moving-block bootstrap: block geometry, prefix-sum aggregation against the
 positions it stands for, the difference array of multiplicities, and the digest text made of it.
 */
module BlockBootstrap {
  import opened Wrappers
  import opened Digits
  import opened Framing
  import opened Arith

  /** One value, or none, per clock hour, in units of the storage quantum. */
  type Grid = seq<Option<int>>

  datatype Error = BadGeometry | BadStart(start: int) | NotCovered | BadBound

  predicate Geometry(hours: int, blockHours: int) {
    0 < blockHours <= hours
  }

  function Min(a: nat, b: nat): nat {
    if a < b then a else b
  }

  function Span(lo: nat, hi: nat): (s: seq<nat>)
    requires lo <= hi
    ensures |s| == hi - lo && forall i :: 0 <= i < |s| ==> s[i] == lo + i
  {
    seq(hi - lo, i requires 0 <= i => lo + i)
  }

  /** The clock positions a list of block starts stands for: whole blocks, the last one cut to fit. */
  function Positions(starts: seq<int>, remaining: nat, hours: nat, blockHours: nat): Result<seq<nat>, Error>
    requires Geometry(hours, blockHours)
  {
    if remaining == 0 then Ok([])
    else if starts == [] then Err(NotCovered)
    else if !(0 <= starts[0] <= hours - blockHours) then Err(BadStart(starts[0]))
    else
      var consumed := Min(blockHours, remaining);
      var rest :- Positions(starts[1..], remaining - consumed, hours, blockHours);
      Ok(Span(starts[0], starts[0] + consumed) + rest)
  }

  function Resampled(starts: seq<int>, hours: int, blockHours: int): Result<seq<nat>, Error> {
    if Geometry(hours, blockHours) then Positions(starts, hours, hours, blockHours) else Err(BadGeometry)
  }

  /** Positions are always inside the grid, and exactly as many as asked for. */
  lemma {:induction false} PositionsCover(starts: seq<int>, remaining: nat, hours: nat, blockHours: nat)
    requires Geometry(hours, blockHours) && Positions(starts, remaining, hours, blockHours).Ok?
    ensures var p := Positions(starts, remaining, hours, blockHours).value;
      |p| == remaining && forall i :: 0 <= i < |p| ==> p[i] < hours
  {
    if remaining != 0 {
      PositionsCover(starts[1..], remaining - Min(blockHours, remaining), hours, blockHours);
    }
  }

  /** Enough eligible starts always cover the grid. */
  lemma {:induction false} EligibleStartsCover(starts: seq<int>, remaining: nat, hours: nat, blockHours: nat)
    requires Geometry(hours, blockHours) && |starts| * blockHours >= remaining
    requires forall i :: 0 <= i < |starts| ==> 0 <= starts[i] <= hours - blockHours
    ensures Positions(starts, remaining, hours, blockHours).Ok?
  {
    if remaining != 0 {
      assert starts != [];
      assert |starts| * blockHours == |starts[1..]| * blockHours + blockHours;
      EligibleStartsCover(starts[1..], remaining - Min(blockHours, remaining), hours, blockHours);
    }
  }

  lemma NextBlockIndex(k: nat, m: nat)
    requires 0 < m <= k
    ensures k / m == (k - m) / m + 1 && k % m == (k - m) % m
  {
    var q, r := (k - m) / m, (k - m) % m;
    assert k - m == q * m + r;
    assert (q + 1) * m == q * m + m;
    DivModUnique(k, q + 1, r, m);
  }

  lemma FirstBlockIndex(k: nat, m: nat)
    requires k < m
    ensures k / m == 0 && k % m == k
  {
  }

  /** Position k lies k mod blockHours hours into block k div blockHours. */
  lemma {:induction false} PositionAt(starts: seq<int>, remaining: nat, hours: nat, blockHours: nat, k: nat)
    requires Geometry(hours, blockHours) && Positions(starts, remaining, hours, blockHours).Ok? && k < remaining
    ensures var p := Positions(starts, remaining, hours, blockHours).value;
      k < |p| && k / blockHours < |starts| && p[k] == starts[k / blockHours] + k % blockHours
  {
    var consumed := Min(blockHours, remaining);
    PositionsCover(starts, remaining, hours, blockHours);
    if k < blockHours {
      FirstBlockIndex(k, blockHours);
    } else {
      NextBlockIndex(k, blockHours);
      PositionAt(starts[1..], remaining - consumed, hours, blockHours, k - blockHours);
    }
  }

  /** The blocks that are needed at all start in range. */
  ghost predicate NeededInRange(starts: seq<int>, remaining: nat, hours: nat, blockHours: nat) {
    forall i :: 0 <= i < |starts| && i * blockHours < remaining ==> 0 <= starts[i] <= hours - blockHours
  }

  lemma NeededAfterFirst(starts: seq<int>, remaining: nat, hours: nat, blockHours: nat)
    requires Geometry(hours, blockHours) && remaining > 0 && starts != []
    ensures NeededInRange(starts, remaining, hours, blockHours) <==>
      && 0 <= starts[0] <= hours - blockHours
      && NeededInRange(starts[1..], remaining - Min(blockHours, remaining), hours, blockHours)
  {
    var rest := remaining - Min(blockHours, remaining);
    forall i | 0 <= i < |starts| - 1
      ensures starts[1..][i] == starts[i + 1] && (i * blockHours < rest <==> (i + 1) * blockHours < remaining)
    {
      SumTimes(i, 1, blockHours);
    }
    if NeededInRange(starts, remaining, hours, blockHours) {
      assert 0 * blockHours == 0;
    }
    if 0 <= starts[0] <= hours - blockHours && NeededInRange(starts[1..], rest, hours, blockHours) {
      forall i | 0 <= i < |starts| && i * blockHours < remaining
        ensures 0 <= starts[i] <= hours - blockHours
      {
        if i > 0 {
          assert starts[1..][i - 1] == starts[i];
        }
      }
    }
  }

  /** Starts cover the grid exactly when there are enough of them and every needed one is eligible. */
  lemma {:induction false} CoversExactlyWhen(starts: seq<int>, remaining: nat, hours: nat, blockHours: nat)
    requires Geometry(hours, blockHours)
    ensures Positions(starts, remaining, hours, blockHours).Ok? <==>
      |starts| * blockHours >= remaining && NeededInRange(starts, remaining, hours, blockHours)
  {
    if remaining == 0 {
      forall i | 0 <= i < |starts|
        ensures i * blockHours >= 0
      {
      }
    } else if starts != [] {
      NeededAfterFirst(starts, remaining, hours, blockHours);
      CoversExactlyWhen(starts[1..], remaining - Min(blockHours, remaining), hours, blockHours);
      SumTimes(|starts| - 1, 1, blockHours);
    }
  }

  function Prepend(done: seq<nat>, rest: Result<seq<nat>, Error>): Result<seq<nat>, Error> {
    if rest.Ok? then Ok(done + rest.value) else rest
  }

  /** The hour at offset k of the blocks laid end to end. */
  function BlockHour(starts: seq<int>, blockHours: int, k: nat): Option<int>
    requires blockHours > 0
  {
    if k / blockHours < |starts| then Some(starts[k / blockHours] + k % blockHours) else None
  }

  lemma MaterializedMeans(starts: seq<int>, hours: int, blockHours: int)
    ensures Resampled(starts, hours, blockHours).Ok? <==>
      && Geometry(hours, blockHours) && |starts| * blockHours >= hours && NeededInRange(starts, hours, hours, blockHours)
    ensures Resampled(starts, hours, blockHours).Ok? ==>
      var p := Resampled(starts, hours, blockHours).value;
      |p| == hours && forall k :: 0 <= k < hours ==> BlockHour(starts, blockHours, k) == Some(p[k])
  {
    hide Positions, NeededInRange;
    if Geometry(hours, blockHours) {
      CoversExactlyWhen(starts, hours, hours, blockHours);
      if Resampled(starts, hours, blockHours).Ok? {
        var p := Resampled(starts, hours, blockHours).value;
        PositionsCover(starts, hours, hours, blockHours);
        forall k | 0 <= k < hours
          ensures BlockHour(starts, blockHours, k) == Some(p[k])
        {
          PositionAt(starts, hours, hours, blockHours, k);
        }
      }
    }
  }

  method MaterializeResampledIndices(starts: seq<int>, hours: int, blockHours: int) returns (r: Result<seq<nat>, Error>)
    ensures r == Resampled(starts, hours, blockHours)
    ensures r.Ok? <==>
      && 0 < blockHours <= hours && |starts| * blockHours >= hours
      && forall i :: 0 <= i < |starts| && i * blockHours < hours ==> 0 <= starts[i] <= hours - blockHours
    ensures r.Ok? ==>
      |r.value| == hours && forall k :: 0 <= k < hours ==> BlockHour(starts, blockHours, k) == Some(r.value[k])
  {
    MaterializedMeans(starts, hours, blockHours);
    if !Geometry(hours, blockHours) {
      return Err(BadGeometry);
    }
    var indices: seq<nat> := [];
    var remaining := hours;
    PrependNothing(starts, hours, blockHours);
    var k := 0;
    while k < |starts| && remaining > 0
      invariant 0 <= k <= |starts| && 0 <= remaining <= hours
      invariant Resampled(starts, hours, blockHours) == Prepend(indices, Positions(starts[k..], remaining, hours, blockHours))
    {
      var start := starts[k];
      if !(0 <= start <= hours - blockHours) {
        return Err(BadStart(start));
      }
      var consumed := Min(blockHours, remaining);
      NextBlock(starts, k, indices, remaining, hours, blockHours);
      indices := indices + Span(start, start + consumed);
      remaining := remaining - consumed;
      k := k + 1;
    }
    if remaining > 0 {
      return Err(NotCovered);
    }
    DonePrepended(indices, starts[k..], hours, blockHours);
    r := Ok(indices);
  }

  lemma PrependSpan(done: seq<nat>, span: seq<nat>, rest: Result<seq<nat>, Error>)
    ensures Prepend(done, Prepend(span, rest)) == Prepend(done + span, rest)
  {
    if rest.Ok? {
      assert done + (span + rest.value) == done + span + rest.value;
    }
  }

  lemma PrependNothing(starts: seq<int>, hours: nat, blockHours: nat)
    requires Geometry(hours, blockHours)
    ensures Resampled(starts, hours, blockHours) == Prepend([], Positions(starts[0..], hours, hours, blockHours))
  {
    assert starts[0..] == starts;
    var rest := Positions(starts, hours, hours, blockHours);
    assert rest.Ok? ==> [] + rest.value == rest.value;
  }

  /** One more block of positions, taken from the front of the remaining starts. */
  lemma NextBlock(starts: seq<int>, k: nat, done: seq<nat>, remaining: nat, hours: nat, blockHours: nat)
    requires Geometry(hours, blockHours) && k < |starts| && 0 < remaining
    requires 0 <= starts[k] <= hours - blockHours
    ensures var consumed := Min(blockHours, remaining);
      Prepend(done, Positions(starts[k..], remaining, hours, blockHours))
      == Prepend(done + Span(starts[k], starts[k] + consumed), Positions(starts[k + 1..], remaining - consumed, hours, blockHours))
  {
    var consumed := Min(blockHours, remaining);
    assert starts[k..][1..] == starts[k + 1..];
    PrependSpan(done, Span(starts[k], starts[k] + consumed), Positions(starts[k + 1..], remaining - consumed, hours, blockHours));
  }

  // ---------- sums over positions ----------

  function ValueOf(v: Option<int>): int {
    if v.Some? then v.value else 0
  }

  function CountOf(v: Option<int>): nat {
    if v.Some? then 1 else 0
  }

  ghost predicate InGrid(grid: Grid, positions: seq<nat>) {
    forall i :: 0 <= i < |positions| ==> positions[i] < |grid|
  }

  /** The sum of the values present at the given positions, with repetition. */
  ghost function TotalAt(grid: Grid, positions: seq<nat>): int
    requires InGrid(grid, positions)
  {
    if positions == [] then 0
    else TotalAt(grid, positions[..|positions| - 1]) + ValueOf(grid[positions[|positions| - 1]])
  }

  /** How many of the given positions hold a value. */
  ghost function ValidAt(grid: Grid, positions: seq<nat>): nat
    requires InGrid(grid, positions)
  {
    if positions == [] then 0
    else ValidAt(grid, positions[..|positions| - 1]) + CountOf(grid[positions[|positions| - 1]])
  }

  lemma {:induction false} TotalsAdd(grid: Grid, p: seq<nat>, q: seq<nat>)
    requires InGrid(grid, p) && InGrid(grid, q)
    ensures InGrid(grid, p + q)
    ensures TotalAt(grid, p + q) == TotalAt(grid, p) + TotalAt(grid, q)
    ensures ValidAt(grid, p + q) == ValidAt(grid, p) + ValidAt(grid, q)
  {
    if q == [] {
      assert p + q == p;
    } else {
      var front := q[..|q| - 1];
      TotalsAdd(grid, p, front);
      assert (p + q)[..|p + q| - 1] == p + front;
    }
  }

  /** How many of the given positions hold a value, counted as a set of indices. */
  lemma {:induction false} ValidAtCounts(grid: Grid, positions: seq<nat>)
    requires InGrid(grid, positions)
    ensures ValidAt(grid, positions) == |set i | 0 <= i < |positions| && grid[positions[i]].Some?|
  {
    if positions != [] {
      var n := |positions| - 1;
      ValidAtCounts(grid, positions[..n]);
      OneMoreValid(grid, positions, n);
    }
  }

  lemma OneMoreValid(grid: Grid, positions: seq<nat>, n: nat)
    requires InGrid(grid, positions) && |positions| == n + 1
    ensures |set i | 0 <= i < |positions| && grid[positions[i]].Some?| ==
            |set i | 0 <= i < |positions[..n]| && grid[positions[..n][i]].Some?| + CountOf(grid[positions[n]])
  {
    var front := positions[..n];
    var here := set i | 0 <= i < |positions| && grid[positions[i]].Some?;
    var before := set i | 0 <= i < |front| && grid[front[i]].Some?;
    assert before == set i | 0 <= i < n && grid[positions[i]].Some?;
    assert n !in before;
    assert here == if grid[positions[n]].Some? then before + {n} else before;
  }

  /** Every value among the first n hours, as often as its hour is in the multiset. */
  ghost function Weighted(grid: Grid, times: multiset<nat>, n: nat): int
    requires n <= |grid|
  {
    if n == 0 then 0
    else Weighted(grid, times, n - 1) + (if grid[n - 1].Some? then times[n - 1] * grid[n - 1].value else 0)
  }

  lemma {:induction false} NothingWeighted(grid: Grid, n: nat)
    requires n <= |grid|
    ensures Weighted(grid, multiset{}, n) == 0
  {
    if n != 0 {
      NothingWeighted(grid, n - 1);
    }
  }

  lemma {:induction false} WeightedOnce(grid: Grid, times: multiset<nat>, h: nat, n: nat)
    requires n <= |grid| && h < |grid|
    ensures Weighted(grid, times + multiset{h}, n) ==
            Weighted(grid, times, n) + if h < n && grid[h].Some? then grid[h].value else 0
  {
    if n != 0 {
      WeightedOnce(grid, times, h, n - 1);
      assert (times + multiset{h})[n - 1] == times[n - 1] + if h == n - 1 then 1 else 0;
      if h == n - 1 && grid[h].Some? {
        SumTimes(times[h], 1, grid[h].value);
      }
    }
  }

  /** A resampled total is each hour's value times how often the hour was resampled. */
  lemma {:induction false} TotalIsWeighted(grid: Grid, positions: seq<nat>)
    requires InGrid(grid, positions)
    ensures TotalAt(grid, positions) == Weighted(grid, multiset(positions), |grid|)
  {
    if positions == [] {
      NothingWeighted(grid, |grid|);
    } else {
      var front, last := positions[..|positions| - 1], positions[|positions| - 1];
      TotalIsWeighted(grid, front);
      assert positions == front + [last];
      assert multiset(positions) == multiset(front) + multiset{last};
      WeightedOnce(grid, multiset(front), last, |grid|);
    }
  }

  /** Running sums of values and of valid entries over the first k hours. */
  ghost predicate PrefixSums(grid: Grid, values: seq<int>, valid: seq<int>) {
    && |values| == |valid| == |grid| + 1
    && values[0] == 0 && valid[0] == 0
    && forall k :: 0 <= k < |grid| ==>
      values[k + 1] == values[k] + ValueOf(grid[k]) && valid[k + 1] == valid[k] + CountOf(grid[k])
  }

  method Prefixes(grid: Grid) returns (values: seq<int>, valid: seq<int>)
    ensures PrefixSums(grid, values, valid)
  {
    values, valid := [0], [0];
    var runningValue, runningValid := 0, 0;
    for k := 0 to |grid|
      invariant PrefixSums(grid[..k], values, valid)
      invariant runningValue == values[k] && runningValid == valid[k]
    {
      if grid[k].Some? {
        runningValue := runningValue + grid[k].value;
        runningValid := runningValid + 1;
      }
      values, valid := values + [runningValue], valid + [runningValid];
    }
    assert grid[..|grid|] == grid;
  }

  /** A block's share of the sums is a difference of two prefix sums. */
  lemma {:induction false} SpanTotals(grid: Grid, values: seq<int>, valid: seq<int>, lo: nat, hi: nat)
    requires PrefixSums(grid, values, valid) && lo <= hi <= |grid|
    ensures InGrid(grid, Span(lo, hi))
    ensures TotalAt(grid, Span(lo, hi)) == values[hi] - values[lo]
    ensures ValidAt(grid, Span(lo, hi)) == valid[hi] - valid[lo]
  {
    if lo < hi {
      SpanTotals(grid, values, valid, lo, hi - 1);
      assert Span(lo, hi)[..hi - lo - 1] == Span(lo, hi - 1);
    }
  }

  // ---------- the difference array ----------

  /** Sum of the first k entries. */
  ghost function Running(delta: seq<int>, k: nat): int
    requires k <= |delta|
  {
    if k == 0 then 0 else Running(delta, k - 1) + delta[k - 1]
  }

  lemma {:induction false} RunningUpdate(delta: seq<int>, slot: nat, amount: int, k: nat)
    requires slot < |delta| && k <= |delta|
    ensures Running(delta[slot := delta[slot] + amount], k) == Running(delta, k) + if slot < k then amount else 0
  {
    if k != 0 {
      RunningUpdate(delta, slot, amount, k - 1);
    }
  }

  lemma RunningBlock(delta: seq<int>, lo: nat, hi: nat, k: nat)
    requires lo < hi < |delta| && k < |delta|
    ensures var marked := delta[lo := delta[lo] + 1];
      Running(marked[hi := marked[hi] - 1], k + 1) == Running(delta, k + 1) + if lo <= k < hi then 1 else 0
  {
    var marked := delta[lo := delta[lo] + 1];
    RunningUpdate(delta, lo, 1, k + 1);
    RunningUpdate(marked, hi, -1, k + 1);
  }

  lemma {:induction false} SpanMultiplicity(lo: nat, hi: nat, k: nat)
    requires lo <= hi
    ensures multiset(Span(lo, hi))[k] == if lo <= k < hi then 1 else 0
  {
    if lo < hi {
      SpanMultiplicity(lo, hi - 1, k);
      assert Span(lo, hi) == Span(lo, hi - 1) + [hi - 1];
    }
  }

  /** The running sum of the difference array at k is how often k has been resampled beyond `before`. */
  ghost predicate Tallied(before: seq<int>, delta: seq<int>, positions: seq<nat>) {
    |before| == |delta| && forall k: nat :: k + 1 < |delta| ==>
      Running(delta, k + 1) == Running(before, k + 1) + multiset(positions)[k]
  }

  lemma TallyBlock(before: seq<int>, delta: seq<int>, positions: seq<nat>, lo: nat, hi: nat)
    requires Tallied(before, delta, positions) && lo < hi < |delta|
    ensures var marked := delta[lo := delta[lo] + 1];
      Tallied(before, marked[hi := marked[hi] - 1], positions + Span(lo, hi))
  {
    forall k: nat | k + 1 < |delta|
      ensures var marked := delta[lo := delta[lo] + 1];
        Running(marked[hi := marked[hi] - 1], k + 1) == Running(before, k + 1) + multiset(positions + Span(lo, hi))[k]
    {
      RunningBlock(delta, lo, hi, k);
      SpanMultiplicity(lo, hi, k);
    }
  }

  method MarkBlock(delta: array<int>, lo: nat, hi: nat, ghost before: seq<int>, ghost done: seq<nat>)
    requires lo < hi < delta.Length && Tallied(before, delta[..], done)
    modifies delta
    ensures Tallied(before, delta[..], done + Span(lo, hi))
  {
    TallyBlock(before, delta[..], done, lo, hi);
    delta[lo] := delta[lo] + 1;
    delta[hi] := delta[hi] - 1;
  }

  lemma BlockTotals(grid: Grid, values: seq<int>, valid: seq<int>, done: seq<nat>, lo: nat, hi: nat)
    requires PrefixSums(grid, values, valid) && lo <= hi <= |grid| && InGrid(grid, done)
    ensures InGrid(grid, done + Span(lo, hi))
    ensures TotalAt(grid, done + Span(lo, hi)) == TotalAt(grid, done) + values[hi] - values[lo]
    ensures ValidAt(grid, done + Span(lo, hi)) == ValidAt(grid, done) + valid[hi] - valid[lo]
  {
    SpanTotals(grid, values, valid, lo, hi);
    TotalsAdd(grid, done, Span(lo, hi));
  }

  /**
   Numerator and denominator of one resampled year from prefix sums, block by block, updating the
   difference array in place when one is given.  The result is exactly what summing and counting
   over the materialized positions gives, and is refused exactly when those are.
   */
  method AggregatePrefixes(ghost grid: Grid, values: seq<int>, valid: seq<int>, starts: seq<int>, hours: int,
                           blockHours: int, delta: array?<int>)
    returns (r: Result<(int, int), Error>)
    requires PrefixSums(grid, values, valid) && |grid| == hours
    requires delta != null ==> delta.Length == hours + 1
    modifies if delta == null then {} else {delta}
    ensures r.Ok? <==> Resampled(starts, hours, blockHours).Ok?
    ensures r.Err? ==> r.error == Resampled(starts, hours, blockHours).error
    ensures r.Ok? ==>
      && InGrid(grid, Resampled(starts, hours, blockHours).value)
      && r.value.0 == TotalAt(grid, Resampled(starts, hours, blockHours).value)
      && r.value.1 == ValidAt(grid, Resampled(starts, hours, blockHours).value)
      && (delta != null ==> Tallied(old(delta[..]), delta[..], Resampled(starts, hours, blockHours).value))
  {
    hide PrefixSums, Tallied, TotalAt, ValidAt, Resampled, Span;
    if !Geometry(hours, blockHours) {
      BadGeometryRefused(starts, hours, blockHours);
      return Err(BadGeometry);
    }
    var numerator, denominator := 0, 0;
    var remaining := hours;
    ghost var done: seq<nat> := [];
    var k := 0;
    PrependNothing(starts, hours, blockHours);
    NothingTallied(grid, if delta != null then delta[..] else []);
    assert |values| == |valid| == |grid| + 1 by { PrefixLengths(grid, values, valid); }
    while k < |starts| && remaining > 0
      invariant 0 <= k <= |starts| && 0 <= remaining <= hours
      invariant Resampled(starts, hours, blockHours) == Prepend(done, Positions(starts[k..], remaining, hours, blockHours))
      invariant InGrid(grid, done)
      invariant numerator == TotalAt(grid, done) && denominator == ValidAt(grid, done)
      invariant delta != null ==> Tallied(old(delta[..]), delta[..], done)
    {
      var start := starts[k];
      if !(0 <= start <= hours - blockHours) {
        return Err(BadStart(start));
      }
      var consumed := Min(blockHours, remaining);
      var end := start + consumed;
      BlockTotals(grid, values, valid, done, start, end);
      NextBlock(starts, k, done, remaining, hours, blockHours);
      numerator := numerator + values[end] - values[start];
      denominator := denominator + valid[end] - valid[start];
      if delta != null {
        MarkBlock(delta, start, end, old(delta[..]), done);
      }
      done := done + Span(start, end);
      remaining := remaining - consumed;
      k := k + 1;
    }
    if remaining > 0 {
      return Err(NotCovered);
    }
    DonePrepended(done, starts[k..], hours, blockHours);
    r := Ok((numerator, denominator));
  }

  lemma BadGeometryRefused(starts: seq<int>, hours: int, blockHours: int)
    requires !Geometry(hours, blockHours)
    ensures Resampled(starts, hours, blockHours) == Err(BadGeometry)
  {
  }

  lemma NothingTallied(grid: Grid, delta: seq<int>)
    ensures Tallied(delta, delta, []) && InGrid(grid, []) && TotalAt(grid, []) == 0 && ValidAt(grid, []) == 0
  {
  }

  lemma PrefixLengths(grid: Grid, values: seq<int>, valid: seq<int>)
    requires PrefixSums(grid, values, valid)
    ensures |values| == |valid| == |grid| + 1
  {
  }

  lemma DonePrepended(done: seq<nat>, starts: seq<int>, hours: nat, blockHours: nat)
    requires Geometry(hours, blockHours)
    ensures Prepend(done, Positions(starts, 0, hours, blockHours)) == Ok(done)
  {
    assert done + [] == done;
  }

  // ---------- the digest of the resampled multiset ----------

  /** How often each position has been resampled, read off the difference array. */
  ghost function Multiplicities(delta: seq<int>): (m: seq<int>)
    requires delta != []
    ensures |m| == |delta| - 1 && forall k :: 0 <= k < |m| ==> m[k] == Running(delta, k + 1)
  {
    seq(|delta| - 1, k requires 0 <= k < |delta| - 1 => Running(delta, k + 1))
  }

  function EntryText(index: nat, multiplicity: int): string {
    NatText(index) + ":" + IntText(multiplicity)
  }

  /** One line for each of the first n positions that occurs. */
  function Entries(m: seq<int>, n: nat): seq<string>
    requires n <= |m|
  {
    if n == 0 then []
    else Entries(m, n - 1) + if m[n - 1] == 0 then [] else [EntryText(n - 1, m[n - 1])]
  }

  function DigestText(m: seq<int>): string {
    Terminated(Entries(m, |m|), '\n')
  }

  /** The first n positions that occur at all, in ascending order. */
  function Occurring(m: seq<int>, n: nat): (p: seq<nat>)
    requires n <= |m|
    ensures forall i :: 0 <= i < |p| ==> p[i] < n && m[p[i]] != 0
    ensures forall i, j :: 0 <= i < j < |p| ==> p[i] < p[j]
    ensures forall k :: 0 <= k < n && m[k] != 0 ==> k in p
  {
    if n == 0 then [] else Occurring(m, n - 1) + if m[n - 1] == 0 then [] else [n - 1]
  }

  /** One line "position:multiplicity" for every position that occurs, in ascending order, and no other. */
  lemma {:induction false} EntriesListOccurring(m: seq<int>, n: nat)
    requires n <= |m|
    ensures |Entries(m, n)| == |Occurring(m, n)|
    ensures forall i :: 0 <= i < |Entries(m, n)| ==> Entries(m, n)[i] == LineOf(m, Occurring(m, n)[i])
  {
    hide LineOf;
    if n != 0 {
      EntriesListOccurring(m, n - 1);
      EntriesStep(m, n);
    }
  }

  lemma EntriesStep(m: seq<int>, n: nat)
    requires 0 < n <= |m|
    ensures Entries(m, n) == if m[n - 1] == 0 then Entries(m, n - 1) else Entries(m, n - 1) + [LineOf(m, n - 1)]
    ensures Occurring(m, n) == if m[n - 1] == 0 then Occurring(m, n - 1) else Occurring(m, n - 1) + [n - 1]
  {
    hide NatText, IntText;
  }

  function LineOf(m: seq<int>, k: nat): string
    requires k < |m|
  {
    NatText(k) + ":" + IntText(m[k])
  }

  lemma EntryTextInjective(i: nat, a: int, j: nat, b: int)
    requires EntryText(i, a) == EntryText(j, b)
    ensures i == j && a == b
  {
    assert forall k :: 0 <= k < |NatText(i)| ==> IsDigit(NatText(i)[k]);
    assert forall k :: 0 <= k < |NatText(j)| ==> IsDigit(NatText(j)[k]);
    assert EntryText(i, a) == NatText(i) + [':'] + IntText(a);
    assert EntryText(j, b) == NatText(j) + [':'] + IntText(b);
    FirstPiece(NatText(i), IntText(a), NatText(j), IntText(b), ':');
    NatTextInjective(i, j);
    IntTextInjective(a, b);
  }

  lemma EntryHasNoNewline(i: nat, a: int)
    ensures Free(EntryText(i, a), '\n')
  {
    var t := IntText(a);
    assert forall k :: 0 <= k < |t| ==> t[k] == '-' || IsDigit(t[k]) by {
      if a < 0 {
        assert forall k :: 1 <= k < |t| ==> t[k] == t[1..][k - 1];
      }
    }
  }

  lemma {:induction false} EntriesNameEarlier(m: seq<int>, n: nat, e: string)
    requires n <= |m| && e in Entries(m, n)
    ensures exists k :: 0 <= k < n && e == EntryText(k, m[k])
    ensures Free(e, '\n')
  {
    if e in Entries(m, n - 1) {
      EntriesNameEarlier(m, n - 1, e);
    } else {
      EntryHasNoNewline(n - 1, m[n - 1]);
      assert e == EntryText(n - 1, m[n - 1]);
    }
  }

  lemma {:induction false} EntriesDetermine(m: seq<int>, m': seq<int>, n: nat)
    requires n <= |m| == |m'| && Entries(m, n) == Entries(m', n)
    ensures m[..n] == m'[..n]
  {
    hide EntryText;
    if n != 0 {
      var e, e' := Entries(m, n - 1), Entries(m', n - 1);
      if m[n - 1] != 0 && m'[n - 1] != 0 {
        assert e == Entries(m, n)[..|e|] && e' == Entries(m', n)[..|e'|];
        assert EntryText(n - 1, m[n - 1]) == Entries(m, n)[|e|] == EntryText(n - 1, m'[n - 1]);
        EntryTextInjective(n - 1, m[n - 1], n - 1, m'[n - 1]);
      } else if m[n - 1] != 0 {
        LastEntryIsNew(m, m', n);
      } else if m'[n - 1] != 0 {
        LastEntryIsNew(m', m, n);
      }
      EntriesDetermine(m, m', n - 1);
    }
  }

  lemma LastEntryIsNew(m: seq<int>, m': seq<int>, n: nat)
    requires 0 < n <= |m| == |m'| && m[n - 1] != 0
    ensures Entries(m, n) != Entries(m', n - 1)
  {
    hide EntryText;
    var e := EntryText(n - 1, m[n - 1]);
    assert e in Entries(m, n);
    if e in Entries(m', n - 1) {
      EntriesNameEarlier(m', n - 1, e);
      var k :| 0 <= k < n - 1 && e == EntryText(k, m'[k]);
      EntryTextInjective(n - 1, m[n - 1], k, m'[k]);
    }
  }

  /** The hashed text determines every multiplicity: two different multisets never share it. */
  lemma DigestTextDetermines(m: seq<int>, m': seq<int>)
    requires |m| == |m'| && DigestText(m) == DigestText(m')
    ensures m == m'
  {
    hide EntryText, Entries, Terminated;
    forall e | e in Entries(m, |m|)
      ensures Free(e, '\n')
    {
      EntriesNameEarlier(m, |m|, e);
    }
    forall e | e in Entries(m', |m'|)
      ensures Free(e, '\n')
    {
      EntriesNameEarlier(m', |m'|, e);
    }
    TerminatedInjective(Entries(m, |m|), Entries(m', |m'|), '\n');
    EntriesDetermine(m, m', |m|);
    assert m[..|m|] == m && m'[..|m'|] == m';
  }

  /** The bytes fed to the hash, line by line, from the running sum of the difference array. */
  method MultisetDigest(delta: seq<int>) returns (text: string)
    requires delta != []
    ensures text == DigestText(Multiplicities(delta))
  {
    hide Entries, Terminated, NatText, IntText;
    text := "";
    var multiplicity := 0;
    ghost var m := Multiplicities(delta);
    NoEntries(m);
    for index := 0 to |delta| - 1
      invariant multiplicity == Running(delta, index)
      invariant text == Terminated(Entries(m, index), '\n')
    {
      multiplicity := multiplicity + delta[index];
      NextEntry(m, index);
      if multiplicity != 0 {
        var line := NatText(index) + ":" + IntText(multiplicity);
        text := text + line + "\n";
      }
    }
  }

  lemma NoEntries(m: seq<int>)
    ensures Terminated(Entries(m, 0), '\n') == ""
  {
  }

  /** One more position adds its line, or nothing. */
  lemma NextEntry(m: seq<int>, index: nat)
    requires index < |m|
    ensures Terminated(Entries(m, index + 1), '\n') ==
            Terminated(Entries(m, index), '\n') + if m[index] == 0 then "" else LineOf(m, index) + "\n"
  {
    hide Entries, LineOf, Terminated;
    EntriesStep(m, index + 1);
    if m[index] != 0 {
      var line := LineOf(m, index);
      TerminatedAppend(Entries(m, index), [line], '\n');
      OneTerminated(line);
    }
  }

  lemma OneTerminated(line: string)
    ensures Terminated([line], '\n') == line + "\n"
  {
    assert [line][1..] == [];
  }

  /** The multiplicities of a year tallied from zero: one for every resampled position. */
  lemma TalliedMultiplicities(delta: seq<int>, positions: seq<nat>)
    requires delta != [] && Tallied(seq(|delta|, _ => 0), delta, positions)
    ensures forall k :: 0 <= k < |delta| - 1 ==> Multiplicities(delta)[k] == multiset(positions)[k]
  {
    forall k | 0 <= k < |delta| - 1
      ensures Multiplicities(delta)[k] == multiset(positions)[k]
    {
      RunningZero(|delta|, k + 1);
    }
  }

  ghost function SumTo(m: seq<int>, n: nat): int
    requires n <= |m|
  {
    if n == 0 then 0 else SumTo(m, n - 1) + m[n - 1]
  }

  lemma {:induction false} SumToPrefix(m: seq<int>, x: int, n: nat)
    requires n <= |m|
    ensures SumTo(m + [x], n) == SumTo(m, n)
  {
    if n != 0 {
      SumToPrefix(m, x, n - 1);
    }
  }

  lemma SumToAppend(m: seq<int>, x: int)
    ensures SumTo(m + [x], |m| + 1) == SumTo(m, |m|) + x
  {
    SumToPrefix(m, x, |m|);
  }

  /** Multiplicities of positions inside the grid add up to the number of positions. */
  lemma {:induction false} MultiplicitiesAddUp(m: seq<int>, positions: seq<nat>)
    requires forall i :: 0 <= i < |positions| ==> positions[i] < |m|
    requires forall k :: 0 <= k < |m| ==> m[k] == multiset(positions)[k]
    ensures SumTo(m, |m|) == |positions|
    decreases |positions|
  {
    if positions == [] {
      AllZero(m, |m|);
    } else {
      var front, last := positions[..|positions| - 1], positions[|positions| - 1];
      assert positions == front + [last];
      var m' := m[last := m[last] - 1];
      MultiplicitiesAddUp(m', front);
      OneLess(m, last, |m|);
    }
  }

  lemma {:induction false} AllZero(m: seq<int>, n: nat)
    requires n <= |m| && forall k :: 0 <= k < n ==> m[k] == 0
    ensures SumTo(m, n) == 0
  {
    if n != 0 {
      AllZero(m, n - 1);
    }
  }

  lemma {:induction false} OneLess(m: seq<int>, slot: nat, n: nat)
    requires slot < |m| && n <= |m|
    ensures SumTo(m[slot := m[slot] - 1], n) == SumTo(m, n) - if slot < n then 1 else 0
  {
    if n != 0 {
      OneLess(m, slot, n - 1);
    }
  }

  lemma {:induction false} RunningZero(n: nat, k: nat)
    requires k <= n
    ensures Running(seq(n, _ => 0), k) == 0
  {
    if k != 0 {
      RunningZero(n, k - 1);
    }
  }
}
