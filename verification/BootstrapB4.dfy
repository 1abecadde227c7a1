/**
 The year-stratified paired moving-block bootstrap: one random stream and one multiplicity tally per
 year, pooled replicate means, the nearest-rank interval and the one-sided p-value.

 Seeds come from hashing the comparison and the year; that derivation is a parameter here.
 */
module BootstrapB4 {
  import opened Wrappers
  import opened SplitMix
  import opened BlockBootstrap
  import NearestRank
  import opened Sums
  import opened Calendar
  import opened Arith

  const BLOCK_HOURS: nat := 168
  const STORAGE_SCALE: real := 1_000_000_000_000_000_000.0

  function DrawCount(hours: nat, blockHours: nat): nat
    requires blockHours > 0
  {
    (hours + blockHours - 1) / blockHours
  }

  /** The least number of blocks that covers the hours. */
  lemma DrawCountCovers(hours: nat, blockHours: nat)
    requires blockHours > 0
    ensures (DrawCount(hours, blockHours) - 1) * blockHours < hours <= DrawCount(hours, blockHours) * blockHours
  {
    var x := hours + blockHours - 1;
    assert x == blockHours * (x / blockHours) + x % blockHours;
    assert (x / blockHours - 1) * blockHours == x / blockHours * blockHours - blockHours;
  }

  /** The next n bounded draws and the state they leave. */
  ghost function DrawStarts(state: Word, n: nat, bound: int): (r: (seq<int>, Word))
    requires 0 < bound <= WORD
    ensures |r.0| == n && forall i :: 0 <= i < n ==> 0 <= r.0[i] < bound
  {
    if n == 0 then ([], state)
    else
      var (starts, last) := DrawStarts(state, n - 1, bound);
      (starts + [BelowValue(last, bound)], BelowState(last, bound))
  }

  /** Start k is the value of one bounded draw from the state the k starts before it left. */
  lemma {:induction false} DrawnInTurn(state: Word, n: nat, bound: int, k: nat)
    requires 0 < bound <= WORD && k < n
    ensures DrawStarts(state, 0, bound).1 == state
    ensures DrawStarts(state, n, bound).0[k] == BelowValue(DrawStarts(state, k, bound).1, bound)
    ensures DrawStarts(state, k + 1, bound).1 == BelowState(DrawStarts(state, k, bound).1, bound)
  {
    hide BelowValue, BelowState;
    if k < n - 1 {
      DrawnInTurn(state, n - 1, bound, k);
    }
  }

  /** Every drawn start is used: its block begins at an hour the resampled year still needs. */
  lemma EveryStartIsUsed(starts: seq<int>, hours: nat, blockHours: nat, k: nat)
    requires Resampled(starts, hours, blockHours).Ok? && |starts| == DrawCount(hours, blockHours) && k < |starts|
    ensures 0 <= k * blockHours < hours == |Resampled(starts, hours, blockHours).value|
    ensures Resampled(starts, hours, blockHours).value[k * blockHours] == starts[k]
  {
    hide DrawCount, Positions;
    DrawCountCovers(hours, blockHours);
    MulAtMost(k, |starts| - 1, blockHours);
    MulAtMost(0, k, blockHours);
    PositionsCover(starts, hours, hours, blockHours);
    var at := k * blockHours;
    DivModUnique(at, k, 0, blockHours);
    PositionAt(starts, hours, hours, blockHours, at);
  }

  /** Draws the least number of eligible starts whose blocks cover the grid. */
  method SampleBlockStarts(rng: SplitMix64, hours: int, blockHours: int) returns (r: Result<seq<int>, BlockBootstrap.Error>)
    modifies rng
    ensures r.Err? ==> rng.state == old(rng.state)
    ensures r.Ok? <==> Geometry(hours, blockHours) && hours - blockHours + 1 <= WORD
    ensures r.Ok? ==> (|r.value| - 1) * blockHours < hours <= |r.value| * blockHours
    ensures r.Ok? ==>
      && (r.value, rng.state) == DrawStarts(old(rng.state), DrawCount(hours, blockHours), hours - blockHours + 1)
      && Resampled(r.value, hours, blockHours).Ok?
  {
    hide DrawCount, BelowValue, BelowState, Draw, StateAfter, Refused, Limit, Positions;
    if !Geometry(hours, blockHours) {
      return Err(BadGeometry);
    }
    var drawCount := DrawCount(hours, blockHours);
    var eligible := hours - blockHours + 1;
    if eligible > WORD {
      return Err(BlockBootstrap.BadBound);
    }
    var starts: seq<int> := [];
    for k := 0 to drawCount
      invariant (starts, rng.state) == DrawStarts(old(rng.state), k, eligible)
    {
      var start, _ := rng.Below(eligible);
      starts := starts + [start.value];
    }
    DrawCountCovers(hours, blockHours);
    EligibleStartsCover(starts, hours, hours, blockHours);
    r := Ok(starts);
  }

  // ---------- one year over all replicates ----------

  /** Enough hours for a block, few enough for a 64-bit draw. */
  predicate Eligible(hours: nat) {
    BLOCK_HOURS <= hours <= WORD
  }

  /** The stream state before replicate r. */
  ghost function YearState(seed: Word, hours: nat, r: nat): Word
    requires Eligible(hours)
  {
    if r == 0 then seed
    else DrawStarts(YearState(seed, hours, r - 1), DrawCount(hours, BLOCK_HOURS), hours - BLOCK_HOURS + 1).1
  }

  ghost function YearStarts(seed: Word, hours: nat, r: nat): seq<int>
    requires Eligible(hours)
  {
    DrawStarts(YearState(seed, hours, r), DrawCount(hours, BLOCK_HOURS), hours - BLOCK_HOURS + 1).0
  }

  /** The positions replicate r resamples: always `hours` of them, all inside the grid. */
  ghost function YearPositions(seed: Word, hours: nat, r: nat): (p: seq<nat>)
    requires Eligible(hours)
    ensures |p| == hours && forall i :: 0 <= i < |p| ==> p[i] < hours
  {
    var starts := YearStarts(seed, hours, r);
    DrawCountCovers(hours, BLOCK_HOURS);
    EligibleStartsCover(starts, hours, hours, BLOCK_HOURS);
    PositionsCover(starts, hours, hours, BLOCK_HOURS);
    Resampled(starts, hours, BLOCK_HOURS).value
  }

  /** Everything resampled by the first n replicates. */
  ghost function AllPositions(seed: Word, hours: nat, n: nat): (p: seq<nat>)
    requires Eligible(hours)
    ensures |p| == n * hours && forall i :: 0 <= i < |p| ==> p[i] < hours
  {
    if n == 0 then [] else AllPositions(seed, hours, n - 1) + YearPositions(seed, hours, n - 1)
  }

  datatype Prepared = Prepared(year: int, grid: Grid, values: seq<int>, valid: seq<int>)

  ghost predicate Ready(p: Prepared) {
    PrefixSums(p.grid, p.values, p.valid) && Eligible(|p.grid|)
  }

  /** The tally after the first n replicates of a year, from an all-zero difference array. */
  ghost predicate YearTallied(p: Prepared, seed: Word, delta: seq<int>, n: nat)
    requires Eligible(|p.grid|)
  {
    |delta| == |p.grid| + 1 && Tallied(seq(|delta|, _ => 0), delta, AllPositions(seed, |p.grid|, n))
  }

  lemma TallyNext(before: seq<int>, delta: seq<int>, delta': seq<int>, done: seq<nat>, more: seq<nat>)
    requires Tallied(before, delta, done) && Tallied(delta, delta', more)
    ensures Tallied(before, delta', done + more)
  {
  }

  /** One replicate of one year: advances its stream, its tally, and returns its exact share. */
  method ResampleYear(p: Prepared, rng: SplitMix64, delta: array<int>, ghost seed: Word, ghost r: nat)
    returns (numerator: int, denominator: int)
    requires Ready(p) && rng.state == YearState(seed, |p.grid|, r)
    requires delta.Length == |p.grid| + 1 && YearTallied(p, seed, delta[..], r)
    modifies rng, delta
    ensures rng.state == YearState(seed, |p.grid|, r + 1)
    ensures YearTallied(p, seed, delta[..], r + 1)
    ensures InGrid(p.grid, YearPositions(seed, |p.grid|, r))
    ensures numerator == TotalAt(p.grid, YearPositions(seed, |p.grid|, r))
    ensures denominator == ValidAt(p.grid, YearPositions(seed, |p.grid|, r))
  {
    hide DrawStarts, Tallied, Resampled, TotalAt, ValidAt, PrefixSums, DrawCount, InGrid;
    var starts := SampleBlockStarts(rng, |p.grid|, BLOCK_HOURS);
    ghost var before := delta[..];
    var aggregated := AggregatePrefixes(p.grid, p.values, p.valid, starts.value, |p.grid|, BLOCK_HOURS, delta);
    numerator, denominator := aggregated.value.0, aggregated.value.1;
    TallyNext(seq(|before|, _ => 0), before, delta[..], AllPositions(seed, |p.grid|, r), YearPositions(seed, |p.grid|, r));
  }

  // ---------- all years together ----------

  ghost predicate AllReady(prepared: seq<Prepared>) {
    forall i :: 0 <= i < |prepared| ==> Ready(prepared[i])
  }

  /** Exact sum of replicate r over the first n years. */
  ghost function PooledTotal(prepared: seq<Prepared>, seeds: seq<Word>, r: nat, n: nat): int
    requires AllReady(prepared) && n <= |prepared| == |seeds|
    requires YearsInGrid(prepared, seeds, r, n)
  {
    if n == 0 then 0
    else PooledTotal(prepared, seeds, r, n - 1) + TotalAt(prepared[n - 1].grid, YearPositions(seeds[n - 1], |prepared[n - 1].grid|, r))
  }

  /** Valid observations of replicate r over the first n years. */
  ghost function PooledValid(prepared: seq<Prepared>, seeds: seq<Word>, r: nat, n: nat): nat
    requires AllReady(prepared) && n <= |prepared| == |seeds|
    requires YearsInGrid(prepared, seeds, r, n)
  {
    if n == 0 then 0
    else PooledValid(prepared, seeds, r, n - 1) + ValidAt(prepared[n - 1].grid, YearPositions(seeds[n - 1], |prepared[n - 1].grid|, r))
  }

  /** The pooled sums are the years' own sums added up, each counted once. */
  lemma {:induction false} PooledAddsUp(prepared: seq<Prepared>, seeds: seq<Word>, r: nat, n: nat)
    returns (totals: seq<int>, valid: seq<int>)
    requires AllReady(prepared) && n <= |prepared| == |seeds|
    requires YearsInGrid(prepared, seeds, r, n)
    ensures |totals| == |valid| == n
    ensures forall i :: 0 <= i < n ==> totals[i] == TotalAt(prepared[i].grid, YearPositions(seeds[i], |prepared[i].grid|, r))
    ensures forall i :: 0 <= i < n ==> valid[i] == ValidAt(prepared[i].grid, YearPositions(seeds[i], |prepared[i].grid|, r))
    ensures PooledTotal(prepared, seeds, r, n) == SumTo(totals, n) && PooledValid(prepared, seeds, r, n) == SumTo(valid, n)
  {
    hide YearPositions, TotalAt, ValidAt, PrefixSums, InGrid;
    if n == 0 {
      totals, valid := [], [];
    } else {
      totals, valid := PooledAddsUp(prepared, seeds, r, n - 1);
      var total := TotalAt(prepared[n - 1].grid, YearPositions(seeds[n - 1], |prepared[n - 1].grid|, r));
      var count := ValidAt(prepared[n - 1].grid, YearPositions(seeds[n - 1], |prepared[n - 1].grid|, r));
      SumToAppend(totals, total);
      SumToAppend(valid, count);
      totals, valid := totals + [total], valid + [count];
    }
  }

  ghost predicate YearsInGrid(prepared: seq<Prepared>, seeds: seq<Word>, r: nat, n: nat)
    requires AllReady(prepared) && n <= |prepared| == |seeds|
  {
    forall i :: 0 <= i < n ==> InGrid(prepared[i].grid, YearPositions(seeds[i], |prepared[i].grid|, r))
  }

  lemma AlwaysInGrid(prepared: seq<Prepared>, seeds: seq<Word>, r: nat, n: nat)
    requires AllReady(prepared) && n <= |prepared| == |seeds|
    ensures YearsInGrid(prepared, seeds, r, n)
  {
    hide YearPositions;
  }

  /** Every year has its own stream and its own tally. */
  ghost predicate Slots(prepared: seq<Prepared>, seeds: seq<Word>, streams: seq<SplitMix64>, deltas: seq<array<int>>) {
    && AllReady(prepared) && |streams| == |deltas| == |seeds| == |prepared|
    && (forall i, j :: 0 <= i < j < |streams| ==> streams[i] != streams[j])
    && (forall i, j :: 0 <= i < j < |deltas| ==> deltas[i] != deltas[j])
    && (forall i :: 0 <= i < |deltas| ==> deltas[i].Length == |prepared[i].grid| + 1)
  }

  /** Year i has gone through exactly n replicates. */
  ghost predicate YearAt(prepared: seq<Prepared>, seeds: seq<Word>, streams: seq<SplitMix64>, deltas: seq<array<int>>, i: nat, n: nat)
    requires Slots(prepared, seeds, streams, deltas) && i < |prepared|
    reads streams[i], deltas[i]
  {
    && streams[i].state == YearState(seeds[i], |prepared[i].grid|, n)
    && YearTallied(prepared[i], seeds[i], deltas[i][..], n)
  }

  /** Years lo..hi-1 have gone through exactly n replicates. */
  ghost predicate YearsAt(prepared: seq<Prepared>, seeds: seq<Word>, streams: seq<SplitMix64>, deltas: seq<array<int>>,
                          lo: nat, hi: nat, n: nat)
    requires Slots(prepared, seeds, streams, deltas) && hi <= |prepared|
    reads streams, deltas
  {
    forall i :: lo <= i < hi ==> YearAt(prepared, seeds, streams, deltas, i, n)
  }

  /** Every one of the first n years has a valid observation in replicate r. */
  ghost predicate NoneEmpty(prepared: seq<Prepared>, seeds: seq<Word>, r: nat, n: nat)
    requires AllReady(prepared) && n <= |prepared| == |seeds|
    requires YearsInGrid(prepared, seeds, r, n)
  {
    forall i :: 0 <= i < n ==> ValidAt(prepared[i].grid, YearPositions(seeds[i], |prepared[i].grid|, r)) > 0
  }

  /** The year without a single valid observation in replicate r, if any, else the pooled sums. */
  method RunReplicate(prepared: seq<Prepared>, ghost seeds: seq<Word>, streams: seq<SplitMix64>, deltas: seq<array<int>>, ghost r: nat)
    returns (empty: Option<nat>, numerator: int, denominator: nat)
    requires Slots(prepared, seeds, streams, deltas)
    requires YearsAt(prepared, seeds, streams, deltas, 0, |prepared|, r)
    modifies streams, deltas
    ensures YearsInGrid(prepared, seeds, r, |prepared|)
    ensures empty.None? ==>
      && YearsAt(prepared, seeds, streams, deltas, 0, |prepared|, r + 1)
      && NoneEmpty(prepared, seeds, r, |prepared|)
      && numerator == PooledTotal(prepared, seeds, r, |prepared|)
      && denominator == PooledValid(prepared, seeds, r, |prepared|)
    ensures empty.Some? ==>
      && empty.value < |prepared|
      && ValidAt(prepared[empty.value].grid, YearPositions(seeds[empty.value], |prepared[empty.value].grid|, r)) == 0
  {
    hide YearPositions, YearState, YearTallied, TotalAt, ValidAt, PrefixSums, InGrid;
    AlwaysInGrid(prepared, seeds, r, |prepared|);
    numerator, denominator := 0, 0;
    for y := 0 to |prepared|
      invariant YearsAt(prepared, seeds, streams, deltas, y, |prepared|, r)
      invariant YearsAt(prepared, seeds, streams, deltas, 0, y, r + 1)
      invariant YearsInGrid(prepared, seeds, r, y) && NoneEmpty(prepared, seeds, r, y)
      invariant numerator == PooledTotal(prepared, seeds, r, y)
      invariant denominator == PooledValid(prepared, seeds, r, y)
    {
      assert YearAt(prepared, seeds, streams, deltas, y, r);
      var yearNumerator, yearDenominator := ResampleYear(prepared[y], streams[y], deltas[y], seeds[y], r);
      if yearDenominator == 0 {
        return Some(y), 0, 0;
      }
      numerator, denominator := numerator + yearNumerator, denominator + yearDenominator;
      assert YearAt(prepared, seeds, streams, deltas, y, r + 1);
    }
    empty := None;
  }

  // ---------- the whole bootstrap ----------

  datatype YearGrid = YearGrid(year: int, values: Grid)

  datatype B4Error =
    | BadResamples | BadBlockHours | NoYears
    | WrongLength(index: nat) | InsufficientObserved(index: nat) | EmptyResample(index: nat, replicate: nat)

  datatype B4Result = B4Result(
    observedMean: real, replicateMeans: seq<real>, ciLower: real, ciUpper: real, pValue: real, digests: seq<string>)

  /** Clock hours of a calendar year in UTC, from one first of January to the next. */
  function NominalHours(year: int): (hours: nat)
    ensures hours == 24 * (DaysBefore(year + 1) - DaysBefore(year))
  {
    YearLength(year);
    24 * if LeapYear(year) then 366 else 365
  }

  ghost function Whole(grid: Grid): (p: seq<nat>)
    ensures InGrid(grid, p)
  {
    Span(0, |grid|)
  }

  /** A year can enter: its nominal grid, with at least one block of valid observations. */
  ghost predicate Acceptable(y: YearGrid) {
    |y.values| == NominalHours(y.year) && ValidAt(y.values, Whole(y.values)) >= BLOCK_HOURS
  }

  ghost function ObservedTotal(years: seq<YearGrid>, n: nat): int
    requires n <= |years|
  {
    if n == 0 then 0 else ObservedTotal(years, n - 1) + TotalAt(years[n - 1].values, Whole(years[n - 1].values))
  }

  ghost function ObservedValid(years: seq<YearGrid>, n: nat): nat
    requires n <= |years|
  {
    if n == 0 then 0 else ObservedValid(years, n - 1) + ValidAt(years[n - 1].values, Whole(years[n - 1].values))
  }

  lemma RatioTimesDenominator(a: real, b: real, c: real)
    requires b > 0.0 && c > 0.0
    ensures b * c != 0.0 && a / (b * c) * b * c == a
  {
    var d := b * c;
    assert a / d * b * c == a / d * d;
  }

  /** An exact ratio brought back from storage units. */
  function Scaled(numerator: int, denominator: nat): (mean: real)
    requires denominator > 0
    ensures mean * denominator as real * 1_000_000_000_000_000_000.0 == numerator as real
  {
    RatioTimesDenominator(numerator as real, denominator as real, STORAGE_SCALE);
    numerator as real / (denominator as real * STORAGE_SCALE)
  }

  ghost predicate PreparedFrom(years: seq<YearGrid>, prepared: seq<Prepared>, n: nat) {
    && n <= |years| && |prepared| == n && AllReady(prepared)
    && forall i :: 0 <= i < n ==> prepared[i].year == years[i].year && prepared[i].grid == years[i].values
  }

  method PrepareYears(years: seq<YearGrid>) returns (r: Result<(seq<Prepared>, int, nat), B4Error>)
    ensures r.Ok? ==>
      && PreparedFrom(years, r.value.0, |years|)
      && (forall i :: 0 <= i < |years| ==> Acceptable(years[i]))
      && r.value.1 == ObservedTotal(years, |years|) && r.value.2 == ObservedValid(years, |years|)
      && (years != [] ==> r.value.2 > 0)
    ensures r.Err? ==>
      && (r.error.WrongLength? || r.error.InsufficientObserved?)
      && r.error.index < |years| && !Acceptable(years[r.error.index])
      && (r.error.WrongLength? <==> |years[r.error.index].values| != NominalHours(years[r.error.index].year))
      && forall i :: 0 <= i < r.error.index ==> Acceptable(years[i])
  {
    hide PrefixSums, TotalAt, ValidAt, Span;
    var prepared: seq<Prepared> := [];
    var numerator, denominator: nat := 0, 0;
    for i := 0 to |years|
      invariant PreparedFrom(years, prepared, i)
      invariant forall k :: 0 <= k < i ==> Acceptable(years[k])
      invariant numerator == ObservedTotal(years, i) && denominator == ObservedValid(years, i)
      invariant i > 0 ==> denominator > 0
    {
      var y := years[i];
      if |y.values| != NominalHours(y.year) {
        return Err(WrongLength(i));
      }
      var values, valid := Prefixes(y.values);
      PrefixLengths(y.values, values, valid);
      SpanTotals(y.values, values, valid, 0, |y.values|);
      PrefixStarts(y.values, values, valid);
      if valid[|y.values|] < BLOCK_HOURS {
        return Err(InsufficientObserved(i));
      }
      prepared := prepared + [Prepared(y.year, y.values, values, valid)];
      numerator, denominator := numerator + values[|y.values|], denominator + valid[|y.values|];
    }
    r := Ok((prepared, numerator, denominator));
  }

  lemma PrefixStarts(grid: Grid, values: seq<int>, valid: seq<int>)
    requires PrefixSums(grid, values, valid)
    ensures values[0] == 0 && valid[0] == 0
  {
  }

  /** Fresh streams at their seeds and fresh all-zero tallies, one of each per year. */
  method StartYears(prepared: seq<Prepared>, seeds: seq<Word>) returns (streams: seq<SplitMix64>, deltas: seq<array<int>>)
    requires AllReady(prepared) && |seeds| == |prepared|
    ensures Slots(prepared, seeds, streams, deltas)
    ensures YearsAt(prepared, seeds, streams, deltas, 0, |prepared|, 0)
    ensures forall i :: 0 <= i < |streams| ==> fresh(streams[i])
    ensures forall i :: 0 <= i < |deltas| ==> fresh(deltas[i])
  {
    hide PrefixSums, Tallied;
    streams, deltas := [], [];
    for i := 0 to |prepared|
      invariant |streams| == |deltas| == i
      invariant forall k :: 0 <= k < i ==> fresh(streams[k]) && streams[k].state == seeds[k]
      invariant forall k :: 0 <= k < i ==> fresh(deltas[k]) && deltas[k].Length == |prepared[k].grid| + 1
      invariant forall k :: 0 <= k < i ==> deltas[k][..] == seq(|prepared[k].grid| + 1, _ => 0)
      invariant forall j, k :: 0 <= j < k < i ==> streams[j] != streams[k]
      invariant forall j, k :: 0 <= j < k < i ==> deltas[j] != deltas[k]
    {
      var rng := new SplitMix64(seeds[i]);
      var delta := new int[|prepared[i].grid| + 1](_ => 0);
      streams, deltas := streams + [rng], deltas + [delta];
    }
    forall k | 0 <= k < |prepared|
      ensures YearAt(prepared, seeds, streams, deltas, k, 0)
    {
      NothingTallied(prepared[k].grid, deltas[k][..]);
    }
  }

  /** Mean of replicate r pooled over all years. */
  ghost function ReplicateMean(prepared: seq<Prepared>, seeds: seq<Word>, r: nat): real
    requires AllReady(prepared) && |prepared| == |seeds|
    requires YearsInGrid(prepared, seeds, r, |prepared|) && PooledValid(prepared, seeds, r, |prepared|) > 0
  {
    Scaled(PooledTotal(prepared, seeds, r, |prepared|), PooledValid(prepared, seeds, r, |prepared|))
  }

  /** The first n means are those of the first n replicates, none of which had an empty year. */
  ghost predicate MeansOf(prepared: seq<Prepared>, seeds: seq<Word>, means: seq<real>) {
    && AllReady(prepared) && |prepared| == |seeds|
    && forall r :: 0 <= r < |means| ==>
      && YearsInGrid(prepared, seeds, r, |prepared|) && NoneEmpty(prepared, seeds, r, |prepared|)
      && PooledValid(prepared, seeds, r, |prepared|) > 0
      && means[r] == ReplicateMean(prepared, seeds, r)
  }

  lemma {:induction false} NonEmptyPool(prepared: seq<Prepared>, seeds: seq<Word>, r: nat, n: nat)
    requires AllReady(prepared) && 0 < n <= |prepared| == |seeds|
    requires YearsInGrid(prepared, seeds, r, n) && NoneEmpty(prepared, seeds, r, n)
    ensures PooledValid(prepared, seeds, r, n) > 0
  {
  }

  /** The replicates whose mean exceeds the observed one by at least the observed one. */
  ghost function Exceeding(means: seq<real>, observed: real): (r: set<int>)
    ensures forall k :: k in r <==> 0 <= k < |means| && means[k] - observed >= observed
  {
    set k | 0 <= k < |means| && means[k] - observed >= observed
  }

  method PValue(means: seq<real>, observed: real) returns (p: real)
    requires means != []
    ensures p == (1.0 + |set k | 0 <= k < |means| && means[k] - observed >= observed| as real) / (|means| as real + 1.0)
    ensures p == (1.0 + |Exceeding(means, observed)| as real) / (|means| as real + 1.0)
    ensures 0.0 < p <= 1.0
  {
    var exceedances: nat := 0;
    for k := 0 to |means|
      invariant exceedances <= k
      invariant exceedances == |Exceeding(means[..k], observed)|
    {
      ExceedingNext(means, observed, k);
      if means[k] >= 2.0 * observed {
        exceedances := exceedances + 1;
      }
    }
    assert means[..|means|] == means;
    assert Exceeding(means, observed) == set k | 0 <= k < |means| && means[k] - observed >= observed;
    p := (1.0 + exceedances as real) / (|means| as real + 1.0);
    FractionBounds(1.0 + exceedances as real, |means| as real + 1.0);
  }

  lemma ExceedingNext(means: seq<real>, observed: real, k: nat)
    requires k < |means|
    ensures |Exceeding(means[..k + 1], observed)| ==
            |Exceeding(means[..k], observed)| + if means[k] >= 2.0 * observed then 1 else 0
  {
    var before, after := Exceeding(means[..k], observed), Exceeding(means[..k + 1], observed);
    assert after == if means[k] >= 2.0 * observed then before + {k} else before;
  }

  lemma FractionBounds(a: real, b: real)
    requires 0.0 < a <= b
    ensures 0.0 < a / b <= 1.0
  {
  }

  /** How often each position of a grid occurs in a list of positions. */
  ghost function Counts(positions: seq<nat>, hours: nat): (m: seq<int>)
    ensures |m| == hours && forall k :: 0 <= k < hours ==> m[k] == multiset(positions)[k]
  {
    seq(hours, k => multiset(positions)[k])
  }

  /** A year's digest text is that of its resampled multiset, whose counts add up to resamples times hours. */
  ghost predicate DigestOf(p: Prepared, seed: Word, resamples: nat, digest: string)
    requires Eligible(|p.grid|)
  {
    var m := Counts(AllPositions(seed, |p.grid|, resamples), |p.grid|);
    digest == DigestText(m) && SumTo(m, |m|) == resamples * |p.grid|
  }

  ghost predicate DigestsOf(prepared: seq<Prepared>, seeds: seq<Word>, resamples: nat, digests: seq<string>, n: nat) {
    && AllReady(prepared) && n == |digests| <= |prepared| == |seeds|
    && forall i :: 0 <= i < n ==> DigestOf(prepared[i], seeds[i], resamples, digests[i])
  }

  lemma TalliedDigest(p: Prepared, seed: Word, resamples: nat, delta: seq<int>, digest: string)
    requires Ready(p) && YearTallied(p, seed, delta, resamples)
    requires digest == DigestText(Multiplicities(delta))
    ensures DigestOf(p, seed, resamples, digest)
  {
    hide DigestText, AllPositions, Tallied, PrefixSums;
    var positions := AllPositions(seed, |p.grid|, resamples);
    var m := Counts(positions, |p.grid|);
    TalliedMultiplicities(delta, positions);
    assert m == Multiplicities(delta);
    MultiplicitiesAddUp(m, positions);
  }

  lemma NoDigests(prepared: seq<Prepared>, seeds: seq<Word>, resamples: nat)
    requires AllReady(prepared) && |prepared| == |seeds|
    ensures DigestsOf(prepared, seeds, resamples, [], 0)
  {
    hide Ready, DigestOf;
  }

  lemma AddDigest(prepared: seq<Prepared>, seeds: seq<Word>, resamples: nat, digests: seq<string>, i: nat, digest: string)
    requires DigestsOf(prepared, seeds, resamples, digests, i) && i < |prepared|
    requires Ready(prepared[i]) && Eligible(|prepared[i].grid|) && DigestOf(prepared[i], seeds[i], resamples, digest)
    ensures DigestsOf(prepared, seeds, resamples, digests + [digest], i + 1)
  {
    hide Ready, DigestOf;
  }

  lemma SameLengths(prepared: seq<Prepared>, seeds: seq<Word>, streams: seq<SplitMix64>, deltas: seq<array<int>>)
    requires Slots(prepared, seeds, streams, deltas)
    ensures AllReady(prepared) && |prepared| == |seeds| == |deltas|
  {
    hide Ready;
  }

  lemma TallyOfYear(prepared: seq<Prepared>, seeds: seq<Word>, streams: seq<SplitMix64>, deltas: seq<array<int>>, i: nat, n: nat)
    requires Slots(prepared, seeds, streams, deltas) && i < |prepared|
    requires YearsAt(prepared, seeds, streams, deltas, 0, |prepared|, n)
    ensures Ready(prepared[i]) && Eligible(|prepared[i].grid|) && deltas[i].Length > 0
    ensures YearTallied(prepared[i], seeds[i], deltas[i][..], n)
  {
    hide PrefixSums, YearTallied, YearState;
    assert YearAt(prepared, seeds, streams, deltas, i, n);
  }

  method Digests(prepared: seq<Prepared>, ghost seeds: seq<Word>, ghost streams: seq<SplitMix64>, deltas: seq<array<int>>, resamples: nat)
    returns (digests: seq<string>)
    requires Slots(prepared, seeds, streams, deltas)
    requires YearsAt(prepared, seeds, streams, deltas, 0, |prepared|, resamples)
    ensures DigestsOf(prepared, seeds, resamples, digests, |prepared|)
  {
    hide PrefixSums, DigestText, Multiplicities, YearTallied, DigestsOf, DigestOf, Ready, YearsAt, YearAt, Slots;
    digests := [];
    SameLengths(prepared, seeds, streams, deltas);
    NoDigests(prepared, seeds, resamples);
    for i := 0 to |prepared|
      invariant DigestsOf(prepared, seeds, resamples, digests, i)
    {
      TallyOfYear(prepared, seeds, streams, deltas, i, resamples);
      var digest := MultisetDigest(deltas[i][..]);
      TalliedDigest(prepared[i], seeds[i], resamples, deltas[i][..], digest);
      AddDigest(prepared, seeds, resamples, digests, i, digest);
      digests := digests + [digest];
    }
  }

  /**
   The whole bootstrap.  Every replicate mean is the exact pooled mean over the positions its drawn
   blocks stand for; every failure names a condition that really fails.
   */
  method Bootstrap(years: seq<YearGrid>, seeds: seq<Word>, resamples: int, blockHours: int)
    returns (r: Result<B4Result, B4Error>, ghost prepared: seq<Prepared>)
    requires |seeds| == |years|
    ensures r.Ok? ==>
      && resamples > 0 && blockHours == BLOCK_HOURS && years != []
      && (forall i :: 0 <= i < |years| ==> Acceptable(years[i]))
      && PreparedFrom(years, prepared, |years|)
      && ObservedValid(years, |years|) > 0
      && r.value.observedMean == Scaled(ObservedTotal(years, |years|), ObservedValid(years, |years|))
      && |r.value.replicateMeans| == resamples && MeansOf(prepared, seeds, r.value.replicateMeans)
      && NearestRank.IsRank(r.value.replicateMeans, r.value.ciLower, NearestRank.LowerRank(resamples))
      && NearestRank.IsRank(r.value.replicateMeans, r.value.ciUpper, NearestRank.UpperRank(resamples))
      && r.value.pValue == (1.0 + |Exceeding(r.value.replicateMeans, r.value.observedMean)| as real) / (resamples as real + 1.0)
      && DigestsOf(prepared, seeds, resamples, r.value.digests, |years|)
    ensures r.Err? ==>
      match r.error
      case BadResamples => resamples <= 0
      case BadBlockHours => blockHours != BLOCK_HOURS
      case NoYears => years == []
      case WrongLength(i) => i < |years| && |years[i].values| != NominalHours(years[i].year)
      case InsufficientObserved(i) => i < |years| && ValidAt(years[i].values, Whole(years[i].values)) < BLOCK_HOURS
      case EmptyResample(i, replicate) =>
        && PreparedFrom(years, prepared, |years|) && i < |years| && replicate < resamples
        && InGrid(prepared[i].grid, YearPositions(seeds[i], |prepared[i].grid|, replicate))
        && ValidAt(prepared[i].grid, YearPositions(seeds[i], |prepared[i].grid|, replicate)) == 0
  {
    hide YearPositions, YearAt, PrefixSums, TotalAt, ValidAt, NoneEmpty, PooledTotal, PooledValid, YearsInGrid, InGrid,
      DigestOf, NearestRank.IsRank, Exceeding, ObservedTotal, ObservedValid, Whole;
    prepared := [];
    if resamples <= 0 {
      return Err(BadResamples), prepared;
    }
    if blockHours != BLOCK_HOURS {
      return Err(BadBlockHours), prepared;
    }
    if years == [] {
      return Err(NoYears), prepared;
    }
    var preparation := PrepareYears(years);
    if preparation.Err? {
      return Err(preparation.error), prepared;
    }
    var ready := preparation.value.0;
    prepared := ready;
    var observedMean := Scaled(preparation.value.1, preparation.value.2);
    var streams, deltas := StartYears(ready, seeds);
    var means: seq<real> := [];
    for k := 0 to resamples
      invariant |means| == k && MeansOf(ready, seeds, means)
      invariant Slots(ready, seeds, streams, deltas)
      invariant YearsAt(ready, seeds, streams, deltas, 0, |ready|, k)
      invariant forall i :: 0 <= i < |streams| ==> fresh(streams[i])
      invariant forall i :: 0 <= i < |deltas| ==> fresh(deltas[i])
    {
      var empty, numerator, denominator := RunReplicate(ready, seeds, streams, deltas, k);
      if empty.Some? {
        AlwaysInGrid(ready, seeds, k, |ready|);
        YearInGrid(ready, seeds, k, empty.value);
        return Err(EmptyResample(empty.value, k)), prepared;
      }
      NonEmptyPool(ready, seeds, k, |ready|);
      means := means + [Scaled(numerator, denominator)];
    }
    var interval := NearestRank.NearestRankInterval(means);
    var pValue := PValue(means, observedMean);
    var digests := Digests(ready, seeds, streams, deltas, resamples);
    r := Ok(B4Result(observedMean, means, interval.value.0, interval.value.1, pValue, digests));
  }

  lemma YearInGrid(prepared: seq<Prepared>, seeds: seq<Word>, r: nat, i: nat)
    requires AllReady(prepared) && i < |prepared| == |seeds| && YearsInGrid(prepared, seeds, r, |prepared|)
    ensures InGrid(prepared[i].grid, YearPositions(seeds[i], |prepared[i].grid|, r))
  {
  }
}
