/**
 The backfill scheduler: a frozen slice of periods is run in batches, and a batch with a failure is
 drained but never followed by another.  Completion order, visibility of failures and the manifests
 written are whatever the environment makes them.
 */
module Backfill {
  import opened Wrappers
  import opened Arith
  import opened FiniteSets
  import opened BackfillEvidence
  import opened BackfillAttribution

  datatype RangeError = EmptyInventory | UnknownEndpoint | StartAfterEnd
  datatype BackfillError = BadWorkers | BadRange(range: RangeError) | BadManifests(manifest: ManifestError)

  datatype BackfillResult = BackfillResult(
    periods: seq<string>, outcomes: seq<PeriodOutcome>, counts: multiset<TerminalState>,
    stoppedAt: Option<string>, notAttempted: seq<string>, exitCode: int, rightsDenied: bool)

  ghost predicate Distinct(periods: seq<string>) {
    forall i, j :: 0 <= i < j < |periods| ==> periods[i] != periods[j]
  }

  // ---------- the selected slice ----------

  function IndexOf(periods: seq<string>, p: string): (i: nat)
    ensures i <= |periods| && (i < |periods| ==> periods[i] == p)
    ensures forall k :: 0 <= k < i ==> periods[k] != p
  {
    if periods == [] || periods[0] == p then 0 else 1 + IndexOf(periods[1..], p)
  }

  ghost predicate SliceAt(slice: seq<string>, inventory: seq<string>, start: Option<string>, end: Option<string>, first: nat, last: nat) {
    && first <= last < |inventory| && slice == inventory[first..last + 1]
    && inventory[first] == (if start.None? then inventory[0] else start.value)
    && inventory[last] == (if end.None? then inventory[|inventory| - 1] else end.value)
  }

  /** Where the two endpoints, or the ends of the inventory in their place, first occur. */
  ghost predicate EndpointsAt(inventory: seq<string>, start: Option<string>, end: Option<string>, first: nat, last: nat) {
    && first < |inventory| && last < |inventory|
    && inventory[first] == (if start.None? then inventory[0] else start.value) && inventory[first] !in inventory[..first]
    && inventory[last] == (if end.None? then inventory[|inventory| - 1] else end.value) && inventory[last] !in inventory[..last]
  }

  /** The first endpoint comes strictly later than the last. */
  ghost predicate Reversed(inventory: seq<string>, start: Option<string>, end: Option<string>) {
    exists first: nat, last: nat :: EndpointsAt(inventory, start, end, first, last) && first > last
  }

  lemma EndpointsUnique(inventory: seq<string>, start: Option<string>, end: Option<string>, first: nat, last: nat, i: nat, j: nat)
    requires EndpointsAt(inventory, start, end, first, last) && EndpointsAt(inventory, start, end, i, j)
    ensures i == first && j == last
  {
    FirstPlace(inventory, first, i);
    FirstPlace(inventory, last, j);
  }

  lemma FirstPlace(inventory: seq<string>, i: nat, j: nat)
    requires i < |inventory| && j < |inventory| && inventory[i] == inventory[j]
    requires inventory[i] !in inventory[..i] && inventory[j] !in inventory[..j]
    ensures i == j
  {
    if i < j {
      EarlierOccurs(inventory, i, j);
    } else if j < i {
      EarlierOccurs(inventory, j, i);
    }
  }

  lemma EarlierOccurs(inventory: seq<string>, i: nat, j: nat)
    requires i < j < |inventory| && inventory[i] == inventory[j]
    ensures inventory[j] in inventory[..j]
  {
    assert inventory[..j][i] == inventory[i];
  }

  ghost predicate SliceBetween(slice: seq<string>, inventory: seq<string>, start: Option<string>, end: Option<string>, first: nat, last: nat) {
    EndpointsAt(inventory, start, end, first, last) && first <= last && slice == inventory[first..last + 1]
  }

  /** The slice from the first occurrence of the start to the first occurrence of the end. */
  ghost predicate SliceOf(slice: seq<string>, inventory: seq<string>, start: Option<string>, end: Option<string>) {
    exists first: nat, last: nat :: SliceBetween(slice, inventory, start, end, first, last)
  }

  lemma OneSlice(a: seq<string>, b: seq<string>, inventory: seq<string>, start: Option<string>, end: Option<string>)
    requires SliceOf(a, inventory, start, end) && SliceOf(b, inventory, start, end)
    ensures a == b
  {
    hide EndpointsAt;
    var first: nat, last: nat :| SliceBetween(a, inventory, start, end, first, last);
    var i: nat, j: nat :| SliceBetween(b, inventory, start, end, i, j);
    EndpointsUnique(inventory, start, end, first, last, i, j);
  }

  lemma NoSliceReversed(inventory: seq<string>, start: Option<string>, end: Option<string>, slice: seq<string>)
    requires Reversed(inventory, start, end)
    ensures !SliceOf(slice, inventory, start, end)
  {
    hide EndpointsAt;
    if SliceOf(slice, inventory, start, end) {
      var first: nat, last: nat :| SliceBetween(slice, inventory, start, end, first, last);
      var i: nat, j: nat :| EndpointsAt(inventory, start, end, i, j) && i > j;
      EndpointsUnique(inventory, start, end, first, last, i, j);
    }
  }

  ghost predicate Selected(slice: seq<string>, inventory: seq<string>, start: Option<string>, end: Option<string>) {
    exists first, last :: SliceAt(slice, inventory, start, end, first, last)
  }

  lemma NoEndpoints(inventory: seq<string>, start: Option<string>, end: Option<string>)
    requires inventory == [] || !KnownEnd(inventory, start) || !KnownEnd(inventory, end)
    ensures !Reversed(inventory, start, end)
    ensures forall slice :: !SliceOf(slice, inventory, start, end)
  {
    forall first: nat, last: nat
      ensures !EndpointsAt(inventory, start, end, first, last)
    {
    }
    hide EndpointsAt;
  }

  lemma FoundEndpoints(inventory: seq<string>, start: Option<string>, end: Option<string>, first: nat, last: nat)
    requires EndpointsAt(inventory, start, end, first, last)
    ensures Reversed(inventory, start, end) <==> first > last
    ensures first > last ==> forall slice :: !SliceOf(slice, inventory, start, end)
    ensures first <= last ==> last < |inventory| && SliceOf(inventory[first..last + 1], inventory, start, end)
    ensures first <= last ==> last < |inventory| && Selected(inventory[first..last + 1], inventory, start, end)
  {
    if first > last {
      forall slice
        ensures !SliceOf(slice, inventory, start, end)
      {
        NoSliceReversed(inventory, start, end, slice);
      }
    } else {
      assert SliceBetween(inventory[first..last + 1], inventory, start, end, first, last);
      assert SliceAt(inventory[first..last + 1], inventory, start, end, first, last);
      if Reversed(inventory, start, end) {
        NoSliceReversed(inventory, start, end, inventory[first..last + 1]);
      }
    }
  }

  /** The contiguous slice between the endpoints, which default to the ends of the inventory. */
  method Select(inventory: seq<string>, start: Option<string>, end: Option<string>) returns (r: Result<seq<string>, RangeError>)
    ensures inventory == [] <==> r == Err(EmptyInventory)
    ensures r == Err(UnknownEndpoint) <==> inventory != [] && !(KnownEnd(inventory, start) && KnownEnd(inventory, end))
    ensures r == Err(StartAfterEnd) <==> Reversed(inventory, start, end)
    ensures r.Ok? ==> Selected(r.value, inventory, start, end) && SliceOf(r.value, inventory, start, end)
    ensures r.Ok? <==> exists slice :: SliceOf(slice, inventory, start, end)
  {
    hide SliceOf, Selected, Reversed, EndpointsAt;
    if inventory == [] {
      NoEndpoints(inventory, start, end);
      return Err(EmptyInventory);
    }
    var s := if start.None? then inventory[0] else start.value;
    var e := if end.None? then inventory[|inventory| - 1] else end.value;
    var first, last := IndexOf(inventory, s), IndexOf(inventory, e);
    if first == |inventory| || last == |inventory| {
      NoEndpoints(inventory, start, end);
      return Err(UnknownEndpoint);
    }
    FirstIsFound(inventory, start, end, s, e);
    FoundEndpoints(inventory, start, end, first, last);
    if first > last {
      return Err(StartAfterEnd);
    }
    r := Ok(inventory[first..last + 1]);
  }

  lemma FirstIsFound(inventory: seq<string>, start: Option<string>, end: Option<string>, s: string, e: string)
    requires inventory != [] && IndexOf(inventory, s) < |inventory| && IndexOf(inventory, e) < |inventory|
    requires s == if start.None? then inventory[0] else start.value
    requires e == if end.None? then inventory[|inventory| - 1] else end.value
    ensures EndpointsAt(inventory, start, end, IndexOf(inventory, s), IndexOf(inventory, e))
  {
  }

  ghost predicate KnownEnd(inventory: seq<string>, endpoint: Option<string>) {
    endpoint.None? || endpoint.value in inventory
  }

  // ---------- the environment ----------

  /**
   How a batch goes: the code each period would return, whether a failure is already visible before
   period i is submitted, the order in which invocations complete, and the manifests that appear.
   */
  datatype BatchRun = BatchRun(codes: seq<int>, visible: seq<bool>, completion: seq<nat>, manifests: seq<Manifest>)

  /** A failure is visible only after one happened; every invocation completes once. */
  ghost predicate Plausible(run: BatchRun, n: nat) {
    && |run.codes| == |run.visible| == |run.completion| == n
    && (forall i :: 0 <= i < n && run.visible[i] ==> FailsBefore(run.codes, i))
    && (forall k :: 0 <= k < n ==> run.completion[k] < n)
    && (forall k, l :: 0 <= k < l < n ==> run.completion[k] != run.completion[l])
  }

  ghost predicate FailsBefore(codes: seq<int>, i: nat) {
    exists j :: 0 <= j < i && j < |codes| && Failing(codes[j])
  }

  // ---------- one batch ----------

  ghost predicate Calls(calls: seq<Invocation>, selected: seq<string>, codes: seq<int>, n: nat) {
    n == |calls| <= |selected| == |codes| && forall i :: 0 <= i < n ==> calls[i] == Invocation(selected[i], codes[i])
  }

  /** The first place that is set, or the length. */
  function FirstSet(flags: seq<bool>): (k: nat)
    ensures k <= |flags| && (k < |flags| ==> flags[k]) && forall i :: 0 <= i < k ==> !flags[i]
  {
    if flags == [] || flags[0] then 0 else 1 + FirstSet(flags[1..])
  }

  /** How many invocations are submitted before a failure is seen. */
  method Submit(run: BatchRun, n: nat) returns (submitted: nat)
    requires n > 0 && Plausible(run, n)
    ensures submitted == FirstSet(run.visible)
    ensures 0 < submitted <= n
    ensures submitted < n ==> FailsBefore(run.codes, submitted)
  {
    submitted := 0;
    while submitted < n && !run.visible[submitted]
      invariant submitted <= n && forall i :: 0 <= i < submitted ==> !run.visible[i]
    {
      submitted := submitted + 1;
    }
  }

  /** Period was the first submitted one to complete with a failure. */
  ghost predicate SeenAt(selected: seq<string>, run: BatchRun, submitted: nat, period: string, k: nat) {
    && k < |run.completion| && run.completion[k] < submitted
    && (forall l :: 0 <= l < |run.completion| ==> run.completion[l] < |selected| == |run.codes|)
    && selected[run.completion[k]] == period && Failing(run.codes[run.completion[k]])
    && forall l :: 0 <= l < k && run.completion[l] < submitted ==> !Failing(run.codes[run.completion[l]])
  }

  ghost predicate FirstSeen(selected: seq<string>, run: BatchRun, submitted: nat, period: string) {
    exists k :: SeenAt(selected, run, submitted, period, k)
  }

  /** Collects codes in completion order and remembers the first failure that is seen. */
  method Collect(selected: seq<string>, run: BatchRun, submitted: nat) returns (codes: map<string, int>, stoppedAt: Option<string>)
    requires Distinct(selected) && Plausible(run, |selected|) && 0 < submitted <= |selected|
    ensures forall i :: 0 <= i < |selected| ==> (selected[i] in codes <==> i < submitted)
    ensures forall i :: 0 <= i < submitted ==> codes[selected[i]] == run.codes[i]
    ensures stoppedAt.Some? <==> FailsBefore(run.codes, submitted)
    ensures stoppedAt.Some? ==> StopsAt(selected, run.codes, submitted, stoppedAt.value)
    ensures stoppedAt.Some? ==> FirstSeen(selected, run, submitted, stoppedAt.value)
  {
    codes, stoppedAt := map[], None;
    for k := 0 to |run.completion|
      invariant forall i :: 0 <= i < |selected| && selected[i] in codes ==> i < submitted && codes[selected[i]] == run.codes[i]
      invariant forall l :: 0 <= l < k && run.completion[l] < submitted ==> selected[run.completion[l]] in codes
      invariant stoppedAt.Some? ==> StopsAt(selected, run.codes, submitted, stoppedAt.value)
      invariant stoppedAt.Some? ==> FirstSeen(selected, run, submitted, stoppedAt.value)
      invariant stoppedAt.None? ==> forall l :: 0 <= l < k && run.completion[l] < submitted ==> !Failing(run.codes[run.completion[l]])
    {
      var i := run.completion[k];
      if i < submitted {
        codes := codes[selected[i] := run.codes[i]];
        if stoppedAt.None? && Failing(run.codes[i]) {
          assert SeenAt(selected, run, submitted, selected[i], k);
          stoppedAt := Some(selected[i]);
        }
      }
    }
    forall i | 0 <= i < submitted
      ensures selected[i] in codes && (stoppedAt.None? ==> !Failing(run.codes[i]))
    {
      var l := Onto(run.completion, i);
    }
  }

  ghost predicate StopsAt(selected: seq<string>, codes: seq<int>, submitted: nat, period: string) {
    exists i :: 0 <= i < submitted <= |selected| == |codes| && selected[i] == period && Failing(codes[i])
  }

  /** The codes in descriptor order. */
  method OrderCodes(selected: seq<string>, codes: map<string, int>, ghost run: BatchRun, ghost submitted: nat) returns (calls: seq<Invocation>)
    requires |run.codes| == |selected| && submitted <= |selected|
    requires forall i :: 0 <= i < |selected| ==> (selected[i] in codes <==> i < submitted)
    requires forall i :: 0 <= i < submitted ==> codes[selected[i]] == run.codes[i]
    ensures Calls(calls, selected, run.codes, submitted)
  {
    calls := [];
    for i := 0 to |selected|
      invariant Calls(calls, selected, run.codes, if i < submitted then i else submitted)
    {
      if selected[i] in codes {
        calls := calls + [Invocation(selected[i], codes[selected[i]])];
      }
    }
  }

  /** What a batch that returns has established. */
  ghost predicate BatchDone(outcomes: seq<PeriodOutcome>, selected: seq<string>, run: BatchRun, seriesId: string, stoppedAt: Option<string>) {
    && 0 < |outcomes| <= |selected|
    && (forall i :: 0 <= i < |outcomes| ==> outcomes[i].period == selected[i])
    && (stoppedAt.None? ==> |outcomes| == |selected| && forall i :: 0 <= i < |outcomes| ==> !Failing(outcomes[i].exitCode))
    && (stoppedAt.Some? ==> SomeFailure(outcomes, stoppedAt.value))
    && (exists calls :: Calls(calls, selected, run.codes, |outcomes|) && ReportedBySome(outcomes, run.manifests, calls, seriesId))
  }

  ghost predicate SomeFailure(outcomes: seq<PeriodOutcome>, period: string) {
    exists i :: 0 <= i < |outcomes| && outcomes[i].period == period && Failing(outcomes[i].exitCode)
  }

  lemma DistinctCalls(calls: seq<Invocation>, selected: seq<string>, codes: seq<int>, n: nat)
    requires Distinct(selected) && Calls(calls, selected, codes, n)
    ensures DistinctPeriods(calls)
  {
  }

  /** The invocations of one batch: those submitted before a failure is visible, in descriptor order. */
  ghost function CallsOf(selected: seq<string>, run: BatchRun): (calls: seq<Invocation>)
    requires Plausible(run, |selected|)
    ensures Calls(calls, selected, run.codes, FirstSet(run.visible))
  {
    seq(FirstSet(run.visible), i requires 0 <= i < |selected| => Invocation(selected[i], run.codes[i]))
  }

  /** Some one-to-one attribution of the batch's new manifests to its invocations is correct. */
  ghost predicate BatchAttributable(selected: seq<string>, run: BatchRun, seriesId: string)
    requires Plausible(run, |selected|)
  {
    Attributable(run.manifests, CallsOf(selected, run), seriesId)
  }

  /** One of the batch's submitted invocations fails. */
  ghost predicate BatchFails(run: BatchRun) {
    FailsBefore(run.codes, FirstSet(run.visible))
  }

  lemma SameCalls(calls: seq<Invocation>, selected: seq<string>, run: BatchRun)
    requires Plausible(run, |selected|) && Calls(calls, selected, run.codes, FirstSet(run.visible))
    ensures calls == CallsOf(selected, run)
  {
    hide Plausible;
  }

  /** Submits, drains, orders and attributes one batch. */
  method Batch(selected: seq<string>, run: BatchRun, seriesId: string) returns (r: Result<seq<PeriodOutcome>, ManifestError>, stoppedAt: Option<string>)
    requires selected != [] && Distinct(selected) && Plausible(run, |selected|)
    ensures r.Ok? <==> BatchAttributable(selected, run, seriesId)
    ensures r.Ok? ==> BatchDone(r.value, selected, run, seriesId, stoppedAt)
    ensures stoppedAt.Some? <==> BatchFails(run)
    ensures stoppedAt.Some? ==> FirstSeen(selected, run, FirstSet(run.visible), stoppedAt.value)
  {
    hide Plausible, ReportedBySome, Attributable, DistinctPeriods, FirstSeen, FailsBefore;
    var submitted := Submit(run, |selected|);
    var codes: map<string, int>;
    codes, stoppedAt := Collect(selected, run, submitted);
    SameLength(run, |selected|);
    var calls := OrderCodes(selected, codes, run, submitted);
    DistinctCalls(calls, selected, run.codes, submitted);
    SameCalls(calls, selected, run);
    r := Outcomes(run.manifests, calls, seriesId);
    if r.Ok? {
      DoneBatch(r.value, calls, selected, run, seriesId, submitted, stoppedAt);
    }
  }

  lemma SameLength(run: BatchRun, n: nat)
    requires Plausible(run, n)
    ensures |run.codes| == n
  {
  }

  lemma DoneBatch(outcomes: seq<PeriodOutcome>, calls: seq<Invocation>, selected: seq<string>, run: BatchRun, seriesId: string,
                  submitted: nat, stoppedAt: Option<string>)
    requires 0 < submitted <= |selected| && Calls(calls, selected, run.codes, submitted)
    requires |outcomes| == |calls| && forall c :: 0 <= c < |calls| ==> outcomes[c].period == calls[c].period && outcomes[c].exitCode == calls[c].code
    requires ReportedBySome(outcomes, run.manifests, calls, seriesId)
    requires stoppedAt.Some? <==> FailsBefore(run.codes, submitted)
    requires stoppedAt.Some? ==> StopsAt(selected, run.codes, submitted, stoppedAt.value)
    requires submitted < |selected| ==> FailsBefore(run.codes, submitted)
    ensures BatchDone(outcomes, selected, run, seriesId, stoppedAt)
  {
    hide ReportedBySome;
    if stoppedAt.Some? {
      var i :| 0 <= i < submitted && selected[i] == stoppedAt.value && Failing(run.codes[i]);
      assert outcomes[i].period == stoppedAt.value && Failing(outcomes[i].exitCode);
    } else {
      forall i | 0 <= i < |outcomes|
        ensures !Failing(outcomes[i].exitCode)
      {
        assert !FailsBefore(run.codes, submitted);
      }
    }
  }

  // ---------- the whole run ----------

  /** The batch that starts at an offset. */
  function BatchAt(periods: seq<string>, offset: nat, workers: nat): (b: seq<string>)
    requires offset < |periods| && workers > 0
    ensures 0 < |b| <= workers && offset + |b| <= |periods|
  {
    periods[offset..if offset + workers <= |periods| then offset + workers else |periods|]
  }

  lemma DistinctBatch(periods: seq<string>, offset: nat, workers: nat)
    requires Distinct(periods) && offset < |periods| && workers > 0
    ensures Distinct(BatchAt(periods, offset, workers))
  {
  }

  /** The outcomes follow the slice, batch after batch, and batches below `offset` had no failure. */
  ghost predicate Followed(outcomes: seq<PeriodOutcome>, periods: seq<string>) {
    |outcomes| <= |periods| && forall i :: 0 <= i < |outcomes| ==> outcomes[i].period == periods[i]
  }

  ghost predicate Succeeded(outcomes: seq<PeriodOutcome>, n: nat) {
    n <= |outcomes| && forall i :: 0 <= i < n ==> !Failing(outcomes[i].exitCode)
  }

  /** Every batch started so far has its outcomes matched one to one with its own new manifests. */
  ghost predicate Traced(outcomes: seq<PeriodOutcome>, periods: seq<string>, workers: nat, env: seq<string> -> BatchRun, seriesId: string, offset: nat)
    requires workers > 0
  {
    |outcomes| <= |periods| && forall o :: 0 <= o < offset && o < |outcomes| && o % workers == 0 ==>
      TracedAt(outcomes, periods, workers, env, seriesId, o)
  }

  ghost predicate TracedAt(outcomes: seq<PeriodOutcome>, periods: seq<string>, workers: nat, env: seq<string> -> BatchRun, seriesId: string, o: nat)
    requires workers > 0 && o < |outcomes| <= |periods|
  {
    var end := if o + workers <= |outcomes| then o + workers else |outcomes|;
    var run := env(BatchAt(periods, o, workers));
    exists calls :: Calls(calls, BatchAt(periods, o, workers), run.codes, end - o)
                    && ReportedBySome(outcomes[o..end], run.manifests, calls, seriesId)
  }

  ghost predicate AllPlausible(env: seq<string> -> BatchRun) {
    forall selected :: selected != [] ==> Plausible(env(selected), |selected|)
  }

  lemma MultipleGap(o: nat, offset: nat, workers: nat)
    requires workers > 0 && o % workers == 0 && offset % workers == 0 && o < offset
    ensures o + workers <= offset
  {
    var a, b := o / workers, offset / workers;
    assert o == a * workers && offset == b * workers;
    assert a < b by {
      if a >= b {
        MulAtMost(b, a, workers);
      }
    }
    MulAtMost(a + 1, b, workers);
    assert (a + 1) * workers == a * workers + workers;
  }

  lemma NextMultiple(offset: nat, workers: nat)
    requires workers > 0 && offset % workers == 0
    ensures (offset + workers) % workers == 0
  {
    ModAddMultiple(offset, 1, workers);
  }

  /** Appending a finished batch keeps every earlier batch traced and traces the new one. */
  lemma TraceMore(outcomes: seq<PeriodOutcome>, more: seq<PeriodOutcome>, periods: seq<string>, workers: nat,
                  env: seq<string> -> BatchRun, seriesId: string, stoppedAt: Option<string>)
    requires workers > 0 && |outcomes| < |periods| && |outcomes| % workers == 0
    requires Traced(outcomes, periods, workers, env, seriesId, |outcomes|)
    requires BatchDone(more, BatchAt(periods, |outcomes|, workers), env(BatchAt(periods, |outcomes|, workers)), seriesId, stoppedAt)
    ensures Traced(outcomes + more, periods, workers, env, seriesId, |outcomes + more|)
  {
    hide ReportedBySome, Calls;
    var offset, all := |outcomes|, outcomes + more;
    forall o | 0 <= o < |all| && o % workers == 0
      ensures TracedAt(all, periods, workers, env, seriesId, o)
    {
      if o < offset {
        MultipleGap(o, offset, workers);
        assert TracedAt(outcomes, periods, workers, env, seriesId, o);
        assert all[o..o + workers] == outcomes[o..o + workers];
      } else {
        if o > offset {
          MultipleGap(offset, o, workers);
          assert false;
        }
        assert all[offset..] == more;
        assert all[offset..|all|] == more;
      }
    }
  }

  lemma FollowMore(outcomes: seq<PeriodOutcome>, more: seq<PeriodOutcome>, periods: seq<string>, workers: nat, run: BatchRun,
                   seriesId: string, stoppedAt: Option<string>)
    requires workers > 0 && Followed(outcomes, periods) && Succeeded(outcomes, |outcomes|) && |outcomes| < |periods|
    requires BatchDone(more, BatchAt(periods, |outcomes|, workers), run, seriesId, stoppedAt)
    ensures Followed(outcomes + more, periods)
    ensures |more| <= workers && (stoppedAt.None? ==> |more| == |BatchAt(periods, |outcomes|, workers)|)
    ensures stoppedAt.None? ==> Succeeded(outcomes + more, |outcomes + more|)
    ensures stoppedAt.Some? ==> SomeFailure(outcomes + more, stoppedAt.value)
    ensures Succeeded(outcomes + more, |outcomes|)
  {
    hide ReportedBySome, Calls;
    var all := outcomes + more;
    if stoppedAt.Some? {
      var i :| 0 <= i < |more| && more[i].period == stoppedAt.value && Failing(more[i].exitCode);
      assert all[|outcomes| + i] == more[i];
    }
  }

  /** All batches before the last were free of failures, and the last one is at most a batch long. */
  ghost predicate LastBatch(outcomes: seq<PeriodOutcome>, lo: nat, workers: nat)
    requires workers > 0
  {
    lo % workers == 0 && lo < |outcomes| <= lo + workers && Succeeded(outcomes, lo)
  }

  ghost predicate Drained(outcomes: seq<PeriodOutcome>, workers: nat)
    requires workers > 0
  {
    exists lo :: LastBatch(outcomes, lo, workers)
  }

  /** At most workers-1 attempted periods follow the earliest failing one. */
  lemma FewAfterFailure(outcomes: seq<PeriodOutcome>, workers: nat, f: nat)
    requires workers > 0 && Drained(outcomes, workers) && f < |outcomes| && Failing(outcomes[f].exitCode)
    ensures |outcomes| - f - 1 <= workers - 1
  {
    var lo :| LastBatch(outcomes, lo, workers);
    assert f >= lo;
  }

  // ---------- the summary ----------

  function States(outcomes: seq<PeriodOutcome>): multiset<TerminalState> {
    if outcomes == [] then multiset{} else States(outcomes[..|outcomes| - 1]) + multiset{outcomes[|outcomes| - 1].state}
  }

  /** The largest exit code, or 0 when there is none. */
  ghost predicate IsWorst(code: int, outcomes: seq<PeriodOutcome>) {
    && (forall i :: 0 <= i < |outcomes| ==> outcomes[i].exitCode <= code)
    && (if outcomes == [] then code == 0 else exists i :: 0 <= i < |outcomes| && outcomes[i].exitCode == code)
  }

  method Worst(outcomes: seq<PeriodOutcome>) returns (code: int)
    ensures IsWorst(code, outcomes)
  {
    if outcomes == [] {
      return 0;
    }
    code := outcomes[0].exitCode;
    for i := 1 to |outcomes|
      invariant forall k :: 0 <= k < i ==> outcomes[k].exitCode <= code
      invariant exists k :: 0 <= k < i && outcomes[k].exitCode == code
    {
      if outcomes[i].exitCode > code {
        code := outcomes[i].exitCode;
      }
    }
  }

  method CountStates(outcomes: seq<PeriodOutcome>) returns (counts: multiset<TerminalState>)
    ensures counts == States(outcomes)
  {
    counts := multiset{};
    for i := 0 to |outcomes|
      invariant counts == States(outcomes[..i])
    {
      assert outcomes[..i + 1][..i] == outcomes[..i];
      counts := counts + multiset{outcomes[i].state};
    }
    assert outcomes[..|outcomes|] == outcomes;
  }

  /** The periods of the slice that have no outcome. */
  method NotAttempted(periods: seq<string>, outcomes: seq<PeriodOutcome>) returns (rest: seq<string>)
    requires Distinct(periods) && Followed(outcomes, periods)
    ensures rest == periods[|outcomes|..]
  {
    var attempted: set<string> := {};
    for i := 0 to |outcomes|
      invariant forall p :: p in attempted <==> p in periods[..i]
    {
      attempted := attempted + {outcomes[i].period};
    }
    rest := [];
    for i := 0 to |periods|
      invariant rest == if i <= |outcomes| then [] else periods[|outcomes|..i]
    {
      if periods[i] !in attempted {
        rest := rest + [periods[i]];
      }
    }
    assert periods[|outcomes|..|periods|] == periods[|outcomes|..];
  }

  /** The batch at this offset goes through: no failure, and its manifests can be attributed. */
  ghost predicate GoodBatch(periods: seq<string>, workers: nat, env: seq<string> -> BatchRun, seriesId: string, offset: nat)
    requires workers > 0 && offset < |periods| && AllPlausible(env)
  {
    var b := BatchAt(periods, offset, workers);
    !BatchFails(env(b)) && BatchAttributable(b, env(b), seriesId)
  }

  /** A batch is executed when every batch before it went through. */
  ghost predicate Executed(periods: seq<string>, workers: nat, env: seq<string> -> BatchRun, seriesId: string, offset: nat)
    requires workers > 0 && AllPlausible(env)
  {
    && offset % workers == 0 && offset < |periods|
    && forall o :: 0 <= o < offset && o % workers == 0 ==> GoodBatch(periods, workers, env, seriesId, o)
  }

  /** An executed batch whose manifests cannot be attributed. */
  ghost predicate Unattributed(periods: seq<string>, workers: nat, env: seq<string> -> BatchRun, seriesId: string, offset: nat)
    requires workers > 0 && AllPlausible(env)
  {
    && Executed(periods, workers, env, seriesId, offset)
    && var b := BatchAt(periods, offset, workers); !BatchAttributable(b, env(b), seriesId)
  }

  ghost predicate SomeUnattributed(periods: seq<string>, workers: nat, env: seq<string> -> BatchRun, seriesId: string)
    requires workers > 0 && AllPlausible(env)
  {
    exists offset: nat :: Unattributed(periods, workers, env, seriesId, offset)
  }

  lemma ExecutedNext(periods: seq<string>, workers: nat, env: seq<string> -> BatchRun, seriesId: string, offset: nat)
    requires workers > 0 && AllPlausible(env)
    requires Executed(periods, workers, env, seriesId, offset) && GoodBatch(periods, workers, env, seriesId, offset)
    ensures offset + workers < |periods| ==> Executed(periods, workers, env, seriesId, offset + workers)
  {
    hide GoodBatch, AllPlausible;
    NextMultiple(offset, workers);
    forall o | 0 <= o < offset + workers && o < |periods| && o % workers == 0
      ensures GoodBatch(periods, workers, env, seriesId, o)
    {
      if o > offset {
        MultipleGap(offset, o, workers);
        assert false;
      }
    }
  }

  /** Every executed batch can be attributed once the last one that was executed is. */
  lemma LastExecuted(periods: seq<string>, workers: nat, env: seq<string> -> BatchRun, seriesId: string, offset: nat)
    requires workers > 0 && AllPlausible(env) && Executed(periods, workers, env, seriesId, offset)
    requires var b := BatchAt(periods, offset, workers); BatchAttributable(b, env(b), seriesId)
    requires offset + workers >= |periods| || BatchFails(env(BatchAt(periods, offset, workers)))
    ensures !SomeUnattributed(periods, workers, env, seriesId)
  {
    hide AllPlausible, BatchFails, BatchAttributable, BatchAt;
    forall o: nat | Executed(periods, workers, env, seriesId, o)
      ensures !Unattributed(periods, workers, env, seriesId, o)
    {
      if o < offset {
        assert GoodBatch(periods, workers, env, seriesId, o);
      } else if o > offset {
        MultipleGap(offset, o, workers);
        assert GoodBatch(periods, workers, env, seriesId, offset);
      }
    }
  }

  /** The run stopped in the batch at `lo`, at the first failure that was seen there. */
  ghost predicate StoppedIn(outcomes: seq<PeriodOutcome>, periods: seq<string>, workers: nat, env: seq<string> -> BatchRun, stopped: string, lo: nat)
    requires workers > 0
  {
    && LastBatch(outcomes, lo, workers) && lo < |periods|
    && var b := BatchAt(periods, lo, workers); FirstSeen(b, env(b), FirstSet(env(b).visible), stopped)
  }

  ghost predicate StoppedAtFirst(outcomes: seq<PeriodOutcome>, periods: seq<string>, workers: nat, env: seq<string> -> BatchRun, stopped: string)
    requires workers > 0
  {
    exists lo :: StoppedIn(outcomes, periods, workers, env, stopped, lo)
  }

  /** Everything a run past the rights gate establishes. */
  ghost predicate Finished(r: BackfillResult, workers: nat, env: seq<string> -> BatchRun, seriesId: string)
    requires workers > 0
  {
    && Followed(r.outcomes, r.periods) && r.notAttempted == r.periods[|r.outcomes|..]
    && r.counts == States(r.outcomes) && IsWorst(r.exitCode, r.outcomes) && !r.rightsDenied
    && (r.stoppedAt.None? ==> |r.outcomes| == |r.periods| && Succeeded(r.outcomes, |r.outcomes|))
    && (r.stoppedAt.Some? ==> SomeFailure(r.outcomes, r.stoppedAt.value) && Drained(r.outcomes, workers))
    && (r.stoppedAt.Some? ==> StoppedAtFirst(r.outcomes, r.periods, workers, env, r.stoppedAt.value))
    && Traced(r.outcomes, r.periods, workers, env, seriesId, |r.outcomes|)
  }

  /** Runs the batches until the slice is done or a failure was seen. */
  method RunBatches(periods: seq<string>, workers: nat, env: seq<string> -> BatchRun, seriesId: string)
    returns (r: Result<(seq<PeriodOutcome>, Option<string>), ManifestError>)
    requires workers > 0 && periods != [] && Distinct(periods) && AllPlausible(env)
    ensures r.Err? <==> SomeUnattributed(periods, workers, env, seriesId)
    ensures r.Ok? && r.value.1.Some? ==> StoppedAtFirst(r.value.0, periods, workers, env, r.value.1.value)
    ensures r.Ok? ==> var outcomes, stoppedAt := r.value.0, r.value.1;
      && Followed(outcomes, periods)
      && (stoppedAt.None? ==> |outcomes| == |periods| && Succeeded(outcomes, |outcomes|))
      && (stoppedAt.Some? ==> SomeFailure(outcomes, stoppedAt.value) && Drained(outcomes, workers))
      && Traced(outcomes, periods, workers, env, seriesId, |outcomes|)
  {
    hide Followed, Succeeded, Traced, BatchDone, Distinct, AllPlausible, Plausible, SomeFailure, BatchAt, BatchFails,
      BatchAttributable, Executed, SomeUnattributed, FirstSeen;
    FirstExecuted(periods, workers, env, seriesId);
    var outcomes: seq<PeriodOutcome> := [];
    var offset := 0;
    StartRun(periods, workers, env, seriesId);
    while offset < |periods|
      invariant offset % workers == 0 && (offset <= |periods| ==> |outcomes| == offset) && (offset > |periods| ==> |outcomes| == |periods|)
      invariant Followed(outcomes, periods) && Succeeded(outcomes, |outcomes|)
      invariant Traced(outcomes, periods, workers, env, seriesId, |outcomes|)
      invariant offset < |periods| ==> Executed(periods, workers, env, seriesId, offset)
      invariant offset >= |periods| ==> !SomeUnattributed(periods, workers, env, seriesId)
    {
      var selected := BatchAt(periods, offset, workers);
      DistinctBatch(periods, offset, workers);
      PlausibleAt(env, selected);
      var more, stoppedAt := Batch(selected, env(selected), seriesId);
      if more.Err? {
        UnattributedAt(periods, workers, env, seriesId, offset);
        return Err(more.error);
      }
      if stoppedAt.Some? || offset + workers >= |periods| {
        LastExecuted(periods, workers, env, seriesId, offset);
      } else {
        ExecutedNext(periods, workers, env, seriesId, offset);
      }
      FollowMore(outcomes, more.value, periods, workers, env(selected), seriesId, stoppedAt);
      TraceMore(outcomes, more.value, periods, workers, env, seriesId, stoppedAt);
      BatchLength(periods, offset, workers);
      NonEmptyBatch(more.value, selected, env(selected), seriesId, stoppedAt);
      outcomes := outcomes + more.value;
      if stoppedAt.Some? {
        assert LastBatch(outcomes, offset, workers);
        assert StoppedIn(outcomes, periods, workers, env, stoppedAt.value, offset);
        return Ok((outcomes, stoppedAt));
      }
      NextMultiple(offset, workers);
      offset := offset + workers;
    }
    r := Ok((outcomes, None));
  }

  lemma FirstExecuted(periods: seq<string>, workers: nat, env: seq<string> -> BatchRun, seriesId: string)
    requires workers > 0 && periods != [] && AllPlausible(env)
    ensures Executed(periods, workers, env, seriesId, 0)
  {
    hide GoodBatch, AllPlausible;
  }

  lemma UnattributedAt(periods: seq<string>, workers: nat, env: seq<string> -> BatchRun, seriesId: string, offset: nat)
    requires workers > 0 && AllPlausible(env) && Executed(periods, workers, env, seriesId, offset)
    requires var b := BatchAt(periods, offset, workers); !BatchAttributable(b, env(b), seriesId)
    ensures SomeUnattributed(periods, workers, env, seriesId)
  {
    hide Executed, AllPlausible, BatchAttributable, BatchAt;
    assert Unattributed(periods, workers, env, seriesId, offset);
  }

  lemma StartRun(periods: seq<string>, workers: nat, env: seq<string> -> BatchRun, seriesId: string)
    requires workers > 0
    ensures Followed([], periods) && Succeeded([], 0) && Traced([], periods, workers, env, seriesId, 0)
    ensures 0 % workers == 0
  {
  }

  lemma PlausibleAt(env: seq<string> -> BatchRun, selected: seq<string>)
    requires AllPlausible(env) && selected != []
    ensures Plausible(env(selected), |selected|)
  {
    hide Plausible;
  }

  lemma BatchLength(periods: seq<string>, offset: nat, workers: nat)
    requires offset < |periods| && workers > 0
    ensures |BatchAt(periods, offset, workers)| == if offset + workers <= |periods| then workers else |periods| - offset
  {
  }

  lemma NonEmptyBatch(more: seq<PeriodOutcome>, selected: seq<string>, run: BatchRun, seriesId: string, stoppedAt: Option<string>)
    requires BatchDone(more, selected, run, seriesId, stoppedAt)
    ensures more != []
  {
    hide ReportedBySome, Calls;
  }

  /**
   The whole backfill.  Past the rights gate the outcomes follow the selected slice without a gap, the
   rest is listed as not attempted, no batch starts after a failure, and every outcome has its own new
   manifest.
   */
  method RunSeriesBackfill(inventory: seq<string>, start: Option<string>, end: Option<string>, workers: int, denied: bool,
                           seriesId: string, env: seq<string> -> BatchRun)
    returns (r: Result<BackfillResult, BackfillError>)
    requires Distinct(inventory) && AllPlausible(env)
    ensures r == Err(BadWorkers) <==> !(1 <= workers <= 4)
    ensures r == Err(BadRange(EmptyInventory)) <==> 1 <= workers <= 4 && inventory == []
    ensures r == Err(BadRange(UnknownEndpoint)) <==>
      1 <= workers <= 4 && inventory != [] && !(KnownEnd(inventory, start) && KnownEnd(inventory, end))
    ensures r == Err(BadRange(StartAfterEnd)) <==> 1 <= workers <= 4 && Reversed(inventory, start, end)
    ensures r.Err? && r.error.BadManifests? <==>
      1 <= workers <= 4 && !denied && exists periods ::
        SliceOf(periods, inventory, start, end) && SomeUnattributed(periods, workers, env, seriesId)
    ensures r.Ok? ==> Selected(r.value.periods, inventory, start, end)
    ensures r.Ok? && denied ==> r.value == BackfillResult(r.value.periods, [], multiset{}, None, r.value.periods, 2, true)
    ensures r.Ok? && !denied ==> 1 <= workers && Finished(r.value, workers, env, seriesId)
  {
    hide Distinct, AllPlausible, Followed, Succeeded, Traced, SomeFailure, Drained, IsWorst, SliceOf, Selected, SomeUnattributed, StoppedAtFirst;
    if !(1 <= workers <= 4) {
      return Err(BadWorkers);
    }
    var selected := Select(inventory, start, end);
    if selected.Err? {
      return Err(BadRange(selected.error));
    }
    var periods := selected.value;
    if denied {
      return Ok(BackfillResult(periods, [], multiset{}, None, periods, 2, true));
    }
    DistinctSlice(periods, inventory, start, end);
    forall other | SliceOf(other, inventory, start, end)
      ensures other == periods
    {
      OneSlice(other, periods, inventory, start, end);
    }
    var run := RunBatches(periods, workers, env, seriesId);
    if run.Err? {
      return Err(BadManifests(run.error));
    }
    var outcomes, stoppedAt := run.value.0, run.value.1;
    var counts := CountStates(outcomes);
    var rest := NotAttempted(periods, outcomes);
    var code := Worst(outcomes);
    r := Ok(BackfillResult(periods, outcomes, counts, stoppedAt, rest, code, false));
  }

  lemma DistinctSlice(slice: seq<string>, inventory: seq<string>, start: Option<string>, end: Option<string>)
    requires Distinct(inventory) && SliceOf(slice, inventory, start, end)
    ensures Distinct(slice) && slice != []
  {
    hide Distinct;
    var first: nat, last: nat :| SliceBetween(slice, inventory, start, end, first, last);
    SliceDistinct(inventory, first, last);
  }

  lemma SliceDistinct(inventory: seq<string>, first: nat, last: nat)
    requires Distinct(inventory) && first <= last < |inventory|
    ensures Distinct(inventory[first..last + 1])
  {
  }
}
