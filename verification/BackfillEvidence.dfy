/**
 Attribution of attempt manifests to backfill invocations: every new manifest belongs to exactly one
 period, or the batch is refused.
 */
module BackfillEvidence {
  import opened Wrappers

  datatype TerminalState = Published | VerifiedNoOp | Blocked | FailedState | UnknownState

  /** A new file in the attempt directory: not a readable record, or the fields that are looked at. */
  datatype Manifest =
    | Unreadable
    | Record(schemaKnown: bool, seriesId: string, nameMatches: bool, attemptId: string,
             state: TerminalState, exitCode: int, selected: Option<string>)

  /** One finished invocation: its period and the code it returned. */
  datatype Invocation = Invocation(period: string, code: int)

  datatype PeriodOutcome = PeriodOutcome(period: string, exitCode: int, state: TerminalState, attemptId: string, selected: Option<string>)

  datatype ManifestError =
    | CountMismatch | InvalidManifest | InconsistentManifest | SuccessWithoutPeriod
    | AttributionNotUnique | AmbiguousSelection | MissingManifest | ExitDiffers

  function TerminalCode(state: TerminalState): int {
    match state
    case Published => 0
    case VerifiedNoOp => 0
    case Blocked => 2
    case FailedState => 3
    case UnknownState => -1
  }

  predicate ConsistentRecord(m: Manifest, seriesId: string)
    requires m.Record?
  {
    m.schemaKnown && m.seriesId == seriesId && m.nameMatches && m.exitCode == TerminalCode(m.state)
  }

  /** A usable record of a run of this series. */
  predicate Usable(m: Manifest, seriesId: string) {
    m.Record? && !m.state.UnknownState? && ConsistentRecord(m, seriesId)
  }

  predicate Failing(code: int) {
    code == 2 || code == 3
  }

  ghost predicate DistinctPeriods(calls: seq<Invocation>) {
    forall i, j :: 0 <= i < j < |calls| ==> calls[i].period != calls[j].period
  }

  // ---------- what a correct attribution is ----------

  /** Manifest j may be the evidence of invocation i. */
  ghost predicate Fits(m: Manifest, call: Invocation, seriesId: string) {
    && Usable(m, seriesId) && m.exitCode == call.code
    && (m.selected.Some? ==> m.selected.value == call.period)
    && (m.selected.None? ==> m.state.Blocked? || m.state.FailedState?)
  }

  /** What makes a manifest evidence of an invocation, field by field. */
  lemma FitsExactlyWhen(m: Manifest, call: Invocation, seriesId: string)
    ensures Fits(m, call, seriesId) <==>
      && m.Record? && m.schemaKnown && m.nameMatches && m.seriesId == seriesId && m.exitCode == call.code
      && (match m.state
          case Published => call.code == 0
          case VerifiedNoOp => call.code == 0
          case Blocked => call.code == 2
          case FailedState => call.code == 3
          case UnknownState => false)
      && (if m.selected.Some? then m.selected.value == call.period else call.code == 2 || call.code == 3)
  {
  }

  /** owner[j] is the invocation that wrote manifest j; at most one manifest names no period. */
  ghost predicate Attribution(owner: seq<nat>, manifests: seq<Manifest>, calls: seq<Invocation>, seriesId: string) {
    && |owner| == |manifests| == |calls|
    && (forall j :: 0 <= j < |owner| ==> owner[j] < |calls| && Fits(manifests[j], calls[owner[j]], seriesId))
    && (forall i, j :: 0 <= i < j < |owner| ==> owner[i] != owner[j])
    && (forall i, j :: 0 <= i < j < |manifests| ==> !(NoPeriod(manifests[i]) && NoPeriod(manifests[j])))
  }

  predicate NoPeriod(m: Manifest) {
    m.Record? && m.selected.None?
  }

  ghost predicate Attributable(manifests: seq<Manifest>, calls: seq<Invocation>, seriesId: string) {
    exists owner :: Attribution(owner, manifests, calls, seriesId)
  }

  /** The outcomes list the invocations in order, each with its own manifest's fields. */
  ghost predicate Reported(outcomes: seq<PeriodOutcome>, owner: seq<nat>, manifests: seq<Manifest>, calls: seq<Invocation>)
  {
    && |outcomes| == |calls| == |owner| == |manifests|
    && forall j :: 0 <= j < |owner| ==> owner[j] < |calls| && OutcomeOf(outcomes[owner[j]], calls[owner[j]], manifests[j])
  }

  predicate OutcomeOf(o: PeriodOutcome, call: Invocation, m: Manifest) {
    m.Record? && o == PeriodOutcome(call.period, call.code, m.state, m.attemptId, m.selected)
  }

  // ---------- attribution, step by step ----------

  /** Position of a period among the invocations, or their number. */
  function PositionOf(calls: seq<Invocation>, period: string): (i: nat)
    ensures i <= |calls| && (i < |calls| ==> calls[i].period == period)
    ensures i == |calls| ==> forall k :: 0 <= k < |calls| ==> calls[k].period != period
  {
    if calls == [] || calls[0].period == period then 0 else 1 + PositionOf(calls[1..], period)
  }

  ghost predicate AllUsable(manifests: seq<Manifest>, seriesId: string, n: nat) {
    n <= |manifests| && forall j :: 0 <= j < n ==> Usable(manifests[j], seriesId)
  }

  predicate Selects(m: Manifest, period: string) {
    m.Record? && m.selected == Some(period)
  }

  /** An entry of the dictionary points to an earlier manifest that names its period. */
  ghost predicate Entry(byPeriod: map<string, nat>, manifests: seq<Manifest>, calls: seq<Invocation>, n: nat, p: string)
    requires p in byPeriod
  {
    byPeriod[p] < n <= |manifests| && Selects(manifests[byPeriod[p]], p) && PositionOf(calls, p) < |calls|
  }

  /** Manifest j is in the dictionary under the period it names, or waits among the unselected. */
  ghost predicate Filed(byPeriod: map<string, nat>, unselected: seq<nat>, m: Manifest, j: nat)
    requires m.Record?
  {
    match m.selected
    case Some(p) => p in byPeriod && byPeriod[p] == j
    case None => j in unselected
  }

  ghost predicate Waiting(unselected: seq<nat>, manifests: seq<Manifest>, n: nat) {
    && n <= |manifests|
    && (forall k :: 0 <= k < |unselected| ==> unselected[k] < n && Denied(manifests[unselected[k]]))
    && (forall k, l :: 0 <= k < l < |unselected| ==> unselected[k] < unselected[l])
  }

  predicate Denied(m: Manifest) {
    NoPeriod(m) && (m.state.Blocked? || m.state.FailedState?)
  }

  /** The first n manifests are usable and filed. */
  ghost predicate Recorded(byPeriod: map<string, nat>, unselected: seq<nat>, manifests: seq<Manifest>, calls: seq<Invocation>,
                           seriesId: string, n: nat) {
    && AllUsable(manifests, seriesId, n) && Waiting(unselected, manifests, n)
    && (forall p :: p in byPeriod ==> Entry(byPeriod, manifests, calls, n, p))
    && (forall j :: 0 <= j < n ==> manifests[j].Record? && Filed(byPeriod, unselected, manifests[j], j))
  }

  /** Reads the new manifests in name order. */
  method ReadManifests(manifests: seq<Manifest>, calls: seq<Invocation>, seriesId: string)
    returns (r: Result<(map<string, nat>, seq<nat>), ManifestError>)
    requires DistinctPeriods(calls)
    ensures r.Ok? ==> Recorded(r.value.0, r.value.1, manifests, calls, seriesId, |manifests|)
    ensures r.Err? ==> !Attributable(manifests, calls, seriesId)
  {
    hide Recorded, Attributable, DistinctPeriods;
    var byPeriod: map<string, nat> := map[];
    var unselected: seq<nat> := [];
    NothingRecorded(manifests, calls, seriesId);
    for j := 0 to |manifests|
      invariant Recorded(byPeriod, unselected, manifests, calls, seriesId, j)
    {
      var m := manifests[j];
      if m.Unreadable? || m.state.UnknownState? {
        UnusableRefused(manifests, calls, seriesId, j);
        return Err(InvalidManifest);
      }
      if !ConsistentRecord(m, seriesId) {
        UnusableRefused(manifests, calls, seriesId, j);
        return Err(InconsistentManifest);
      }
      if m.selected.None? {
        if !(m.state.Blocked? || m.state.FailedState?) {
          SuccessRefused(manifests, calls, seriesId, j);
          return Err(SuccessWithoutPeriod);
        }
        RecordUnselected(byPeriod, unselected, manifests, calls, seriesId, j);
        unselected := unselected + [j];
      } else {
        var p := m.selected.value;
        if PositionOf(calls, p) == |calls| {
          UnknownRefused(manifests, calls, seriesId, j, p);
          return Err(AttributionNotUnique);
        }
        if p in byPeriod {
          RecordedEntry(byPeriod, unselected, manifests, calls, seriesId, j, p);
          RepeatRefused(manifests, calls, seriesId, byPeriod[p], j, p);
          return Err(AttributionNotUnique);
        }
        RecordSelected(byPeriod, unselected, manifests, calls, seriesId, j, p);
        byPeriod := byPeriod[p := j];
      }
    }
    r := Ok((byPeriod, unselected));
  }

  lemma NothingRecorded(manifests: seq<Manifest>, calls: seq<Invocation>, seriesId: string)
    ensures Recorded(map[], [], manifests, calls, seriesId, 0)
  {
  }

  lemma RecordedEntry(byPeriod: map<string, nat>, unselected: seq<nat>, manifests: seq<Manifest>, calls: seq<Invocation>,
                      seriesId: string, n: nat, p: string)
    requires Recorded(byPeriod, unselected, manifests, calls, seriesId, n) && p in byPeriod
    ensures Entry(byPeriod, manifests, calls, n, p)
  {
    hide Entry;
  }

  lemma FitsAt(owner: seq<nat>, manifests: seq<Manifest>, calls: seq<Invocation>, seriesId: string, j: nat)
    requires Attribution(owner, manifests, calls, seriesId) && j < |manifests|
    ensures j < |owner| && owner[j] < |calls| && Fits(manifests[j], calls[owner[j]], seriesId)
  {
    hide Fits;
  }

  lemma UnusableRefused(manifests: seq<Manifest>, calls: seq<Invocation>, seriesId: string, j: nat)
    requires j < |manifests| && !Usable(manifests[j], seriesId)
    ensures !Attributable(manifests, calls, seriesId)
  {
    hide Usable, Attribution;
    if Attributable(manifests, calls, seriesId) {
      var owner :| Attribution(owner, manifests, calls, seriesId);
      FitsAt(owner, manifests, calls, seriesId, j);
    }
  }

  lemma SuccessRefused(manifests: seq<Manifest>, calls: seq<Invocation>, seriesId: string, j: nat)
    requires j < |manifests| && NoPeriod(manifests[j]) && !(manifests[j].state.Blocked? || manifests[j].state.FailedState?)
    ensures !Attributable(manifests, calls, seriesId)
  {
    hide Usable, Attribution;
    if Attributable(manifests, calls, seriesId) {
      var owner :| Attribution(owner, manifests, calls, seriesId);
      FitsAt(owner, manifests, calls, seriesId, j);
    }
  }

  lemma UnknownRefused(manifests: seq<Manifest>, calls: seq<Invocation>, seriesId: string, j: nat, p: string)
    requires j < |manifests| && Selects(manifests[j], p) && PositionOf(calls, p) == |calls|
    ensures !Attributable(manifests, calls, seriesId)
  {
    hide Usable, Attribution;
    if Attributable(manifests, calls, seriesId) {
      var owner :| Attribution(owner, manifests, calls, seriesId);
      FitsAt(owner, manifests, calls, seriesId, j);
    }
  }

  /** Under a correct attribution no two manifests name the same period. */
  lemma NamedOnce(owner: seq<nat>, manifests: seq<Manifest>, calls: seq<Invocation>, seriesId: string, i: nat, j: nat, p: string)
    requires DistinctPeriods(calls) && Attribution(owner, manifests, calls, seriesId)
    requires i < |manifests| && j < |manifests| && Selects(manifests[i], p) && Selects(manifests[j], p)
    ensures i == j
  {
    hide Usable;
    FitsAt(owner, manifests, calls, seriesId, i);
    FitsAt(owner, manifests, calls, seriesId, j);
    assert calls[owner[i]].period == p == calls[owner[j]].period;
    assert owner[i] == owner[j];
  }

  lemma RepeatRefused(manifests: seq<Manifest>, calls: seq<Invocation>, seriesId: string, i: nat, j: nat, p: string)
    requires DistinctPeriods(calls) && i < j < |manifests| && Selects(manifests[i], p) && Selects(manifests[j], p)
    ensures !Attributable(manifests, calls, seriesId)
  {
    hide Attribution, DistinctPeriods;
    if Attributable(manifests, calls, seriesId) {
      var owner :| Attribution(owner, manifests, calls, seriesId);
      NamedOnce(owner, manifests, calls, seriesId, i, j, p);
    }
  }

  lemma RecordUnselected(byPeriod: map<string, nat>, unselected: seq<nat>, manifests: seq<Manifest>, calls: seq<Invocation>,
                         seriesId: string, j: nat)
    requires j < |manifests| && Recorded(byPeriod, unselected, manifests, calls, seriesId, j) && Usable(manifests[j], seriesId)
    requires Denied(manifests[j])
    ensures Recorded(byPeriod, unselected + [j], manifests, calls, seriesId, j + 1)
  {
    hide Usable, PositionOf, Denied, Selects;
    assert NoPeriod(manifests[j]) by { DeniedShape(manifests[j]); }
  }

  lemma DeniedShape(m: Manifest)
    requires Denied(m)
    ensures NoPeriod(m)
  {
  }

  lemma RecordSelected(byPeriod: map<string, nat>, unselected: seq<nat>, manifests: seq<Manifest>, calls: seq<Invocation>,
                       seriesId: string, j: nat, p: string)
    requires j < |manifests| && Recorded(byPeriod, unselected, manifests, calls, seriesId, j) && Usable(manifests[j], seriesId)
    requires Selects(manifests[j], p) && p !in byPeriod && PositionOf(calls, p) < |calls|
    ensures Recorded(byPeriod[p := j], unselected, manifests, calls, seriesId, j + 1)
  {
    hide Usable, PositionOf, Denied;
    var more := byPeriod[p := j];
    forall q | q in more
      ensures Entry(more, manifests, calls, j + 1, q)
    {
      if q != p {
        assert Entry(byPeriod, manifests, calls, j, q);
      }
    }
    forall i | 0 <= i < j + 1
      ensures manifests[i].Record? && Filed(more, unselected, manifests[i], i)
    {
      if i < j {
        assert Filed(byPeriod, unselected, manifests[i], i);
      }
    }
  }
}
