/** The whole attribution step: it succeeds exactly when a one-to-one attribution exists, and then reports it. */
module BackfillAttribution {
  import opened Wrappers
  import opened BackfillEvidence
  import opened FiniteSets

  /** Positions of the invocations that no manifest names. */
  ghost predicate IsMissing(missing: seq<nat>, byPeriod: map<string, nat>, calls: seq<Invocation>, n: nat) {
    && n <= |calls|
    && (forall k :: 0 <= k < |missing| ==> missing[k] < n && calls[missing[k]].period !in byPeriod)
    && (forall k, l :: 0 <= k < l < |missing| ==> missing[k] < missing[l])
    && (forall c :: 0 <= c < n && calls[c].period !in byPeriod ==> c in missing)
  }

  method FindMissing(byPeriod: map<string, nat>, calls: seq<Invocation>) returns (missing: seq<nat>)
    ensures IsMissing(missing, byPeriod, calls, |calls|)
  {
    missing := [];
    for c := 0 to |calls|
      invariant IsMissing(missing, byPeriod, calls, c)
    {
      if calls[c].period !in byPeriod {
        missing := missing + [c];
      }
    }
  }

  // ---------- what a correct attribution forces ----------

  /** All manifests have been read. */
  ghost predicate Read(byPeriod: map<string, nat>, unselected: seq<nat>, manifests: seq<Manifest>, calls: seq<Invocation>, seriesId: string) {
    Recorded(byPeriod, unselected, manifests, calls, seriesId, |manifests|)
  }

  lemma ReadAt(byPeriod: map<string, nat>, unselected: seq<nat>, manifests: seq<Manifest>, calls: seq<Invocation>, seriesId: string, j: nat)
    requires Read(byPeriod, unselected, manifests, calls, seriesId) && j < |manifests|
    ensures manifests[j].Record? && Usable(manifests[j], seriesId) && Filed(byPeriod, unselected, manifests[j], j)
  {
    hide Usable, Filed, Entry;
  }

  lemma WaitingAt(byPeriod: map<string, nat>, unselected: seq<nat>, manifests: seq<Manifest>, calls: seq<Invocation>, seriesId: string, k: nat)
    requires Read(byPeriod, unselected, manifests, calls, seriesId) && k < |unselected|
    ensures unselected[k] < |manifests| && Denied(manifests[unselected[k]])
  {
    hide Usable, Filed, Entry, Denied;
  }

  lemma OwnerOnto(owner: seq<nat>, manifests: seq<Manifest>, calls: seq<Invocation>, seriesId: string, c: nat) returns (j: nat)
    requires Attribution(owner, manifests, calls, seriesId) && c < |calls|
    ensures j < |owner| == |manifests| && owner[j] == c
  {
    hide Fits;
    j := Onto(owner, c);
  }

  /** An invocation nobody names is the owner of a manifest that names nobody. */
  lemma MissingIsUnselected(owner: seq<nat>, byPeriod: map<string, nat>, unselected: seq<nat>, manifests: seq<Manifest>,
                            calls: seq<Invocation>, seriesId: string, c: nat) returns (j: nat)
    requires Attribution(owner, manifests, calls, seriesId) && Read(byPeriod, unselected, manifests, calls, seriesId)
    requires c < |calls| && calls[c].period !in byPeriod
    ensures j in unselected && j < |owner| && owner[j] == c
  {
    hide Attribution, Read, Usable;
    j := OwnerOnto(owner, manifests, calls, seriesId, c);
    FitsAt(owner, manifests, calls, seriesId, j);
    ReadAt(byPeriod, unselected, manifests, calls, seriesId, j);
  }

  /** The owner of a manifest that names nobody is an invocation nobody names. */
  lemma UnselectedIsMissing(owner: seq<nat>, byPeriod: map<string, nat>, unselected: seq<nat>, manifests: seq<Manifest>,
                            calls: seq<Invocation>, seriesId: string, u: nat)
    requires DistinctPeriods(calls)
    requires Attribution(owner, manifests, calls, seriesId) && Read(byPeriod, unselected, manifests, calls, seriesId)
    requires u < |owner| && u < |manifests| && NoPeriod(manifests[u]) && owner[u] < |calls|
    ensures calls[owner[u]].period !in byPeriod
  {
    hide Usable, PositionOf;
    var p := calls[owner[u]].period;
    if p in byPeriod {
      RecordedEntry(byPeriod, unselected, manifests, calls, seriesId, |manifests|, p);
      EntryOwner(owner, manifests, calls, seriesId, byPeriod[p], owner[u], p);
    }
  }

  lemma EntryOwner(owner: seq<nat>, manifests: seq<Manifest>, calls: seq<Invocation>, seriesId: string, i: nat, c: nat, p: string)
    requires DistinctPeriods(calls) && Attribution(owner, manifests, calls, seriesId)
    requires i < |manifests| && Selects(manifests[i], p) && c < |calls| && calls[c].period == p
    ensures i < |owner| && owner[i] == c
  {
    hide Usable;
    FitsAt(owner, manifests, calls, seriesId, i);
    assert calls[owner[i]].period == calls[c].period;
  }

  /** Two manifests without a period leave no correct attribution. */
  lemma TwoUnselectedRefused(byPeriod: map<string, nat>, unselected: seq<nat>, manifests: seq<Manifest>, calls: seq<Invocation>, seriesId: string)
    requires Read(byPeriod, unselected, manifests, calls, seriesId) && |unselected| >= 2
    ensures !Attributable(manifests, calls, seriesId)
  {
    hide Attribution;
    var a, b := unselected[0], unselected[1];
    assert a < b < |manifests| && NoPeriod(manifests[a]) && NoPeriod(manifests[b]);
    if Attributable(manifests, calls, seriesId) {
      var owner :| Attribution(owner, manifests, calls, seriesId);
      AtMostOneUnnamed(owner, manifests, calls, seriesId, a, b);
    }
  }

  lemma AtMostOneUnnamed(owner: seq<nat>, manifests: seq<Manifest>, calls: seq<Invocation>, seriesId: string, a: nat, b: nat)
    requires Attribution(owner, manifests, calls, seriesId) && a < b < |manifests|
    ensures !(NoPeriod(manifests[a]) && NoPeriod(manifests[b]))
  {
    hide Fits;
  }

  /** One manifest without a period goes with exactly one missing invocation. */
  lemma OneMissing(owner: seq<nat>, byPeriod: map<string, nat>, unselected: seq<nat>, missing: seq<nat>, manifests: seq<Manifest>,
                   calls: seq<Invocation>, seriesId: string)
    requires DistinctPeriods(calls) && Attribution(owner, manifests, calls, seriesId)
    requires Read(byPeriod, unselected, manifests, calls, seriesId) && IsMissing(missing, byPeriod, calls, |calls|)
    requires |unselected| == 1
    ensures |missing| == 1 && unselected[0] < |owner| && owner[unselected[0]] == missing[0]
  {
    hide Attribution, Read, DistinctPeriods, Usable;
    var u := unselected[0];
    WaitingAt(byPeriod, unselected, manifests, calls, seriesId, 0);
    FitsAt(owner, manifests, calls, seriesId, u);
    UnselectedIsMissing(owner, byPeriod, unselected, manifests, calls, seriesId, u);
    assert owner[u] in missing;
    assert |missing| >= 2 ==> missing[0] < missing[1];
    forall k | 0 <= k < |missing|
      ensures missing[k] == owner[u]
    {
      var j := MissingIsUnselected(owner, byPeriod, unselected, manifests, calls, seriesId, missing[k]);
    }
  }

  lemma AmbiguousRefused(byPeriod: map<string, nat>, unselected: seq<nat>, missing: seq<nat>, manifests: seq<Manifest>,
                         calls: seq<Invocation>, seriesId: string)
    requires DistinctPeriods(calls) && Read(byPeriod, unselected, manifests, calls, seriesId)
    requires IsMissing(missing, byPeriod, calls, |calls|) && |unselected| == 1 && |missing| != 1
    ensures !Attributable(manifests, calls, seriesId)
  {
    hide Attribution, Read, DistinctPeriods, IsMissing;
    if Attributable(manifests, calls, seriesId) {
      var owner :| Attribution(owner, manifests, calls, seriesId);
      OneMissing(owner, byPeriod, unselected, missing, manifests, calls, seriesId);
    }
  }

  lemma MissingRefused(byPeriod: map<string, nat>, manifests: seq<Manifest>, calls: seq<Invocation>, seriesId: string, c: nat)
    requires DistinctPeriods(calls) && Read(byPeriod, [], manifests, calls, seriesId)
    requires c < |calls| && calls[c].period !in byPeriod
    ensures !Attributable(manifests, calls, seriesId)
  {
    hide Attribution, Read, DistinctPeriods;
    if Attributable(manifests, calls, seriesId) {
      var owner :| Attribution(owner, manifests, calls, seriesId);
      var j := MissingIsUnselected(owner, byPeriod, [], manifests, calls, seriesId, c);
    }
  }

  // ---------- placing every manifest ----------

  /** Every manifest is the evidence placed under one invocation's period. */
  ghost predicate Placed(placed: map<string, nat>, manifests: seq<Manifest>, calls: seq<Invocation>, owner: seq<nat>) {
    && |owner| == |manifests| == |calls|
    && forall j :: 0 <= j < |owner| ==> PlacedAt(placed, calls, owner[j], j)
  }

  ghost predicate PlacedAt(placed: map<string, nat>, calls: seq<Invocation>, c: nat, j: nat) {
    c < |calls| && calls[c].period in placed && placed[calls[c].period] == j
  }

  /** Manifest j belongs to invocation c: it names its period, or is the one left over. */
  ghost predicate Belongs(m: Manifest, call: Invocation) {
    Selects(m, call.period) || Denied(m)
  }

  ghost function OwnerOf(manifests: seq<Manifest>, calls: seq<Invocation>, spare: nat): (owner: seq<nat>)
    ensures |owner| == |manifests|
  {
    seq(|manifests|, j requires 0 <= j < |manifests| =>
      if manifests[j].Record? && manifests[j].selected.Some? then PositionOf(calls, manifests[j].selected.value) else spare)
  }

  /** The invocation under which the dictionary places manifest j. */
  lemma PlaceOne(byPeriod: map<string, nat>, placed: map<string, nat>, unselected: seq<nat>, manifests: seq<Manifest>,
                 calls: seq<Invocation>, seriesId: string, spare: nat, j: nat)
    requires DistinctPeriods(calls) && Read(byPeriod, unselected, manifests, calls, seriesId) && j < |manifests|
    requires forall p :: p in byPeriod ==> p in placed && placed[p] == byPeriod[p]
    requires |unselected| <= 1
    requires unselected != [] ==> spare < |calls| && calls[spare].period in placed && placed[calls[spare].period] == unselected[0]
    ensures var c := OwnerOf(manifests, calls, spare)[j];
      PlacedAt(placed, calls, c, j) && Belongs(manifests[j], calls[c])
  {
    hide Usable, Read;
    ReadAt(byPeriod, unselected, manifests, calls, seriesId, j);
    var m := manifests[j];
    if m.selected.Some? {
      HasPosition(byPeriod, unselected, manifests, calls, seriesId, m.selected.value);
    } else {
      assert unselected == [j];
      WaitingAt(byPeriod, unselected, manifests, calls, seriesId, 0);
    }
  }

  lemma HasPosition(byPeriod: map<string, nat>, unselected: seq<nat>, manifests: seq<Manifest>, calls: seq<Invocation>, seriesId: string, p: string)
    requires Read(byPeriod, unselected, manifests, calls, seriesId) && p in byPeriod
    ensures PositionOf(calls, p) < |calls|
  {
    hide Usable, PositionOf;
    RecordedEntry(byPeriod, unselected, manifests, calls, seriesId, |manifests|, p);
  }

  ghost predicate AllBelong(owner: seq<nat>, manifests: seq<Manifest>, calls: seq<Invocation>) {
    |owner| == |manifests| && forall j :: 0 <= j < |owner| ==> owner[j] < |calls| && Belongs(manifests[j], calls[owner[j]])
  }

  lemma PlaceAll(byPeriod: map<string, nat>, placed: map<string, nat>, unselected: seq<nat>, manifests: seq<Manifest>,
                 calls: seq<Invocation>, seriesId: string, spare: nat)
    requires DistinctPeriods(calls) && Read(byPeriod, unselected, manifests, calls, seriesId) && |manifests| == |calls|
    requires forall p :: p in byPeriod ==> p in placed && placed[p] == byPeriod[p]
    requires |unselected| <= 1
    requires unselected != [] ==> spare < |calls| && calls[spare].period in placed && placed[calls[spare].period] == unselected[0]
    ensures Placed(placed, manifests, calls, OwnerOf(manifests, calls, spare))
    ensures AllBelong(OwnerOf(manifests, calls, spare), manifests, calls)
  {
    hide Read, DistinctPeriods, PlacedAt, Belongs, OwnerOf;
    var owner := OwnerOf(manifests, calls, spare);
    forall j | 0 <= j < |owner|
      ensures PlacedAt(placed, calls, owner[j], j) && owner[j] < |calls| && Belongs(manifests[j], calls[owner[j]])
    {
      PlaceOne(byPeriod, placed, unselected, manifests, calls, seriesId, spare, j);
      assert PlacedAt(placed, calls, owner[j], j);
      PlacedInRange(placed, calls, owner[j], j);
    }
  }

  lemma PlacedInRange(placed: map<string, nat>, calls: seq<Invocation>, c: nat, j: nat)
    requires PlacedAt(placed, calls, c, j)
    ensures c < |calls|
  {
  }

  /** A placement whose exit codes agree is a correct attribution. */
  lemma PlacedIsAttribution(placed: map<string, nat>, owner: seq<nat>, byPeriod: map<string, nat>, unselected: seq<nat>,
                            manifests: seq<Manifest>, calls: seq<Invocation>, seriesId: string)
    requires Placed(placed, manifests, calls, owner) && AllBelong(owner, manifests, calls)
    requires Read(byPeriod, unselected, manifests, calls, seriesId) && |unselected| <= 1
    requires forall j :: 0 <= j < |owner| ==> manifests[j].Record? && manifests[j].exitCode == calls[owner[j]].code
    ensures Attribution(owner, manifests, calls, seriesId)
  {
    hide Read, Usable, Placed;
    forall j | 0 <= j < |owner|
      ensures owner[j] < |calls| && Fits(manifests[j], calls[owner[j]], seriesId)
    {
      ReadAt(byPeriod, unselected, manifests, calls, seriesId, j);
      assert Belongs(manifests[j], calls[owner[j]]);
    }
    PlacedOnce(placed, owner, manifests, calls);
    forall i, j | 0 <= i < j < |manifests|
      ensures !(NoPeriod(manifests[i]) && NoPeriod(manifests[j]))
    {
      ReadAt(byPeriod, unselected, manifests, calls, seriesId, i);
      ReadAt(byPeriod, unselected, manifests, calls, seriesId, j);
    }
  }

  lemma PlacedOnce(placed: map<string, nat>, owner: seq<nat>, manifests: seq<Manifest>, calls: seq<Invocation>)
    requires Placed(placed, manifests, calls, owner)
    ensures |owner| == |manifests| == |calls|
    ensures forall i, j :: 0 <= i < j < |owner| ==> owner[i] != owner[j]
  {
    forall i, j | 0 <= i < j < |owner|
      ensures owner[i] != owner[j]
    {
      assert PlacedAt(placed, calls, owner[i], i) && PlacedAt(placed, calls, owner[j], j);
    }
  }

  /** A wrong exit code under a placed manifest rules every attribution out. */
  lemma ExitRefused(byPeriod: map<string, nat>, unselected: seq<nat>, missing: seq<nat>, manifests: seq<Manifest>,
                    calls: seq<Invocation>, seriesId: string, c: nat, j: nat)
    requires DistinctPeriods(calls) && Read(byPeriod, unselected, manifests, calls, seriesId)
    requires IsMissing(missing, byPeriod, calls, |calls|) && |unselected| <= 1
    requires c < |calls| && j < |manifests| && manifests[j].Record? && manifests[j].exitCode != calls[c].code
    requires Selects(manifests[j], calls[c].period) || (unselected == [j] && |missing| == 1 && missing[0] == c)
    ensures !Attributable(manifests, calls, seriesId)
  {
    hide Attribution, Read, DistinctPeriods, IsMissing, Usable;
    if Attributable(manifests, calls, seriesId) {
      var owner :| Attribution(owner, manifests, calls, seriesId);
      OwnerIs(owner, byPeriod, unselected, missing, manifests, calls, seriesId, c, j);
      FitsAt(owner, manifests, calls, seriesId, j);
    }
  }

  lemma OwnerIs(owner: seq<nat>, byPeriod: map<string, nat>, unselected: seq<nat>, missing: seq<nat>, manifests: seq<Manifest>,
                calls: seq<Invocation>, seriesId: string, c: nat, j: nat)
    requires DistinctPeriods(calls) && Read(byPeriod, unselected, manifests, calls, seriesId)
    requires Attribution(owner, manifests, calls, seriesId)
    requires IsMissing(missing, byPeriod, calls, |calls|) && c < |calls| && j < |manifests|
    requires Selects(manifests[j], calls[c].period) || (unselected == [j] && |missing| == 1 && missing[0] == c)
    ensures j < |owner| && owner[j] == c
  {
    hide Attribution, Read, DistinctPeriods, IsMissing, Usable, Selects;
    if Selects(manifests[j], calls[c].period) {
      EntryOwner(owner, manifests, calls, seriesId, j, c, calls[c].period);
    } else {
      OneMissing(owner, byPeriod, unselected, missing, manifests, calls, seriesId);
    }
  }

  // ---------- the operation ----------

  ghost predicate ReportedBySome(outcomes: seq<PeriodOutcome>, manifests: seq<Manifest>, calls: seq<Invocation>, seriesId: string) {
    exists owner :: Attribution(owner, manifests, calls, seriesId) && Reported(outcomes, owner, manifests, calls)
  }

  /** Lists the outcomes in invocation order, checking exit codes. */
  method ListOutcomes(placed: map<string, nat>, manifests: seq<Manifest>, calls: seq<Invocation>)
    returns (outcomes: seq<PeriodOutcome>, mismatch: Option<nat>)
    requires forall c :: 0 <= c < |calls| ==> calls[c].period in placed && placed[calls[c].period] < |manifests|
                                              && manifests[placed[calls[c].period]].Record?
    ensures mismatch.None? ==> |outcomes| == |calls| && forall c :: 0 <= c < |calls| ==>
      OutcomeOf(outcomes[c], calls[c], manifests[placed[calls[c].period]]) && manifests[placed[calls[c].period]].exitCode == calls[c].code
    ensures mismatch.Some? ==> mismatch.value < |calls|
    ensures mismatch.Some? ==> manifests[placed[calls[mismatch.value].period]].exitCode != calls[mismatch.value].code
  {
    outcomes := [];
    for c := 0 to |calls|
      invariant |outcomes| == c
      invariant forall k :: 0 <= k < c ==>
        OutcomeOf(outcomes[k], calls[k], manifests[placed[calls[k].period]]) && manifests[placed[calls[k].period]].exitCode == calls[k].code
    {
      var m := manifests[placed[calls[c].period]];
      if m.exitCode != calls[c].code {
        return outcomes, Some(c);
      }
      outcomes := outcomes + [PeriodOutcome(calls[c].period, calls[c].code, m.state, m.attemptId, m.selected)];
    }
    mismatch := None;
  }

  /** Every invocation has a manifest: the one that names it, or the spare one. */
  lemma EveryCallPlaced(byPeriod: map<string, nat>, placed: map<string, nat>, unselected: seq<nat>, missing: seq<nat>,
                        manifests: seq<Manifest>, calls: seq<Invocation>, seriesId: string, c: nat)
    requires Read(byPeriod, unselected, manifests, calls, seriesId) && IsMissing(missing, byPeriod, calls, |calls|) && c < |calls|
    requires if unselected == [] then missing == [] && placed == byPeriod
             else |unselected| == |missing| == 1 && missing[0] < |calls| && placed == byPeriod[calls[missing[0]].period := unselected[0]]
    ensures calls[c].period in placed && placed[calls[c].period] < |manifests| && manifests[placed[calls[c].period]].Record?
    ensures var j := placed[calls[c].period];
      Selects(manifests[j], calls[c].period) || (unselected == [j] && |missing| == 1 && calls[missing[0]].period == calls[c].period)
  {
    hide Recorded, Usable;
    var p := calls[c].period;
    if p in byPeriod {
      RecordedEntry(byPeriod, unselected, manifests, calls, seriesId, |manifests|, p);
    }
    if unselected != [] {
      WaitingAt(byPeriod, unselected, manifests, calls, seriesId, 0);
    }
  }

  lemma SamePosition(calls: seq<Invocation>, a: nat, b: nat)
    requires DistinctPeriods(calls) && a < |calls| && b < |calls| && calls[a].period == calls[b].period
    ensures a == b
  {
  }

  /**
   Attributes new manifests to finished invocations.  It succeeds exactly when some one-to-one
   attribution is correct, and then every outcome carries its own manifest's fields.
   */
  method Outcomes(manifests: seq<Manifest>, calls: seq<Invocation>, seriesId: string) returns (r: Result<seq<PeriodOutcome>, ManifestError>)
    requires DistinctPeriods(calls)
    ensures r.Ok? <==> Attributable(manifests, calls, seriesId)
    ensures r.Ok? ==> ReportedBySome(r.value, manifests, calls, seriesId)
    ensures r.Ok? ==> |r.value| == |calls| && forall c :: 0 <= c < |calls| ==> r.value[c].period == calls[c].period && r.value[c].exitCode == calls[c].code
  {
    hide Attribution, Recorded, IsMissing, DistinctPeriods, Attributable;
    if |manifests| != |calls| {
      CountRefused(manifests, calls, seriesId);
      return Err(CountMismatch);
    }
    var filed :- ReadManifests(manifests, calls, seriesId);
    var byPeriod, unselected := filed.0, filed.1;
    assert Read(byPeriod, unselected, manifests, calls, seriesId);
    var missing := FindMissing(byPeriod, calls);
    var placed := byPeriod;
    if unselected != [] {
      if |unselected| != 1 || |missing| != 1 {
        if |unselected| != 1 {
          TwoUnselectedRefused(byPeriod, unselected, manifests, calls, seriesId);
        } else {
          AmbiguousRefused(byPeriod, unselected, missing, manifests, calls, seriesId);
        }
        return Err(AmbiguousSelection);
      }
      MissingInRange(missing, byPeriod, calls);
      placed := byPeriod[calls[missing[0]].period := unselected[0]];
    } else if missing != [] {
      MissingInRange(missing, byPeriod, calls);
      MissingRefused(byPeriod, manifests, calls, seriesId, missing[0]);
      return Err(MissingManifest);
    }
    forall c | 0 <= c < |calls|
      ensures calls[c].period in placed && placed[calls[c].period] < |manifests| && manifests[placed[calls[c].period]].Record?
    {
      EveryCallPlaced(byPeriod, placed, unselected, missing, manifests, calls, seriesId, c);
    }
    var outcomes, mismatch := ListOutcomes(placed, manifests, calls);
    if mismatch.Some? {
      var c := mismatch.value;
      EveryCallPlaced(byPeriod, placed, unselected, missing, manifests, calls, seriesId, c);
      if unselected != [] && calls[missing[0]].period == calls[c].period {
        SamePosition(calls, missing[0], c);
      }
      ExitRefused(byPeriod, unselected, missing, manifests, calls, seriesId, c, placed[calls[c].period]);
      return Err(ExitDiffers);
    }
    ghost var spare := if unselected == [] then 0 else missing[0];
    Concluded(byPeriod, placed, unselected, missing, manifests, calls, seriesId, spare, outcomes);
    r := Ok(outcomes);
  }

  lemma CountRefused(manifests: seq<Manifest>, calls: seq<Invocation>, seriesId: string)
    requires |manifests| != |calls|
    ensures !Attributable(manifests, calls, seriesId)
  {
    hide Fits;
  }

  lemma MissingInRange(missing: seq<nat>, byPeriod: map<string, nat>, calls: seq<Invocation>)
    requires IsMissing(missing, byPeriod, calls, |calls|) && missing != []
    ensures missing[0] < |calls| && calls[missing[0]].period !in byPeriod
  {
  }

  lemma Concluded(byPeriod: map<string, nat>, placed: map<string, nat>, unselected: seq<nat>, missing: seq<nat>, manifests: seq<Manifest>,
                  calls: seq<Invocation>, seriesId: string, spare: nat, outcomes: seq<PeriodOutcome>)
    requires DistinctPeriods(calls) && Read(byPeriod, unselected, manifests, calls, seriesId) && |manifests| == |calls|
    requires IsMissing(missing, byPeriod, calls, |calls|)
    requires if unselected == [] then placed == byPeriod
             else |unselected| == |missing| == 1 && missing[0] == spare < |calls|
                  && placed == byPeriod[calls[spare].period := unselected[0]]
    requires forall c :: 0 <= c < |calls| ==> calls[c].period in placed && placed[calls[c].period] < |manifests|
    requires |outcomes| == |calls| && forall c :: 0 <= c < |calls| ==>
      OutcomeOf(outcomes[c], calls[c], manifests[placed[calls[c].period]]) && manifests[placed[calls[c].period]].exitCode == calls[c].code
    ensures ReportedBySome(outcomes, manifests, calls, seriesId) && Attributable(manifests, calls, seriesId)
  {
    hide Read, DistinctPeriods, Attribution, Belongs, OwnerOf;
    if unselected != [] {
      MissingInRange(missing, byPeriod, calls);
    }
    var owner := OwnerOf(manifests, calls, spare);
    PlaceAll(byPeriod, placed, unselected, manifests, calls, seriesId, spare);
    forall j | 0 <= j < |owner|
      ensures owner[j] < |calls| && OutcomeOf(outcomes[owner[j]], calls[owner[j]], manifests[j]) && manifests[j].exitCode == calls[owner[j]].code
    {
      assert PlacedAt(placed, calls, owner[j], j);
    }
    PlacedIsAttribution(placed, owner, byPeriod, unselected, manifests, calls, seriesId);
    assert Reported(outcomes, owner, manifests, calls);
  }
}
