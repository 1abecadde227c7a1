/**
 The publication primitives and the series publishing routine as imperative code over one lane's
 files, each tied to the specification, and the whole routine to the step-by-step protocol.
 */
module PublicationFiles {
  import opened Wrappers
  import opened Utf8
  import opened Publication
  import opened PublicationProtocol

  datatype Error = UnknownKind | Collision | AlreadyExists | Incomplete | BadContent | MissingOrDrifted | NoCurrent

  /** A directory after writing the same contents under each of the names. */
  function WithFiles(dir: Directory, names: seq<string>, contents: Bytes): Directory {
    if names == [] then dir
    else WithFiles(dir, names[..|names| - 1], contents)[names[|names| - 1] := contents]
  }

  // ---------- whole routines against the protocol ----------

  /** Doing the attempt's next operation first changes nothing about where it ends. */
  lemma Advance(w: World, s: Store, lane: Lane, t: Store, pc: LanePc)
    requires !lane.pc.Done? && LaneNext(w, s, lane) == (t, pc)
    ensures Finish(w, s, lane) == Finish(w, t, lane.(pc := pc))
  {
  }

  /** Storing one object, as the protocol does it operation by operation. */
  lemma PutFinishes(w: World, s: Store, lane: Lane, i: nat)
    requires lane.pc == Put(i, Opening) && i < |lane.job.objects| && (lane.attempt, i) !in s.parts
    ensures var o := lane.job.objects[i];
      Finish(w, s, lane) ==
        if Taken(w, s, o) then Finish(w, s, lane.(pc := Done(Failed)))
        else Finish(w, s.(objects := s.objects[RefOf(w, o) := o.payload]), lane.(pc := NextPut(lane.job, i + 1)))
  {
    hide Finish, Verified, VerifyGraph, Matches;
    var o, part := lane.job.objects[i], (lane.attempt, i);
    var ref := RefOf(w, o);
    var s1 := s.(parts := s.parts[part := []]);
    var s2 := s.(parts := s.parts[part := o.payload]);
    Advance(w, s, lane, s1, Put(i, Opened));
    assert s1.parts[part := o.payload] == s2.parts;
    Advance(w, s1, lane.(pc := Put(i, Opened)), s2, Put(i, Written));
    assert s2.parts - {part} == s.parts;
    if ref !in s.objects {
      var s3 := s2.(objects := s.objects[ref := o.payload]);
      Advance(w, s2, lane.(pc := Put(i, Written)), s3, Put(i, Linked));
      PutCloses(w, s3, lane, i, true);
    } else {
      Advance(w, s2, lane.(pc := Put(i, Written)), s2, Put(i, Exists));
      var same := s.objects[ref] == o.payload;
      Advance(w, s2, lane.(pc := Put(i, Exists)), s2, Put(i, if same then Linked else Refused));
      PutCloses(w, s2, lane, i, same);
      assert same ==> s.objects == s.objects[ref := o.payload];
    }
  }

  lemma PutCloses(w: World, s: Store, lane: Lane, i: nat, ok: bool)
    requires i < |lane.job.objects|
    ensures Finish(w, s, lane.(pc := Put(i, if ok then Linked else Refused)))
         == Finish(w, s.(parts := s.parts - {(lane.attempt, i)}),
                   lane.(pc := if ok then NextPut(lane.job, i + 1) else Done(Failed)))
  {
    hide Finish;
    var t := s.(parts := s.parts - {(lane.attempt, i)});
    Advance(w, s, lane.(pc := Put(i, if ok then Linked else Refused)), t, Put(i, Closed(ok)));
    Advance(w, t, lane.(pc := Put(i, Closed(ok))), t, if ok then NextPut(lane.job, i + 1) else Done(Failed));
  }

  /** Staging the two files, marking and renaming, in one go. */
  lemma CommitFinishes(w: World, s: Store, lane: Lane)
    requires lane.pc == Candidate && lane.job.id !in s.commits && lane.attempt !in s.staging
    ensures Finish(w, s, lane) ==
      Finish(w, s.(commits := s.commits[lane.job.id := CommitFiles(lane.job.manifest)]), lane.(pc := Verify))
  {
    hide Finish, Verified, VerifyGraph, Matches;
    var a, m := lane.attempt, lane.job.manifest;
    var s0 := s.(staging := s.staging[a := map[]]);
    Advance(w, s, lane, s0, Stage(0));
    StageFinishes(w, s, lane, map[], 0);
    StageFinishes(w, s, lane, map[MANIFEST := m], 1);
    assert map[MANIFEST := m][CONTENT := m] == map[MANIFEST := m, CONTENT := m];
    var s2 := WithStaging(s, a, map[MANIFEST := m, CONTENT := m]);
    Advance(w, s2, lane.(pc := Stage(2)), s2, Mark);
    MarkFinishes(w, s, lane, map[MANIFEST := m, CONTENT := m]);
  }

  function WithStaging(s: Store, attempt: string, dir: Directory): Store {
    s.(staging := s.staging[attempt := dir])
  }

  lemma StageFinishes(w: World, s: Store, lane: Lane, dir: Directory, k: nat)
    requires k < 2
    ensures Finish(w, WithStaging(s, lane.attempt, dir), lane.(pc := Stage(k)))
         == Finish(w, WithStaging(s, lane.attempt, dir[if k == 0 then MANIFEST else CONTENT := lane.job.manifest]),
                   lane.(pc := Stage(k + 1)))
  {
    hide Finish, Verified, VerifyGraph, Matches;
    var t := WithStaging(s, lane.attempt, dir);
    var dir' := dir[if k == 0 then MANIFEST else CONTENT := lane.job.manifest];
    assert t.staging[lane.attempt := dir'] == s.staging[lane.attempt := dir'];
    Advance(w, t, lane.(pc := Stage(k)), WithStaging(s, lane.attempt, dir'), Stage(k + 1));
  }

  lemma MarkFinishes(w: World, s: Store, lane: Lane, dir: Directory)
    requires lane.job.id !in s.commits && lane.attempt !in s.staging
    requires dir == map[MANIFEST := lane.job.manifest, CONTENT := lane.job.manifest]
    ensures Finish(w, WithStaging(s, lane.attempt, dir), lane.(pc := Mark))
         == Finish(w, s.(commits := s.commits[lane.job.id := CommitFiles(lane.job.manifest)]), lane.(pc := Verify))
  {
    hide Finish, Verified, VerifyGraph, Matches;
    var t, u := WithStaging(s, lane.attempt, dir), WithStaging(s, lane.attempt, CommitFiles(lane.job.manifest));
    assert dir[MARKER := []] == CommitFiles(lane.job.manifest);
    assert t.staging[lane.attempt := CommitFiles(lane.job.manifest)] == u.staging;
    Advance(w, t, lane.(pc := Mark), u, Rename);
    assert u.staging - {lane.attempt} == s.staging;
    Advance(w, u, lane.(pc := Rename), s.(commits := s.commits[lane.job.id := CommitFiles(lane.job.manifest)]), Verify);
  }

  class LaneFiles {
    const w: World
    var files: Store

    constructor (w: World, files: Store)
      ensures this.w == w && this.files == files
    {
      this.w := w;
      this.files := files;
    }

    /** Write to a fresh temporary file, claim the address with a link, authenticate if it was taken. */
    method StoreObject(part: (string, nat), o: Object) returns (r: Result<bool, Error>)
      requires part !in files.parts
      modifies this
      ensures var ref := Ref(o.kind, w.sha(o.payload));
        if o.kind != "raw" && o.kind != "checksum" && o.kind != "normalized" then r == Err(UnknownKind) && files == old(files)
        else if ref in old(files).objects && old(files).objects[ref] != o.payload then
          r == Err(Collision) && files == old(files)
        else
          && r == Ok(ref !in old(files).objects)
          && files == old(files).(objects := old(files).objects[ref := o.payload])
    {
      var ref := RefOf(w, o);
      if !KnownKind(o.kind) {
        return Err(UnknownKind);
      }
      files := files.(parts := files.parts[part := o.payload]);
      if ref !in files.objects {
        files := files.(objects := files.objects[ref := files.parts[part]]);
        r := Ok(true);
      } else if files.objects[ref] == o.payload {
        assert files.objects == files.objects[ref := o.payload];
        r := Ok(false);
      } else {
        r := Err(Collision);
      }
      files := files.(parts := files.parts - {part});
      assert files.parts == old(files).parts;
    }

    /** Writes the named files, one after another, into the attempt's staging directory. */
    method StageCommit(attempt: string, names: seq<string>, contents: Bytes)
      modifies this
      ensures var before := if attempt in old(files).staging then old(files).staging[attempt] else map[];
        files == old(files).(staging := old(files).staging[attempt := WithFiles(before, names, contents)])
    {
      ghost var before := if attempt in files.staging then files.staging[attempt] else map[];
      if attempt !in files.staging {
        files := files.(staging := files.staging[attempt := map[]]);
      }
      assert files.staging == old(files).staging[attempt := before];
      for k := 0 to |names|
        invariant files == old(files).(staging := old(files).staging[attempt := WithFiles(before, names[..k], contents)])
      {
        files := files.(staging := files.staging[attempt := files.staging[attempt][names[k] := contents]]);
        assert names[..k + 1][..k] == names[..k];
      }
      assert names[..|names|] == names;
    }

    /** Marks the staged directory committed and renames it to its content hash. */
    method PublishCommit(attempt: string, id: string) returns (r: Result<(), Error>)
      requires attempt in files.staging
      modifies this
      ensures id in old(files).commits ==> r == Err(AlreadyExists) && files == old(files)
      ensures id !in old(files).commits ==> r == Ok(()) && files == old(files).(
        commits := old(files).commits[id := old(files).staging[attempt][MARKER := []]],
        staging := old(files).staging - {attempt})
    {
      if id in files.commits {
        return Err(AlreadyExists);
      }
      files := files.(staging := files.staging[attempt := files.staging[attempt][MARKER := []]]);
      files := files.(commits := files.commits[id := files.staging[attempt]], staging := files.staging - {attempt});
      r := Ok(());
    }

    /** Writes a draft pointer and replaces current.json with it. */
    method WriteCurrent(commit: string, manifestDigest: string)
      modifies this
      ensures files == old(files).(current := Some(Pointer(commit, manifestDigest)), draft := None)
    {
      files := files.(draft := Some(Whole(Pointer(commit, manifestDigest))));
      files := files.(current := Some(files.draft.value.pointer), draft := None);
    }

    /** Succeeds exactly when marker, content and every listed object are there, each object under its own digest. */
    method VerifyCommitGraph(commit: string) returns (r: Result<Doc, Error>)
      ensures r.Ok? <==>
        && commit in files.commits && MARKER in files.commits[commit] && CONTENT in files.commits[commit]
        && w.parse(files.commits[commit][CONTENT]).Some? && w.parse(files.commits[commit][CONTENT]).value.refs.Some?
        && forall ref :: ref in w.parse(files.commits[commit][CONTENT]).value.refs.value ==>
             && (ref.kind == "raw" || ref.kind == "checksum" || ref.kind == "normalized")
             && ref in files.objects && w.sha(files.objects[ref]) == ref.digest
      ensures r.Ok? ==> Some(r.value) == w.parse(files.commits[commit][CONTENT])
      ensures r.Ok? <==> VerifyGraph(w, files, commit).Some?
      ensures r.Ok? ==> VerifyGraph(w, files, commit) == Some(r.value)
    {
      VerifiesExactlyWhen(w, files, commit);
      if commit !in files.commits || MARKER !in files.commits[commit] || CONTENT !in files.commits[commit] {
        return Err(Incomplete);
      }
      var parsed := w.parse(files.commits[commit][CONTENT]);
      if parsed.None? || parsed.value.refs.None? {
        return Err(BadContent);
      }
      var refs := parsed.value.refs.value;
      for i := 0 to |refs|
        invariant RefsIntact(w, files.objects, refs[..i])
      {
        var ref := refs[i];
        if !KnownKind(ref.kind) || ref !in files.objects || w.sha(files.objects[ref]) != ref.digest {
          assert !ObjectIntact(w, files.objects, refs[i]);
          return Err(MissingOrDrifted);
        }
        assert refs[..i + 1] == refs[..i] + [refs[i]];
      }
      assert refs[..|refs|] == refs;
      r := Ok(parsed.value);
    }

    method ReadAndVerifyCurrent() returns (r: Result<(string, Doc), Error>)
      ensures r.Ok? <==>
        && files.current.Some?
        && var commit := files.current.value.commit;
        && commit in files.commits && MARKER in files.commits[commit] && CONTENT in files.commits[commit]
        && w.parse(files.commits[commit][CONTENT]).Some? && w.parse(files.commits[commit][CONTENT]).value.refs.Some?
        && forall ref :: ref in w.parse(files.commits[commit][CONTENT]).value.refs.value ==>
             && (ref.kind == "raw" || ref.kind == "checksum" || ref.kind == "normalized")
             && ref in files.objects && w.sha(files.objects[ref]) == ref.digest
      ensures r.Ok? ==> r.value.0 == files.current.value.commit && Some(r.value.1) == w.parse(files.commits[r.value.0][CONTENT])
    {
      if files.current.None? {
        return Err(NoCurrent);
      }
      var commit := files.current.value.commit;
      var graph := VerifyCommitGraph(commit);
      if graph.Err? {
        return Err(graph.error);
      }
      r := Ok((commit, graph.value));
    }

    /** The pipeline's own check that the lane's current commit is complete and is this lane's. */
    method VerifiedCurrent() returns (r: Option<string>)
      ensures r == Verified(w, files)
      ensures r.Some? ==>
        && files.current.Some? && files.current.value.commit == r.value
        && r.value in files.commits && MARKER in files.commits[r.value] && CONTENT in files.commits[r.value]
        && MANIFEST in files.commits[r.value]
        && w.sha(files.commits[r.value][MANIFEST]) == files.current.value.manifestDigest
        && w.parse(files.commits[r.value][MANIFEST]) == w.parse(files.commits[r.value][CONTENT])
    {
      if files.current.None? {
        return None;
      }
      var pointer := files.current.value;
      var graph := VerifyCommitGraph(pointer.commit);
      if graph.Err? {
        return None;
      }
      var dir := files.commits[pointer.commit];
      if MANIFEST !in dir || w.sha(dir[MANIFEST]) != pointer.manifestDigest || w.parse(dir[MANIFEST]) != Some(graph.value)
         || !Accepts(w, graph.value, pointer.commit) {
        return None;
      }
      r := Some(pointer.commit);
    }

    /**
     The publishing tail of the series pipeline.  It leaves the files and reports the outcome exactly
     as the protocol's operations, run one after another, do.
     */
    method PublishSeries(attempt: string, job: Job) returns (outcome: Outcome)
      requires attempt !in files.staging
      requires forall part: (string, nat) :: part in files.parts ==> part.0 != attempt
      requires forall i :: 0 <= i < |job.objects| ==> KnownKind(job.objects[i].kind)
      modifies this
      ensures (files, outcome) == Finish(w, old(files), Lane(attempt, job, Begin))
    {
      hide Finish, LaneNext, Verified, VerifyGraph, Matches, Accepts, Taken;
      ghost var lane := Lane(attempt, job, Begin);
      var current := VerifiedCurrent();
      BeginFinishes(w, files, lane);
      if current.Some? {
        return NoOp(current.value);
      }
      for i := 0 to |job.objects|
        invariant Finish(w, old(files), lane) == Finish(w, files, lane.(pc := NextPut(job, i)))
        invariant files.parts == old(files).parts && files.staging == old(files).staging
      {
        PutFinishes(w, files, lane.(pc := Put(i, Opening)), i);
        DoneFinishes(w, files, lane, Failed);
        TakenMeans(w, files, job.objects[i]);
        var stored := StoreObject((attempt, i), job.objects[i]);
        if stored.Err? {
          return Failed;
        }
      }
      DoneFinishes(w, files, lane, Failed);
      if job.id in files.commits {
        CandidateFinishes(w, files, lane);
        if !Matches(w, files, job) {
          return Failed;
        }
      } else {
        CommitFinishes(w, files, lane.(pc := Candidate));
        ghost var before := files;
        StageCommit(attempt, [MANIFEST, CONTENT], job.manifest);
        BothFiles(job.manifest);
        var published := PublishCommit(attempt, job.id);
        assert files.staging == before.staging;
      }
      PointerFinishes(w, files, lane);
      DoneFinishes(w, files, lane, Failed);
      var graph := VerifyCommitGraph(job.id);
      if graph.Err? {
        return Failed;
      }
      WriteCurrent(job.id, w.sha(job.manifest));
      var discovered := VerifiedCurrent();
      DoneFinishes(w, files, lane, Failed);
      DoneFinishes(w, files, lane, Published(job.id));
      outcome := if discovered == Some(job.id) then Published(job.id) else Failed;
    }
  }

  lemma TakenMeans(w: World, s: Store, o: Object)
    ensures Taken(w, s, o) <==> RefOf(w, o) in s.objects && s.objects[RefOf(w, o)] != o.payload
  {
  }

  lemma BothFiles(m: Bytes)
    ensures WithFiles(map[], [MANIFEST, CONTENT], m)[MARKER := []] == CommitFiles(m)
  {
    assert [MANIFEST, CONTENT][..1] == [MANIFEST];
    assert [MANIFEST][..0] == [];
    assert WithFiles(map[], [MANIFEST], m) == map[MANIFEST := m];
  }

  lemma DoneFinishes(w: World, s: Store, lane: Lane, outcome: Outcome)
    ensures Finish(w, s, lane.(pc := Done(outcome))) == (s, outcome)
  {
  }

  lemma BeginFinishes(w: World, s: Store, lane: Lane)
    requires lane.pc == Begin
    ensures Finish(w, s, lane) ==
      if Verified(w, s).Some? then (s, NoOp(Verified(w, s).value)) else Finish(w, s, lane.(pc := NextPut(lane.job, 0)))
  {
    hide Finish, Verified;
    var next := if Verified(w, s).Some? then Done(NoOp(Verified(w, s).value)) else NextPut(lane.job, 0);
    Advance(w, s, lane, s, next);
    if Verified(w, s).Some? {
      DoneFinishes(w, s, lane, NoOp(Verified(w, s).value));
    }
  }

  lemma CandidateFinishes(w: World, s: Store, lane: Lane)
    requires lane.job.id in s.commits
    ensures Finish(w, s, lane.(pc := Candidate)) ==
      Finish(w, s, lane.(pc := if Matches(w, s, lane.job) then Verify else Done(Failed)))
  {
    hide Finish, Matches;
    Advance(w, s, lane.(pc := Candidate), s, if Matches(w, s, lane.job) then Verify else Done(Failed));
  }

  /** Verification, the pointer draft, its replacement and the confirmation, in one go. */
  lemma PointerFinishes(w: World, s: Store, lane: Lane)
    ensures var t := s.(current := Some(PointerTo(w, lane.job)), draft := None);
      Finish(w, s, lane.(pc := Verify)) ==
        if VerifyGraph(w, s, lane.job.id).None? then Finish(w, s, lane.(pc := Done(Failed)))
        else Finish(w, t, lane.(pc := if Verified(w, t) == Some(lane.job.id) then Done(Published(lane.job.id)) else Done(Failed)))
  {
    hide Finish, VerifyGraph, Verified;
    if VerifyGraph(w, s, lane.job.id).None? {
      Advance(w, s, lane.(pc := Verify), s, Done(Failed));
    } else {
      Advance(w, s, lane.(pc := Verify), s, DraftPointer);
      var d := s.(draft := Some(Whole(PointerTo(w, lane.job))));
      Advance(w, s, lane.(pc := DraftPointer), d, Replace);
      var t := s.(current := Some(PointerTo(w, lane.job)), draft := None);
      Advance(w, d, lane.(pc := Replace), t, Confirm);
      Advance(w, t, lane.(pc := Confirm), t, if Verified(w, t) == Some(lane.job.id) then Done(Published(lane.job.id)) else Done(Failed));
    }
  }
}
