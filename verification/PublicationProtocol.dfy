/**
 The publication protocol as a transition system: any number of object writers and readers, one live
 publisher for the lane, torn writes, and a crash possible between any two file-system operations.
 */
module PublicationProtocol {
  import opened Wrappers
  import opened Utf8
  import opened Publication

  // ---------- storing one object ----------

  datatype PutPc = Opening | Opened | Written | Exists | Linked | Refused | Closed(ok: bool)

  /** One file-system operation of storing object o through the temporary file `part`. */
  function PutNext(w: World, s: Store, part: (string, nat), o: Object, pc: PutPc): (Store, PutPc) {
    var ref := RefOf(w, o);
    match pc
    case Opening => (s.(parts := s.parts[part := []]), Opened)
    case Opened => (s.(parts := s.parts[part := o.payload]), Written)
    case Written =>
      if part !in s.parts then (s, Closed(false))
      else if ref in s.objects then (s, Exists)
      else (s.(objects := s.objects[ref := s.parts[part]]), Linked)
    case Exists => (s, if ref in s.objects && s.objects[ref] == o.payload then Linked else Refused)
    case Linked => (s.(parts := s.parts - {part}), Closed(true))
    case Refused => (s.(parts := s.parts - {part}), Closed(false))
    case Closed(_) => (s, pc)
  }

  ghost predicate Stored(w: World, s: Store, o: Object) {
    RefOf(w, o) in s.objects && s.objects[RefOf(w, o)] == o.payload
  }

  ghost predicate Taken(w: World, s: Store, o: Object) {
    RefOf(w, o) in s.objects && s.objects[RefOf(w, o)] != o.payload
  }

  ghost predicate PutInv(w: World, s: Store, part: (string, nat), o: Object, pc: PutPc) {
    KnownKind(o.kind) &&
    match pc
    case Opening => true
    case Opened => part in s.parts
    case Written => part in s.parts && s.parts[part] == o.payload
    case Exists => RefOf(w, o) in s.objects
    case Linked => Stored(w, s, o)
    case Refused => Taken(w, s, o)
    case Closed(ok) => if ok then Stored(w, s, o) else Taken(w, s, o)
  }

  /** Only objects are added and only the one temporary file is touched. */
  ghost predicate PutFrame(s: Store, t: Store, owner: string) {
    && Extends(s, t)
    && t.commits == s.commits && t.staging == s.staging && t.draft == s.draft && t.current == s.current
    && forall q: (string, nat) :: q.0 != owner ==> (q in t.parts <==> q in s.parts) && (q in s.parts ==> t.parts[q] == s.parts[q])
  }

  lemma AddedObjectIsSound(w: World, s: Store, o: Object)
    requires Sound(w, s) && KnownKind(o.kind) && RefOf(w, o) !in s.objects
    ensures var t := s.(objects := s.objects[RefOf(w, o) := o.payload]);
      Sound(w, t) && Extends(s, t)
  {
    var t := s.(objects := s.objects[RefOf(w, o) := o.payload]);
    forall id | id in t.commits
      ensures CommitSound(w, t.objects, t.commits[id])
    {
      CommitStaysSound(w, s, t, s.commits[id]);
    }
  }

  lemma PutStepSafe(w: World, s: Store, part: (string, nat), o: Object, pc: PutPc)
    requires Sound(w, s) && PutInv(w, s, part, o, pc)
    ensures var (t, pc') := PutNext(w, s, part, o, pc);
      Sound(w, t) && PutInv(w, t, part, o, pc') && PutFrame(s, t, part.0)
  {
    var (t, pc') := PutNext(w, s, part, o, pc);
    if t.objects == s.objects {
      SameObjectsSound(w, s, t);
    } else {
      AddedObjectIsSound(w, s, o);
    }
  }

  lemma SameObjectsSound(w: World, s: Store, t: Store)
    requires Sound(w, s) && t.objects == s.objects && t.commits == s.commits && t.current == s.current
    ensures Sound(w, t) && Extends(s, t)
  {
  }

  lemma PutStaysInv(w: World, s: Store, t: Store, part: (string, nat), o: Object, pc: PutPc)
    requires PutInv(w, s, part, o, pc) && Extends(s, t)
    requires part in s.parts ==> part in t.parts && t.parts[part] == s.parts[part]
    ensures PutInv(w, t, part, o, pc)
  {
  }

  // ---------- publishing one commit ----------

  datatype LanePc =
    | Begin | Put(i: nat, put: PutPc) | Candidate | Stage(k: nat) | Mark | Rename
    | Verify | DraftPointer | Replace | Confirm | Done(outcome: Outcome)

  datatype Lane = Lane(attempt: string, job: Job, pc: LanePc)

  function NextPut(job: Job, i: nat): LanePc {
    if i < |job.objects| then Put(i, Opening) else Candidate
  }

  function PointerTo(w: World, job: Job): Pointer {
    Pointer(job.id, w.sha(job.manifest))
  }

  /** One file-system operation of the publishing attempt. */
  function LaneNext(w: World, s: Store, lane: Lane): (Store, LanePc) {
    var job, attempt := lane.job, lane.attempt;
    match lane.pc
    case Begin =>
      (match Verified(w, s)
       case Some(commit) => (s, Done(NoOp(commit)))
       case None => (s, NextPut(job, 0)))
    case Put(i, put) =>
      if i >= |job.objects| then (s, Candidate)
      else if put.Closed? then (s, if put.ok then NextPut(job, i + 1) else Done(Failed))
      else
        var (t, put') := PutNext(w, s, (attempt, i), job.objects[i], put);
        (t, Put(i, put'))
    case Candidate =>
      if job.id in s.commits then (s, if Matches(w, s, job) then Verify else Done(Failed))
      else if attempt in s.staging then (s, Stage(0))
      else (s.(staging := s.staging[attempt := map[]]), Stage(0))
    case Stage(k) =>
      if attempt !in s.staging then (s, Done(Failed))
      else if k < 2 then
        var name := if k == 0 then MANIFEST else CONTENT;
        (s.(staging := s.staging[attempt := s.staging[attempt][name := job.manifest]]), Stage(k + 1))
      else (s, if job.id in s.commits then Done(Failed) else Mark)
    case Mark =>
      if attempt !in s.staging then (s, Done(Failed))
      else (s.(staging := s.staging[attempt := s.staging[attempt][MARKER := []]]), Rename)
    case Rename =>
      if attempt !in s.staging || job.id in s.commits then (s, Done(Failed))
      else (s.(commits := s.commits[job.id := s.staging[attempt]], staging := s.staging - {attempt}), Verify)
    case Verify => (s, if VerifyGraph(w, s, job.id).Some? then DraftPointer else Done(Failed))
    case DraftPointer => (s.(draft := Some(Whole(PointerTo(w, job)))), Replace)
    case Replace =>
      if s.draft.Some? && s.draft.value.Whole? then (s.(current := Some(s.draft.value.pointer), draft := None), Confirm)
      else (s, Done(Failed))
    case Confirm => (s, if Verified(w, s) == Some(job.id) then Done(Published(job.id)) else Done(Failed))
    case Done(_) => (s, lane.pc)
  }

  ghost predicate StoredUpTo(w: World, s: Store, job: Job, n: nat) {
    forall j :: 0 <= j < n && j < |job.objects| ==> Stored(w, s, job.objects[j])
  }

  ghost predicate Staged(dir: Directory, manifest: Bytes, k: nat) {
    && dir.Keys <= {MANIFEST, CONTENT}
    && (k >= 1 ==> MANIFEST in dir && dir[MANIFEST] == manifest)
    && (k >= 2 ==> CONTENT in dir && dir[CONTENT] == manifest)
  }

  ghost predicate Committed(s: Store, job: Job) {
    job.id in s.commits && s.commits[job.id] == CommitFiles(job.manifest)
  }

  ghost predicate LaneInv(w: World, s: Store, lane: Lane) {
    var job, attempt := lane.job, lane.attempt;
    WellFormed(w, job) &&
    match lane.pc
    case Begin => attempt !in s.staging
    case Put(i, put) =>
      attempt !in s.staging && i < |job.objects| && StoredUpTo(w, s, job, i)
      && PutInv(w, s, (attempt, i), job.objects[i], put)
    case Candidate => attempt !in s.staging && StoredUpTo(w, s, job, |job.objects|)
    case Stage(k) =>
      k <= 2 && StoredUpTo(w, s, job, |job.objects|) && job.id !in s.commits
      && attempt in s.staging && Staged(s.staging[attempt], job.manifest, k)
    case Mark =>
      StoredUpTo(w, s, job, |job.objects|) && job.id !in s.commits
      && attempt in s.staging && Staged(s.staging[attempt], job.manifest, 2)
    case Rename =>
      StoredUpTo(w, s, job, |job.objects|) && job.id !in s.commits
      && attempt in s.staging && s.staging[attempt] == CommitFiles(job.manifest)
    case Verify => StoredUpTo(w, s, job, |job.objects|) && Committed(s, job)
    case DraftPointer => StoredUpTo(w, s, job, |job.objects|) && Committed(s, job)
    case Replace =>
      StoredUpTo(w, s, job, |job.objects|) && Committed(s, job) && s.draft == Some(Whole(PointerTo(w, job)))
    case Confirm =>
      StoredUpTo(w, s, job, |job.objects|) && Committed(s, job) && s.current == Some(PointerTo(w, job))
    case Done(outcome) =>
      match outcome
      case Published(commit) =>
        commit == job.id && StoredUpTo(w, s, job, |job.objects|) && Committed(s, job) && s.current == Some(PointerTo(w, job))
      case NoOp(commit) => s.current.Some? && s.current.value.commit == commit
      case Failed => Blocked(w, s, job)
  }

  /** Objects and commits only grow; nothing but the attempt's own staging and temporary files is touched otherwise. */
  ghost predicate LaneFrame(s: Store, t: Store, lane: Lane) {
    && Extends(s, t)
    && (forall id :: id in t.commits && id !in s.commits ==> id == lane.job.id && t.commits[id] == CommitFiles(lane.job.manifest))
    && (forall a :: a in t.staging && a !in s.staging ==> a == lane.attempt)
    && (forall q: (string, nat) :: q.0 != lane.attempt ==> (q in t.parts <==> q in s.parts) && (q in s.parts ==> t.parts[q] == s.parts[q]))
  }

  ghost predicate LaneSafe(w: World, s: Store, lane: Lane) {
    var (t, pc) := LaneNext(w, s, lane);
    Sound(w, t) && LaneInv(w, t, lane.(pc := pc)) && LaneFrame(s, t, lane)
  }

  lemma BeginStepSafe(w: World, s: Store, lane: Lane)
    requires Sound(w, s) && LaneInv(w, s, lane) && lane.pc.Begin?
    ensures LaneSafe(w, s, lane)
  {
    hide VerifyGraph, Sound, Accepts;
  }

  lemma PutLaneStepSafe(w: World, s: Store, lane: Lane)
    requires Sound(w, s) && LaneInv(w, s, lane) && lane.pc.Put?
    ensures LaneSafe(w, s, lane)
  {
    hide Sound, PutNext;
    var i, put := lane.pc.i, lane.pc.put;
    var o := lane.job.objects[i];
    if put.Closed? {
      if !put.ok {
        assert Taken(w, s, o);
        assert Blocked(w, s, lane.job);
      }
    } else {
      PutStepSafe(w, s, (lane.attempt, i), o, put);
      var (t, put') := PutNext(w, s, (lane.attempt, i), o, put);
      StoredUpToStays(w, s, t, lane.job, i);
    }
  }

  lemma StoredUpToStays(w: World, s: Store, t: Store, job: Job, n: nat)
    requires Extends(s, t) && StoredUpTo(w, s, job, n)
    ensures StoredUpTo(w, t, job, n)
  {
  }

  lemma CandidateStepSafe(w: World, s: Store, lane: Lane)
    requires Sound(w, s) && LaneInv(w, s, lane) && lane.pc.Candidate?
    ensures LaneSafe(w, s, lane)
  {
    hide Matches, ObjectsSound, CommitsSound;
    SameObjectsSound(w, s, LaneNext(w, s, lane).0);
    if lane.job.id in s.commits {
      SoundMatch(w, s, lane.job);
    }
  }

  lemma StagingStepSafe(w: World, s: Store, lane: Lane)
    requires Sound(w, s) && LaneInv(w, s, lane) && lane.pc.Stage?
    ensures LaneSafe(w, s, lane)
  {
    hide ObjectsSound, CommitsSound, WellFormed, Blocked;
    SameObjectsSound(w, s, LaneNext(w, s, lane).0);
  }

  lemma MarkStepSafe(w: World, s: Store, lane: Lane)
    requires Sound(w, s) && LaneInv(w, s, lane) && lane.pc.Mark?
    ensures LaneSafe(w, s, lane)
  {
    hide ObjectsSound, CommitsSound, WellFormed, Blocked;
    SameObjectsSound(w, s, LaneNext(w, s, lane).0);
    var dir := s.staging[lane.attempt];
    assert dir[MARKER := []] == CommitFiles(lane.job.manifest);
  }

  lemma RenameStepSafe(w: World, s: Store, lane: Lane)
    requires Sound(w, s) && LaneInv(w, s, lane) && lane.pc.Rename?
    ensures LaneSafe(w, s, lane)
  {
    hide Sound, WellFormed, Blocked;
    NewCommitSound(w, s, LaneNext(w, s, lane).0, lane.job);
  }

  lemma NewCommitSound(w: World, s: Store, t: Store, job: Job)
    requires Sound(w, s) && WellFormed(w, job) && StoredUpTo(w, s, job, |job.objects|) && job.id !in s.commits
    requires t.objects == s.objects && t.current == s.current
    requires t.commits == s.commits[job.id := CommitFiles(job.manifest)]
    ensures Sound(w, t) && Extends(s, t)
  {
    StoredIsIntact(w, s, job);
    assert CommitSound(w, t.objects, CommitFiles(job.manifest));
  }

  lemma StoredIsIntact(w: World, s: Store, job: Job)
    requires WellFormed(w, job) && StoredUpTo(w, s, job, |job.objects|)
    ensures RefsIntact(w, s.objects, JobRefs(w, job))
  {
    forall i | 0 <= i < |job.objects|
      ensures ObjectIntact(w, s.objects, JobRefs(w, job)[i])
    {
      assert Stored(w, s, job.objects[i]);
    }
  }

  lemma PointerStepSafe(w: World, s: Store, lane: Lane)
    requires Sound(w, s) && LaneInv(w, s, lane)
    requires lane.pc.Verify? || lane.pc.DraftPointer? || lane.pc.Replace?
    ensures LaneSafe(w, s, lane)
  {
    hide ObjectsSound, CommitsSound, VerifyGraph;
    SoundCommitVerifies(w, s, lane.job.id);
    if lane.pc.Replace? {
      NewPointerSound(w, s, LaneNext(w, s, lane).0, lane.job);
    } else {
      SameObjectsSound(w, s, LaneNext(w, s, lane).0);
    }
  }

  lemma NewPointerSound(w: World, s: Store, t: Store, job: Job)
    requires Sound(w, s) && t.objects == s.objects && t.commits == s.commits
    requires Committed(s, job) && t.current == Some(PointerTo(w, job))
    ensures Sound(w, t) && Extends(s, t)
  {
  }

  lemma ConfirmStepSafe(w: World, s: Store, lane: Lane)
    requires Sound(w, s) && LaneInv(w, s, lane) && (lane.pc.Confirm? || lane.pc.Done?)
    ensures LaneSafe(w, s, lane)
    ensures lane.pc.Confirm? ==> LaneNext(w, s, lane).1 == Done(Published(lane.job.id))
  {
    hide ObjectsSound, CommitsSound, VerifyGraph;
    if lane.pc.Confirm? {
      SoundCommitVerifies(w, s, lane.job.id);
    }
  }

  lemma LaneStepSafe(w: World, s: Store, lane: Lane)
    requires Sound(w, s) && LaneInv(w, s, lane)
    ensures LaneSafe(w, s, lane)
  {
    hide Sound, LaneInv, LaneSafe;
    match lane.pc
    case Begin => BeginStepSafe(w, s, lane);
    case Put(_, _) => PutLaneStepSafe(w, s, lane);
    case Candidate => CandidateStepSafe(w, s, lane);
    case Stage(_) => StagingStepSafe(w, s, lane);
    case Mark => MarkStepSafe(w, s, lane);
    case Rename => RenameStepSafe(w, s, lane);
    case Verify => PointerStepSafe(w, s, lane);
    case DraftPointer => PointerStepSafe(w, s, lane);
    case Replace => PointerStepSafe(w, s, lane);
    case Confirm => ConfirmStepSafe(w, s, lane);
    case Done(_) => ConfirmStepSafe(w, s, lane);
  }

  // ---------- a reader ----------

  datatype ReaderPc =
    | Ready | NoPointer | Pointed(commit: string) | Checking(commit: string, refs: seq<Ref>, i: nat)
    | Finished(commit: string) | Broken

  /** Reading and verifying the current commit: pointer, then directory, then one object at a time. */
  function ReaderNext(w: World, s: Store, pc: ReaderPc): ReaderPc {
    match pc
    case Ready => if s.current.None? then NoPointer else Pointed(s.current.value.commit)
    case Pointed(commit) =>
      if commit !in s.commits then Broken
      else
        var dir := s.commits[commit];
        if MARKER !in dir || CONTENT !in dir then Broken
        else if w.parse(dir[CONTENT]).None? || w.parse(dir[CONTENT]).value.refs.None? then Broken
        else Checking(commit, w.parse(dir[CONTENT]).value.refs.value, 0)
    case Checking(commit, refs, i) =>
      if i >= |refs| then Finished(commit)
      else if ObjectIntact(w, s.objects, refs[i]) then Checking(commit, refs, i + 1)
      else Broken
    case _ => pc
  }

  ghost predicate ReaderInv(w: World, s: Store, pc: ReaderPc) {
    match pc
    case Ready => true
    case NoPointer => true
    case Pointed(commit) => commit in s.commits
    case Checking(commit, refs, _) => commit in s.commits && RefsIntact(w, s.objects, refs)
    case Finished(commit) => commit in s.commits
    case Broken => false
  }

  lemma ReaderStepSafe(w: World, s: Store, pc: ReaderPc)
    requires Sound(w, s) && ReaderInv(w, s, pc)
    ensures ReaderInv(w, s, ReaderNext(w, s, pc))
  {
    if pc.Pointed? {
      assert CommitSound(w, s.objects, s.commits[pc.commit]);
    }
  }

  lemma ReaderStaysInv(w: World, s: Store, t: Store, pc: ReaderPc)
    requires ReaderInv(w, s, pc) && Extends(s, t)
    ensures ReaderInv(w, t, pc)
  {
  }

  /** Only other owners' object writes happened between s and t. */
  lemma LaneStaysInv(w: World, s: Store, t: Store, lane: Lane, owner: string)
    requires LaneInv(w, s, lane) && PutFrame(s, t, owner) && owner != lane.attempt
    ensures LaneInv(w, t, lane)
  {
    if lane.pc.Put? {
      PutStaysInv(w, s, t, (lane.attempt, lane.pc.i), lane.job.objects[lane.pc.i], lane.pc.put);
    }
  }

  // ---------- the whole system ----------

  datatype Writer = Writer(o: Object, pc: PutPc)

  datatype System = System(
    store: Store,
    writers: map<string, Writer>,
    lane: Option<Lane>,
    readers: map<nat, ReaderPc>,
    owners: set<string>,  // attempt names ever used
    jobs: set<Job>        // jobs ever started on this lane
  )

  datatype Step =
    | StartWriter(owner: string, o: Object) | WriterStep(owner: string) | TearPart(owner: string, bytes: Bytes)
    | CrashWriter(owner: string)
    | StartLane(attempt: string, job: Job) | LaneStep | TearStaged(bytes: Bytes) | TearDraft | CrashLane
    | StartReader(reader: nat) | ReaderStep(reader: nat)

  /** The effect of one step; a step that is not possible now changes nothing. */
  function Apply(w: World, s: System, step: Step): System {
    match step
    case StartWriter(owner, o) =>
      if owner in s.owners || !KnownKind(o.kind) then s
      else s.(writers := s.writers[owner := Writer(o, Opening)], owners := s.owners + {owner})
    case WriterStep(owner) =>
      if owner !in s.writers then s
      else
        var (t, pc) := PutNext(w, s.store, (owner, 0), s.writers[owner].o, s.writers[owner].pc);
        s.(store := t, writers := s.writers[owner := s.writers[owner].(pc := pc)])
    case TearPart(owner, bytes) =>
      if owner !in s.writers || s.writers[owner].pc != Opened then s
      else s.(store := s.store.(parts := s.store.parts[(owner, 0) := bytes]))
    case CrashWriter(owner) => s.(writers := s.writers - {owner})
    case StartLane(attempt, job) =>
      if s.lane.Some? || attempt in s.owners || !WellFormed(w, job) then s
      else s.(lane := Some(Lane(attempt, job, Begin)), owners := s.owners + {attempt}, jobs := s.jobs + {job})
    case LaneStep =>
      if s.lane.None? then s
      else
        var (t, pc) := LaneNext(w, s.store, s.lane.value);
        s.(store := t, lane := Some(s.lane.value.(pc := pc)))
    case TearStaged(bytes) =>
      // a crash while a staged file or a temporary object file is being written leaves any bytes in it
      if s.lane.None? then s
      else
        var lane := s.lane.value;
        if lane.pc.Stage? && lane.pc.k < 2 && lane.attempt in s.store.staging then
          var name := if lane.pc.k == 0 then MANIFEST else CONTENT;
          s.(store := s.store.(staging := s.store.staging[lane.attempt := s.store.staging[lane.attempt][name := bytes]]))
        else if lane.pc.Put? && lane.pc.put.Opened? then
          s.(store := s.store.(parts := s.store.parts[(lane.attempt, lane.pc.i) := bytes]))
        else s
    case TearDraft =>
      if s.lane.None? || !s.lane.value.pc.DraftPointer? then s
      else s.(store := s.store.(draft := Some(Torn)))
    case CrashLane => s.(lane := None)
    case StartReader(reader) => s.(readers := s.readers[reader := Ready])
    case ReaderStep(reader) =>
      if reader !in s.readers then s
      else s.(readers := s.readers[reader := ReaderNext(w, s.store, s.readers[reader])])
  }

  ghost predicate Initial(s: System) {
    && s.store == Store(map[], map[], map[], map[], None, None)
    && s.writers == map[] && s.lane == None && s.readers == map[] && s.owners == {} && s.jobs == {}
  }

  /** Every committed directory was written by some job started on the lane. */
  ghost predicate Authored(s: System) {
    forall id :: id in s.store.commits ==>
      exists job :: job in s.jobs && job.id == id && s.store.commits[id] == CommitFiles(job.manifest)
  }

  ghost predicate WritersInv(w: World, s: System) {
    forall owner :: owner in s.writers ==>
      owner in s.owners && PutInv(w, s.store, (owner, 0), s.writers[owner].o, s.writers[owner].pc)
  }

  ghost predicate LaneSlotInv(w: World, s: System) {
    s.lane.Some? ==>
      && s.lane.value.attempt in s.owners && s.lane.value.attempt !in s.writers
      && s.lane.value.job in s.jobs && LaneInv(w, s.store, s.lane.value)
  }

  ghost predicate ReadersInv(w: World, s: System) {
    forall r :: r in s.readers ==> ReaderInv(w, s.store, s.readers[r])
  }

  ghost predicate Inv(w: World, s: System) {
    && Sound(w, s.store)
    && s.store.staging.Keys <= s.owners
    && WritersInv(w, s) && LaneSlotInv(w, s) && ReadersInv(w, s) && Authored(s)
  }

  lemma ReadersStay(w: World, s: System, t: System)
    requires ReadersInv(w, s) && t.readers == s.readers && Extends(s.store, t.store)
    ensures ReadersInv(w, t)
  {
    forall r | r in t.readers
      ensures ReaderInv(w, t.store, t.readers[r])
    {
      ReaderStaysInv(w, s.store, t.store, s.readers[r]);
    }
  }

  /** Writers other than the one named keep their invariant while that owner moves. */
  lemma WritersStay(w: World, s: System, t: System, mover: string)
    requires WritersInv(w, s) && s.owners <= t.owners && Extends(s.store, t.store)
    requires forall q: (string, nat) :: q.0 != mover ==>
      (q in t.store.parts <==> q in s.store.parts) && (q in s.store.parts ==> t.store.parts[q] == s.store.parts[q])
    requires forall owner :: owner in t.writers && owner != mover ==> owner in s.writers && t.writers[owner] == s.writers[owner]
    requires mover in t.writers ==>
      mover in t.owners && PutInv(w, t.store, (mover, 0), t.writers[mover].o, t.writers[mover].pc)
    ensures WritersInv(w, t)
  {
    hide PutInv, Extends;
    forall owner | owner in t.writers && owner != mover
      ensures owner in t.owners && PutInv(w, t.store, (owner, 0), t.writers[owner].o, t.writers[owner].pc)
    {
      PutStaysInv(w, s.store, t.store, (owner, 0), s.writers[owner].o, s.writers[owner].pc);
    }
  }

  ghost predicate StepSafe(w: World, s: System, step: Step) {
    Inv(w, Apply(w, s, step)) && Extends(s.store, Apply(w, s, step).store)
  }

  lemma ExtendsReflexive(s: Store)
    ensures Extends(s, s)
  {
  }

  lemma AuthoredStays(s: System, t: System)
    requires Authored(s) && s.jobs <= t.jobs
    requires forall id :: id in t.store.commits && id !in s.store.commits ==>
      exists job :: job in t.jobs && job.id == id && t.store.commits[id] == CommitFiles(job.manifest)
    requires forall id :: id in t.store.commits && id in s.store.commits ==> t.store.commits[id] == s.store.commits[id]
    ensures Authored(t)
  {
    forall id | id in t.store.commits && id in s.store.commits
      ensures exists job :: job in t.jobs && job.id == id && t.store.commits[id] == CommitFiles(job.manifest)
    {
      var job :| job in s.jobs && job.id == id && s.store.commits[id] == CommitFiles(job.manifest);
      assert job in t.jobs;
    }
  }

  lemma WriterMoves(w: World, s: System, owner: string)
    requires Inv(w, s) && owner in s.writers
    ensures StepSafe(w, s, WriterStep(owner))
  {
    hide PutNext, PutInv, LaneInv, ReaderInv, Sound, Extends;
    var t := Apply(w, s, WriterStep(owner));
    PutStepSafe(w, s.store, (owner, 0), s.writers[owner].o, s.writers[owner].pc);
    WritersStay(w, s, t, owner);
    ReadersStay(w, s, t);
    if s.lane.Some? {
      LaneStaysInv(w, s.store, t.store, s.lane.value, owner);
    }
    AuthoredStays(s, t);
  }

  lemma PartTears(w: World, s: System, owner: string, bytes: Bytes)
    requires Inv(w, s)
    ensures StepSafe(w, s, TearPart(owner, bytes))
  {
    hide LaneInv, ReaderInv, Sound;
    ExtendsReflexive(s.store);
    var t := Apply(w, s, TearPart(owner, bytes));
    if t != s {
      SameObjectsSound(w, s.store, t.store);
      WritersStay(w, s, t, owner);
      ReadersStay(w, s, t);
      if s.lane.Some? {
        LaneStaysInv(w, s.store, t.store, s.lane.value, owner);
      }
      AuthoredStays(s, t);
    }
  }

  lemma LaneMoves(w: World, s: System)
    requires Inv(w, s) && s.lane.Some?
    ensures StepSafe(w, s, LaneStep)
  {
    hide LaneNext, PutInv, LaneInv, ReaderInv, Sound, Extends;
    var t := Apply(w, s, LaneStep);
    var lane := s.lane.value;
    LaneStepSafe(w, s.store, lane);
    assert LaneSafe(w, s.store, lane);
    WritersStay(w, s, t, lane.attempt);
    ReadersStay(w, s, t);
    ExtendsKeepsCommits(s.store, t.store);
    forall id | id in t.store.commits && id !in s.store.commits
      ensures exists job :: job in t.jobs && job.id == id && t.store.commits[id] == CommitFiles(job.manifest)
    {
      assert lane.job in t.jobs;
    }
    AuthoredStays(s, t);
  }

  lemma ExtendsKeepsCommits(s: Store, t: Store)
    requires Extends(s, t)
    ensures forall id :: id in s.commits ==> id in t.commits && t.commits[id] == s.commits[id]
  {
  }

  /** A write cut short, in the lane's staged files, temporary object or pointer draft, breaks nothing. */
  lemma LaneTears(w: World, s: System, step: Step)
    requires Inv(w, s) && (step.TearStaged? || step.TearDraft?)
    ensures StepSafe(w, s, step)
  {
    hide ReaderInv, Sound, PutNext;
    ExtendsReflexive(s.store);
    var t := Apply(w, s, step);
    if t != s {
      SameObjectsSound(w, s.store, t.store);
      TornLaneStaysInv(w, s, step);
      WritersStay(w, s, t, s.lane.value.attempt);
      ReadersStay(w, s, t);
      AuthoredStays(s, t);
    }
  }

  lemma TornLaneStaysInv(w: World, s: System, step: Step)
    requires LaneSlotInv(w, s) && s.lane.Some? && (step.TearStaged? || step.TearDraft?)
    ensures LaneInv(w, Apply(w, s, step).store, s.lane.value)
  {
  }

  lemma ReaderMoves(w: World, s: System, step: Step)
    requires Inv(w, s) && (step.StartReader? || step.ReaderStep?)
    ensures StepSafe(w, s, step)
  {
    hide Sound, ReaderNext, Extends, LaneInv, PutInv;
    ExtendsReflexive(s.store);
    if step.ReaderStep? && step.reader in s.readers {
      ReaderStepSafe(w, s.store, s.readers[step.reader]);
    }
    AuthoredStays(s, Apply(w, s, step));
  }

  lemma WritersComeAndGo(w: World, s: System, step: Step)
    requires Inv(w, s) && (step.StartWriter? || step.CrashWriter?)
    ensures StepSafe(w, s, step)
  {
    hide Sound, ReaderInv, Extends, LaneInv;
    ExtendsReflexive(s.store);
    AuthoredStays(s, Apply(w, s, step));
  }

  lemma LanesComeAndGo(w: World, s: System, step: Step)
    requires Inv(w, s) && (step.StartLane? || step.CrashLane?)
    ensures StepSafe(w, s, step)
  {
    hide Sound, ReaderInv, Extends, PutInv, WellFormed;
    ExtendsReflexive(s.store);
    AuthoredStays(s, Apply(w, s, step));
  }

  /** Every step from a reachable state keeps the invariant and changes no object and no commit. */
  lemma EveryStepSafe(w: World, s: System, step: Step)
    requires Inv(w, s)
    ensures StepSafe(w, s, step)
  {
    hide Inv, StepSafe;
    match step
    case WriterStep(owner) =>
      if owner in s.writers { WriterMoves(w, s, owner); } else { StutterSafe(w, s, step); }
    case TearPart(owner, bytes) => PartTears(w, s, owner, bytes);
    case LaneStep => if s.lane.Some? { LaneMoves(w, s); } else { StutterSafe(w, s, step); }
    case TearStaged(_) => LaneTears(w, s, step);
    case TearDraft => LaneTears(w, s, step);
    case StartReader(_) => ReaderMoves(w, s, step);
    case ReaderStep(_) => ReaderMoves(w, s, step);
    case StartLane(_, _) => LanesComeAndGo(w, s, step);
    case CrashLane => LanesComeAndGo(w, s, step);
    case _ => WritersComeAndGo(w, s, step);
  }

  lemma StutterSafe(w: World, s: System, step: Step)
    requires Inv(w, s) && Apply(w, s, step) == s
    ensures StepSafe(w, s, step)
  {
    ExtendsReflexive(s.store);
  }

  // ---------- what holds over every run ----------

  /** States[0] is initial and each next state results from one step. */
  ghost predicate Run(w: World, states: seq<System>, steps: seq<Step>) {
    && |states| == |steps| + 1 && Initial(states[0])
    && forall i :: 0 <= i < |steps| ==> states[i + 1] == Apply(w, states[i], steps[i])
  }

  lemma {:induction false} RunInv(w: World, states: seq<System>, steps: seq<Step>, n: nat)
    requires Run(w, states, steps) && n < |states|
    ensures Inv(w, states[n])
  {
    hide Inv, Apply;
    if n == 0 {
      InitialInv(w, states[0]);
    } else {
      RunInv(w, states, steps, n - 1);
      EveryStepSafe(w, states[n - 1], steps[n - 1]);
    }
  }

  lemma InitialInv(w: World, s: System)
    requires Initial(s)
    ensures Inv(w, s)
  {
  }

  /**
   In every reachable state the pointer is absent or names a complete commit whose listed objects are
   all stored under their own digests, and no object anywhere is stored under another one.
   */
  lemma CurrentAlwaysReads(w: World, states: seq<System>, steps: seq<Step>, n: nat)
    requires Run(w, states, steps) && n < |states|
    ensures var s := states[n].store;
      s.current.Some? ==>
        && var commit := s.current.value.commit;
        && VerifyGraph(w, s, commit).Some?
        && commit in s.commits && MARKER in s.commits[commit] && CONTENT in s.commits[commit]
        && w.parse(s.commits[commit][CONTENT]).Some? && w.parse(s.commits[commit][CONTENT]).value.refs.Some?
        && forall ref :: ref in w.parse(s.commits[commit][CONTENT]).value.refs.value ==>
             && (ref.kind == "raw" || ref.kind == "checksum" || ref.kind == "normalized")
             && ref in s.objects && w.sha(s.objects[ref]) == ref.digest
    ensures forall ref :: ref in states[n].store.objects ==> w.sha(states[n].store.objects[ref]) == ref.digest
  {
    hide VerifyGraph;
    RunInv(w, states, steps, n);
    var s := states[n].store;
    if s.current.Some? {
      SoundCommitVerifies(w, s, s.current.value.commit);
      VerifiesExactlyWhen(w, s, s.current.value.commit);
    }
  }

  /** Between any two moments of a run no object and no committed directory changes. */
  lemma {:induction false} NothingCommittedChanges(w: World, states: seq<System>, steps: seq<Step>, m: nat, n: nat)
    requires Run(w, states, steps) && m <= n < |states|
    ensures Extends(states[m].store, states[n].store)
  {
    hide Inv, Apply, Extends;
    if m == n {
      ExtendsReflexive(states[n].store);
    } else {
      NothingCommittedChanges(w, states, steps, m, n - 1);
      RunInv(w, states, steps, n - 1);
      EveryStepSafe(w, states[n - 1], steps[n - 1]);
      ExtendsTransitive(states[m].store, states[n - 1].store, states[n].store);
    }
  }

  /** The commit a reader is working on. */
  function ReaderCommit(pc: ReaderPc): Option<string> {
    match pc
    case Pointed(commit) => Some(commit)
    case Checking(commit, _, _) => Some(commit)
    case Finished(commit) => Some(commit)
    case _ => None
  }

  ghost predicate PointerReadAt(states: seq<System>, m: nat, reader: nat, commit: string) {
    && m + 1 < |states| && reader in states[m].readers && states[m].readers[reader].Ready?
    && states[m].store.current.Some? && states[m].store.current.value.commit == commit
  }

  /**
   However reads are interleaved with everything else, a reader never breaks, and the commit it
   verifies is the one that was current when it read the pointer.
   */
  lemma {:induction false} ReaderGetsItsCommit(w: World, states: seq<System>, steps: seq<Step>, n: nat, reader: nat)
    requires Run(w, states, steps) && n < |states| && reader in states[n].readers
    ensures !states[n].readers[reader].Broken?
    ensures ReaderCommit(states[n].readers[reader]).Some? ==>
      exists m :: 0 <= m < n && PointerReadAt(states, m, reader, ReaderCommit(states[n].readers[reader]).value)
  {
    hide PutNext, LaneNext;
    RunInv(w, states, steps, n);
    assert ReaderInv(w, states[n].store, states[n].readers[reader]);
    if n != 0 && ReaderCommit(states[n].readers[reader]).Some? {
      ReaderCameFrom(w, states[n - 1], steps[n - 1], reader);
      if reader in states[n - 1].readers && !states[n - 1].readers[reader].Ready? {
        ReaderGetsItsCommit(w, states, steps, n - 1, reader);
      } else {
        assert PointerReadAt(states, n - 1, reader, ReaderCommit(states[n].readers[reader]).value);
      }
    }
  }

  lemma ReaderCameFrom(w: World, s: System, step: Step, reader: nat)
    requires var t := Apply(w, s, step); reader in t.readers && ReaderCommit(t.readers[reader]).Some?
    ensures reader in s.readers
    ensures var commit := ReaderCommit(Apply(w, s, step).readers[reader]);
      if s.readers[reader].Ready? then s.store.current.Some? && Some(s.store.current.value.commit) == commit
      else ReaderCommit(s.readers[reader]) == commit
  {
    hide PutNext, LaneNext;
  }

  // ---------- running an attempt to its end ----------

  function PutRank(pc: PutPc): nat {
    match pc
    case Opening => 6
    case Opened => 5
    case Written => 4
    case Exists => 3
    case Linked => 2
    case Refused => 2
    case Closed(_) => 1
  }

  /** Operations still ahead of the attempt, at most. */
  function Remaining(lane: Lane): nat {
    match lane.pc
    case Begin => 8 * |lane.job.objects| + 20
    case Put(i, put) => if i < |lane.job.objects| then 8 * (|lane.job.objects| - i) + 10 + PutRank(put) else 11
    case Candidate => 10
    case Stage(k) => if k < 2 then 9 - k else 7
    case Mark => 6
    case Rename => 5
    case Verify => 4
    case DraftPointer => 3
    case Replace => 2
    case Confirm => 1
    case Done(_) => 0
  }

  lemma RemainingDecreases(w: World, s: Store, lane: Lane)
    requires !lane.pc.Done?
    ensures Remaining(lane.(pc := LaneNext(w, s, lane).1)) < Remaining(lane)
  {
    hide Verified, VerifyGraph, Matches;
    if lane.pc.Put? && lane.pc.i < |lane.job.objects| && !lane.pc.put.Closed? {
      var i, put := lane.pc.i, lane.pc.put;
      var put' := PutNext(w, s, (lane.attempt, i), lane.job.objects[i], put).1;
      assert PutRank(put') < PutRank(put);
      assert LaneNext(w, s, lane).1 == Put(i, put');
    }
  }

  /** The attempt alone, one operation after another, until it is done. */
  function Finish(w: World, s: Store, lane: Lane): (Store, Outcome)
    decreases Remaining(lane)
  {
    if lane.pc.Done? then (s, lane.pc.outcome)
    else
      var (t, pc) := LaneNext(w, s, lane);
      RemainingDecreases(w, s, lane);
      Finish(w, t, lane.(pc := pc))
  }

  lemma {:induction false} FinishSafe(w: World, s: Store, lane: Lane)
    requires Sound(w, s) && LaneInv(w, s, lane)
    ensures var (t, outcome) := Finish(w, s, lane);
      && Sound(w, t) && Extends(s, t) && LaneInv(w, t, lane.(pc := Done(outcome)))
      && (!lane.pc.Begin? && !lane.pc.Done? ==> !outcome.NoOp?)
    decreases Remaining(lane)
  {
    hide LaneNext, LaneInv, Sound, Extends, Remaining;
    if lane.pc.Done? {
      ExtendsReflexive(s);
    } else {
      var (t, pc) := LaneNext(w, s, lane);
      LaneStepSafe(w, s, lane);
      RemainingDecreases(w, s, lane);
      var (u, outcome) := Finish(w, t, lane.(pc := pc));
      FinishSafe(w, t, lane.(pc := pc));
      NoOpOnlyFromBegin(w, s, lane);
      assert LaneSafe(w, s, lane);
      ExtendsTransitive(s, t, u);
    }
  }

  lemma NoOpOnlyFromBegin(w: World, s: Store, lane: Lane)
    requires !lane.pc.Done?
    ensures var pc := LaneNext(w, s, lane).1; !pc.Begin? && (pc.Done? && pc.outcome.NoOp? ==> lane.pc.Begin?)
  {
    hide PutNext, Verified, VerifyGraph, Matches;
  }

  lemma ObjectsAfterStep(w: World, s: Store, lane: Lane)
    requires LaneInv(w, s, lane)
    ensures var t := LaneNext(w, s, lane).0;
      || t.objects == s.objects
      || exists i :: 0 <= i < |lane.job.objects| &&
           t.objects == s.objects[RefOf(w, lane.job.objects[i]) := lane.job.objects[i].payload]
  {
    hide Verified, VerifyGraph, Matches, WellFormed;
  }

  lemma UnblockedStays(w: World, s: Store, lane: Lane)
    requires Sound(w, s) && LaneInv(w, s, lane) && !Blocked(w, s, lane.job)
    ensures !Blocked(w, LaneNext(w, s, lane).0, lane.job)
  {
    hide LaneNext, LaneInv, Sound;
    LaneStepSafe(w, s, lane);
    ObjectsAfterStep(w, s, lane);
  }

  lemma {:induction false} UnblockedFinishes(w: World, s: Store, lane: Lane)
    requires Sound(w, s) && LaneInv(w, s, lane) && !Blocked(w, s, lane.job)
    ensures !Blocked(w, Finish(w, s, lane).0, lane.job)
    decreases Remaining(lane)
  {
    hide LaneNext, LaneInv, Sound, Remaining, Blocked;
    if !lane.pc.Done? {
      var (t, pc) := LaneNext(w, s, lane);
      LaneStepSafe(w, s, lane);
      assert LaneSafe(w, s, lane);
      UnblockedStays(w, s, lane);
      RemainingDecreases(w, s, lane);
      UnblockedFinishes(w, t, lane.(pc := pc));
    }
  }

  lemma BlockedPersists(w: World, s: Store, t: Store, job: Job)
    requires Extends(s, t) && Blocked(w, s, job)
    ensures Blocked(w, t, job)
  {
  }

  lemma PublishedIsUnblocked(w: World, s: Store, lane: Lane)
    requires LaneInv(w, s, lane) && lane.pc == Done(Published(lane.job.id))
    ensures !Blocked(w, s, lane.job)
  {
    forall i | 0 <= i < |lane.job.objects|
      ensures Stored(w, s, lane.job.objects[i])
    {
    }
  }

  /**
   A new attempt, run alone from any sound store, reports no-op exactly when the lane is already
   verified, fails exactly when the job is blocked, and otherwise leaves the pointer on its commit.
   */
  lemma AttemptOutcome(w: World, s: Store, attempt: string, job: Job)
    requires Sound(w, s) && WellFormed(w, job) && attempt !in s.staging
    ensures var (t, outcome) := Finish(w, s, Lane(attempt, job, Begin));
      && Sound(w, t) && Extends(s, t)
      && (if Verified(w, s).Some? then outcome == NoOp(Verified(w, s).value) && t == s
          else if Blocked(w, s, job) then outcome == Failed
          else
            && outcome == Published(job.id)
            && t.current == Some(Pointer(job.id, w.sha(job.manifest)))
            && job.id in t.commits
            && t.commits[job.id] == map[MANIFEST := job.manifest, CONTENT := job.manifest, MARKER := []])
  {
    hide LaneNext, Sound, Blocked, Verified, VerifyGraph, StoredUpTo, WellFormed, PutInv;
    var lane := Lane(attempt, job, Begin);
    var (t, outcome) := Finish(w, s, lane);
    FinishSafe(w, s, lane);
    BeginThen(w, s, lane);
    if Verified(w, s).None? {
      if Blocked(w, s, job) {
        BlockedPersists(w, s, t, job);
        if outcome.Published? {
          PublishedIsUnblocked(w, t, lane.(pc := Done(outcome)));
        }
      } else {
        UnblockedFinishes(w, s, lane);
      }
    }
  }

  lemma BeginThen(w: World, s: Store, lane: Lane)
    requires lane.pc.Begin? && Sound(w, s) && LaneInv(w, s, lane)
    ensures Verified(w, s).Some? ==> Finish(w, s, lane) == (s, NoOp(Verified(w, s).value))
    ensures Verified(w, s).None? ==> !Finish(w, s, lane).1.NoOp?
  {
    hide Sound, Verified, WellFormed;
    if Verified(w, s).Some? {
      assert LaneNext(w, s, lane) == (s, Done(NoOp(Verified(w, s).value)));
    } else {
      var next := lane.(pc := NextPut(lane.job, 0));
      assert LaneNext(w, s, lane) == (s, next.pc);
      BeginStepSafe(w, s, lane);
      FinishSafe(w, s, next);
    }
  }

  /** No other bytes hash like one of the job's payloads. */
  ghost predicate CollisionFree(w: World, job: Job) {
    forall i, x: Bytes :: 0 <= i < |job.objects| && w.sha(x) == w.sha(job.objects[i].payload) ==> x == job.objects[i].payload
  }

  /**
   Whatever happened before, however often attempts at one job crashed, running that job once more
   ends with the pointer on that job's commit.
   */
  lemma RerunConverges(w: World, states: seq<System>, steps: seq<Step>, n: nat, attempt: string, job: Job)
    requires Run(w, states, steps) && n < |states|
    requires states[n].jobs <= {job} && WellFormed(w, job) && CollisionFree(w, job)
    requires attempt !in states[n].owners
    ensures var (t, outcome) := Finish(w, states[n].store, Lane(attempt, job, Begin));
      && (outcome == NoOp(job.id) || outcome == Published(job.id))
      && t.current.Some? && t.current.value.commit == job.id
      && job.id in t.commits && MARKER in t.commits[job.id] && CONTENT in t.commits[job.id]
      && w.parse(t.commits[job.id][CONTENT]).Some? && w.parse(t.commits[job.id][CONTENT]).value.refs.Some?
      && forall ref :: ref in w.parse(t.commits[job.id][CONTENT]).value.refs.value ==>
           && (ref.kind == "raw" || ref.kind == "checksum" || ref.kind == "normalized")
           && ref in t.objects && w.sha(t.objects[ref]) == ref.digest
  {
    hide LaneInv, ReaderInv, PutInv, VerifyGraph, Finish;
    RunInv(w, states, steps, n);
    var s := states[n].store;
    OnlyJobIsUnblocked(w, states[n], job);
    AttemptOutcome(w, s, attempt, job);
    VerifiedIsCommitted(w, s);
    var (t, outcome) := Finish(w, s, Lane(attempt, job, Begin));
    SoundCommitVerifies(w, t, job.id);
    VerifiesExactlyWhen(w, t, job.id);
  }

  lemma VerifiedIsCommitted(w: World, s: Store)
    ensures Verified(w, s).Some? ==>
      s.current.Some? && s.current.value.commit == Verified(w, s).value && Verified(w, s).value in s.commits
  {
  }

  lemma OnlyJobIsUnblocked(w: World, s: System, job: Job)
    requires Inv(w, s) && s.jobs <= {job} && CollisionFree(w, job)
    ensures !Blocked(w, s.store, job)
    ensures forall id :: id in s.store.commits ==> id == job.id
  {
    hide LaneInv, ReaderInv, PutInv;
    forall i | 0 <= i < |job.objects| && RefOf(w, job.objects[i]) in s.store.objects
      ensures s.store.objects[RefOf(w, job.objects[i])] == job.objects[i].payload
    {
      assert w.sha(s.store.objects[RefOf(w, job.objects[i])]) == w.sha(job.objects[i].payload);
    }
  }
}
