/**
 The publication files of one dataset lane: a write-once content-addressed object store, staged
 commit directories renamed into place, and one pointer replaced last.

 SHA-256 and the JSON reader are parameters of the model; nothing is assumed of them except where
 a statement says so.
 */
module Publication {
  import opened Wrappers
  import opened Utf8

  const MARKER := "COMMITTED"
  const CONTENT := "content.json"
  const MANIFEST := "manifest.json"
  const HASH_FIELD := "canonical_content_hash"

  datatype Ref = Ref(kind: string, digest: string)

  /** A JSON object: its fields as text, and the reference list when that is well formed. */
  datatype Doc = Doc(fields: map<string, string>, refs: Option<seq<Ref>>)

  datatype World = World(
    sha: Bytes -> string,
    parse: Bytes -> Option<Doc>,
    identity: map<string, string>  // the fields a commit of this lane must carry
  )

  type Directory = map<string, Bytes>

  datatype Pointer = Pointer(commit: string, manifestDigest: string)

  datatype Draft = Torn | Whole(pointer: Pointer)

  datatype Store = Store(
    objects: map<Ref, Bytes>,
    parts: map<(string, nat), Bytes>,  // temporary object files, by owner and serial
    staging: map<string, Directory>,
    commits: map<string, Directory>,
    draft: Option<Draft>,              // current.json.tmp
    current: Option<Pointer>           // current.json
  )

  datatype Object = Object(kind: string, payload: Bytes)

  /** What one attempt wants to publish: its content hash, manifest bytes and object payloads. */
  datatype Job = Job(id: string, manifest: Bytes, objects: seq<Object>)

  datatype Outcome = NoOp(commit: string) | Published(commit: string) | Failed

  predicate KnownKind(kind: string) {
    kind == "raw" || kind == "checksum" || kind == "normalized"
  }

  predicate HexDigest(s: string) {
    |s| == 64 && forall i :: 0 <= i < |s| ==> '0' <= s[i] <= '9' || 'a' <= s[i] <= 'f'
  }

  function RefOf(w: World, o: Object): Ref {
    Ref(o.kind, w.sha(o.payload))
  }

  function JobRefs(w: World, job: Job): (refs: seq<Ref>)
    ensures |refs| == |job.objects| && forall i :: 0 <= i < |refs| ==> refs[i] == RefOf(w, job.objects[i])
  {
    seq(|job.objects|, i requires 0 <= i < |job.objects| => RefOf(w, job.objects[i]))
  }

  function CommitFiles(manifest: Bytes): Directory {
    map[MANIFEST := manifest, CONTENT := manifest, MARKER := []]
  }

  predicate Accepts(w: World, doc: Doc, commit: string) {
    && HexDigest(commit)
    && (forall k :: k in w.identity ==> k in doc.fields && doc.fields[k] == w.identity[k])
    && HASH_FIELD in doc.fields && doc.fields[HASH_FIELD] == commit
  }

  /** The pipeline builds the manifest from the very objects it stores, under its own content hash. */
  predicate WellFormed(w: World, job: Job) {
    && (forall i :: 0 <= i < |job.objects| ==> KnownKind(job.objects[i].kind))
    && w.parse(job.manifest).Some?
    && w.parse(job.manifest).value.refs == Some(JobRefs(w, job))
    && Accepts(w, w.parse(job.manifest).value, job.id)
  }

  // ---------- reading side ----------

  predicate ObjectIntact(w: World, objects: map<Ref, Bytes>, ref: Ref) {
    KnownKind(ref.kind) && ref in objects && w.sha(objects[ref]) == ref.digest
  }

  predicate RefsIntact(w: World, objects: map<Ref, Bytes>, refs: seq<Ref>) {
    forall i :: 0 <= i < |refs| ==> ObjectIntact(w, objects, refs[i])
  }

  /** The committed content, when the directory is complete and every referenced object hashes to its name. */
  function VerifyGraph(w: World, s: Store, commit: string): Option<Doc> {
    if commit !in s.commits then None
    else
      var dir := s.commits[commit];
      if MARKER !in dir || CONTENT !in dir then None
      else
        var doc :- w.parse(dir[CONTENT]);
        var refs :- doc.refs;
        if RefsIntact(w, s.objects, refs) then Some(doc) else None
  }

  /** Marker, content and every listed object under its own digest: that and nothing else is checked. */
  lemma VerifiesExactlyWhen(w: World, s: Store, commit: string)
    ensures VerifyGraph(w, s, commit).Some? <==>
      && commit in s.commits && MARKER in s.commits[commit] && CONTENT in s.commits[commit]
      && w.parse(s.commits[commit][CONTENT]).Some? && w.parse(s.commits[commit][CONTENT]).value.refs.Some?
      && forall ref :: ref in w.parse(s.commits[commit][CONTENT]).value.refs.value ==>
           && (ref.kind == "raw" || ref.kind == "checksum" || ref.kind == "normalized")
           && ref in s.objects && w.sha(s.objects[ref]) == ref.digest
    ensures VerifyGraph(w, s, commit).Some? ==> VerifyGraph(w, s, commit) == w.parse(s.commits[commit][CONTENT])
  {
    hide ObjectIntact;
    if commit in s.commits && MARKER in s.commits[commit] && CONTENT in s.commits[commit] {
      var doc := w.parse(s.commits[commit][CONTENT]);
      if doc.Some? && doc.value.refs.Some? {
        ListedAreIntact(w, s.objects, doc.value.refs.value);
      }
    }
  }

  lemma ListedAreIntact(w: World, objects: map<Ref, Bytes>, refs: seq<Ref>)
    ensures RefsIntact(w, objects, refs) <==>
      forall ref :: ref in refs ==>
        && (ref.kind == "raw" || ref.kind == "checksum" || ref.kind == "normalized")
        && ref in objects && w.sha(objects[ref]) == ref.digest
  {
    if RefsIntact(w, objects, refs) {
      forall ref | ref in refs
        ensures ObjectIntact(w, objects, ref)
      {
        var i :| 0 <= i < |refs| && refs[i] == ref;
      }
    } else {
      var i :| 0 <= i < |refs| && !ObjectIntact(w, objects, refs[i]);
      assert refs[i] in refs;
    }
  }

  /** The objects after one of them was overwritten, or removed when there is nothing to write. */
  function Tampered(objects: map<Ref, Bytes>, ref: Ref, bytes: Option<Bytes>): map<Ref, Bytes> {
    if bytes.Some? then objects[ref := bytes.value] else objects - {ref}
  }

  /**
   A verified commit stops verifying exactly when one of its listed objects is removed or overwritten
   by bytes with another hash; no other object matters.
   */
  lemma TamperingIsFound(w: World, s: Store, commit: string, ref: Ref, bytes: Option<Bytes>)
    requires VerifyGraph(w, s, commit).Some?
    ensures VerifyGraph(w, s.(objects := Tampered(s.objects, ref, bytes)), commit).None? <==>
      && ref in w.parse(s.commits[commit][CONTENT]).value.refs.value
      && (bytes.None? || w.sha(bytes.value) != ref.digest)
  {
    hide VerifyGraph;
    VerifiesExactlyWhen(w, s, commit);
    VerifiesExactlyWhen(w, s.(objects := Tampered(s.objects, ref, bytes)), commit);
  }

  /** The lane's published commit, when the pointer, its manifest and the whole graph agree. */
  function Verified(w: World, s: Store): Option<string> {
    var pointer :- s.current;
    var doc :- VerifyGraph(w, s, pointer.commit);
    var dir := s.commits[pointer.commit];
    if && MANIFEST in dir
       && w.sha(dir[MANIFEST]) == pointer.manifestDigest
       && w.parse(dir[MANIFEST]) == Some(doc)
       && Accepts(w, doc, pointer.commit)
    then Some(pointer.commit) else None
  }

  /** The lane counts as published exactly when pointer, manifest bytes and lane identity all agree. */
  lemma VerifiedExactlyWhen(w: World, s: Store, commit: string)
    ensures Verified(w, s) == Some(commit) <==>
      && s.current.Some? && s.current.value.commit == commit
      && VerifyGraph(w, s, commit).Some?
      && MANIFEST in s.commits[commit]
      && w.sha(s.commits[commit][MANIFEST]) == s.current.value.manifestDigest
      && w.parse(s.commits[commit][MANIFEST]) == w.parse(s.commits[commit][CONTENT])
      && var doc := w.parse(s.commits[commit][CONTENT]).value;
      && |commit| == 64 && (forall i :: 0 <= i < |commit| ==> '0' <= commit[i] <= '9' || 'a' <= commit[i] <= 'f')
      && (forall k :: k in w.identity ==> k in doc.fields && doc.fields[k] == w.identity[k])
      && HASH_FIELD in doc.fields && doc.fields[HASH_FIELD] == commit
  {
    hide VerifyGraph;
    if s.current.Some? {
      VerifiesExactlyWhen(w, s, s.current.value.commit);
    }
    VerifiesExactlyWhen(w, s, commit);
  }

  /** An existing commit directory is the one this job would have written. */
  predicate Matches(w: World, s: Store, job: Job) {
    var found := VerifyGraph(w, s, job.id);
    && found.Some? && w.parse(job.manifest).Some?
    && (forall k :: k in w.parse(job.manifest).value.fields ==>
          k in found.value.fields && found.value.fields[k] == w.parse(job.manifest).value.fields[k])
    && MANIFEST in s.commits[job.id] && s.commits[job.id][MANIFEST] == job.manifest
  }

  // ---------- what every reachable store satisfies ----------

  ghost predicate ObjectsSound(w: World, objects: map<Ref, Bytes>) {
    forall ref :: ref in objects ==> KnownKind(ref.kind) && w.sha(objects[ref]) == ref.digest
  }

  /** A committed directory holds exactly one attempt's files, and its objects are all stored. */
  ghost predicate CommitSound(w: World, objects: map<Ref, Bytes>, dir: Directory) {
    && MANIFEST in dir && dir == CommitFiles(dir[MANIFEST])
    && w.parse(dir[MANIFEST]).Some?
    && w.parse(dir[MANIFEST]).value.refs.Some?
    && RefsIntact(w, objects, w.parse(dir[MANIFEST]).value.refs.value)
  }

  ghost predicate CommitsSound(w: World, s: Store) {
    forall id :: id in s.commits ==> CommitSound(w, s.objects, s.commits[id])
  }

  ghost predicate PointerSound(w: World, s: Store) {
    s.current.Some? ==>
      && s.current.value.commit in s.commits
      && MANIFEST in s.commits[s.current.value.commit]
      && s.current.value.manifestDigest == w.sha(s.commits[s.current.value.commit][MANIFEST])
  }

  ghost predicate Sound(w: World, s: Store) {
    ObjectsSound(w, s.objects) && CommitsSound(w, s) && PointerSound(w, s)
  }

  /** Nothing stored or committed is ever changed or removed. */
  ghost predicate Extends(s: Store, t: Store) {
    && (forall ref :: ref in s.objects ==> ref in t.objects && t.objects[ref] == s.objects[ref])
    && (forall id :: id in s.commits ==> id in t.commits && t.commits[id] == s.commits[id])
  }

  lemma ExtendsTransitive(s: Store, t: Store, u: Store)
    requires Extends(s, t) && Extends(t, u)
    ensures Extends(s, u)
  {
  }

  lemma RefsStayIntact(w: World, s: Store, t: Store, refs: seq<Ref>)
    requires Extends(s, t) && RefsIntact(w, s.objects, refs)
    ensures RefsIntact(w, t.objects, refs)
  {
  }

  lemma CommitStaysSound(w: World, s: Store, t: Store, dir: Directory)
    requires Extends(s, t) && CommitSound(w, s.objects, dir)
    ensures CommitSound(w, t.objects, dir)
  {
    RefsStayIntact(w, s, t, w.parse(dir[MANIFEST]).value.refs.value);
  }

  /** In a sound store every commit directory verifies, and a pointer therefore always reads. */
  lemma SoundCommitVerifies(w: World, s: Store, id: string)
    requires Sound(w, s) && id in s.commits
    ensures VerifyGraph(w, s, id) == w.parse(s.commits[id][MANIFEST])
    ensures VerifyGraph(w, s, id).Some?
  {
    assert CommitSound(w, s.objects, s.commits[id]);
  }

  /**
   Reason a job can never get through: its commit name or an object address is already taken by
   other bytes, or two of its own payloads share an address.
   */
  ghost predicate Blocked(w: World, s: Store, job: Job) {
    || (job.id in s.commits && s.commits[job.id] != CommitFiles(job.manifest))
    || (exists i :: 0 <= i < |job.objects| && RefOf(w, job.objects[i]) in s.objects
                    && s.objects[RefOf(w, job.objects[i])] != job.objects[i].payload)
    || SelfColliding(w, job)
  }

  ghost predicate SelfColliding(w: World, job: Job) {
    exists i, j :: 0 <= i < |job.objects| && 0 <= j < |job.objects|
      && RefOf(w, job.objects[i]) == RefOf(w, job.objects[j]) && job.objects[i].payload != job.objects[j].payload
  }

  lemma SoundMatch(w: World, s: Store, job: Job)
    requires Sound(w, s) && WellFormed(w, job) && job.id in s.commits
    ensures Matches(w, s, job) <==> s.commits[job.id] == CommitFiles(job.manifest)
  {
    SoundCommitVerifies(w, s, job.id);
  }
}
