/**
 The evaluation lock: a file created exclusively, filled with its owner's id, and removed only after
 reading that id back.  Any number of attempts interleave, any operation may fail, and any attempt
 may crash between two operations.
 */
module EvaluationLock {
  import opened Wrappers

  datatype Content = Torn | Owner(id: string)

  /** The lock file.  `creator` identifies the file itself; the program never reads it. */
  datatype LockFile = LockFile(creator: string, content: Content)

  datatype Pc =
    | Ready          // about to create the file exclusively
    | Created        // created it, owner evidence not durable yet
    | Cleaning       // evidence failed, about to remove the file just created
    | Working        // past acquisition; publication and clean-up code runs here
    | Checking | Reading | Unlinking  // inside the release routine
    | Exited | Crashed

  datatype Attempt = Attempt(pc: Pc, acquired: bool, released: bool, releases: nat)

  datatype State = State(lock: Option<LockFile>, attempts: map<string, Attempt>, used: set<string>)

  datatype Step =
    | Start(id: string)
    | Create(id: string, fails: bool)
    | WriteOwner(id: string, fails: bool)
    | TearOwner(id: string)
    | CleanOwn(id: string, fails: bool)
    | CallRelease(id: string)
    | CheckLock(id: string)
    | ReadLock(id: string, fails: bool)
    | Unlink(id: string, fails: bool)
    | Exit(id: string)
    | Crash(id: string)

  function Put(s: State, id: string, a: Attempt): State {
    s.(attempts := s.attempts[id := a])
  }

  /** One operation of one attempt; a step that does not fit the attempt's position changes nothing. */
  function Apply(s: State, step: Step): State {
    if step.Start? then
      if step.id in s.used then s
      else s.(attempts := s.attempts[step.id := Attempt(Ready, false, false, 0)], used := s.used + {step.id})
    else if step.id !in s.attempts then s
    else
      var a := s.attempts[step.id];
      match step
      case Create(id, fails) =>
        if !a.pc.Ready? then s
        else if fails || s.lock.Some? then Put(s, id, a.(pc := Exited))
        else Put(s, id, a.(pc := Created)).(lock := Some(LockFile(id, Torn)))
      case TearOwner(id) =>
        if !a.pc.Created? || s.lock.None? then s else s.(lock := Some(s.lock.value.(content := Torn)))
      case WriteOwner(id, fails) =>
        if !a.pc.Created? then s
        else if fails || s.lock.None? then Put(s, id, a.(pc := Cleaning))
        else Put(s, id, a.(pc := Working, acquired := true)).(lock := Some(s.lock.value.(content := Owner(id))))
      case CleanOwn(id, fails) =>
        if !a.pc.Cleaning? then s
        else Put(s, id, a.(pc := Exited)).(lock := if fails then s.lock else None)
      case CallRelease(id) =>
        if !a.pc.Working? || !a.acquired || a.released then s else Put(s, id, a.(pc := Checking))
      case CheckLock(id) =>
        if !a.pc.Checking? then s
        else if s.lock.None? then Put(s, id, a.(pc := Working, released := true, releases := a.releases + 1))
        else Put(s, id, a.(pc := Reading))
      case ReadLock(id, fails) =>
        if !a.pc.Reading? then s
        else if fails || s.lock.None? || s.lock.value.content != Owner(id) then Put(s, id, a.(pc := Working))
        else Put(s, id, a.(pc := Unlinking))
      case Unlink(id, fails) =>
        if !a.pc.Unlinking? then s
        else if fails then Put(s, id, a.(pc := Working))
        else Put(s, id, a.(pc := Working, released := true, releases := a.releases + 1)).(lock := None)
      case Exit(id) => if a.pc.Working? then Put(s, id, a.(pc := Exited)) else s
      case Crash(id) => Put(s, id, a.(pc := Crashed))
  }

  /** Between acquisition and release, whether still running, exited with a failed clean-up, or crashed. */
  predicate Holds(a: Attempt) {
    a.acquired && !a.released
  }

  ghost predicate AttemptInv(s: State, id: string, a: Attempt) {
    && (a.pc.Ready? ==> !a.acquired)
    && (a.pc.Created? || a.pc.Cleaning? ==> !a.acquired && s.lock.Some? && s.lock.value.creator == id)
    && (a.pc.Checking? || a.pc.Reading? || a.pc.Unlinking? ==> Holds(a))
    && (Holds(a) ==> s.lock == Some(LockFile(id, Owner(id))))
    && a.releases == (if a.released then 1 else 0)
    && (a.released ==> a.acquired)
  }

  ghost predicate Inv(s: State) {
    && (s.lock.Some? ==> s.lock.value.creator in s.used)
    && forall id :: id in s.attempts ==> id in s.used && AttemptInv(s, id, s.attempts[id])
  }

  /** A fresh lane may already hold a lock left behind by someone else. */
  ghost predicate Initial(s: State) {
    s.attempts == map[] && s.used == if s.lock.Some? then {s.lock.value.creator} else {}
  }

  lemma StepKeepsInv(s: State, step: Step)
    requires Inv(s)
    ensures Inv(Apply(s, step))
  {
    var t := Apply(s, step);
    forall id | id in t.attempts
      ensures id in t.used && AttemptInv(t, id, t.attempts[id])
    {
      if id in s.attempts {
        assert AttemptInv(s, id, s.attempts[id]);
      }
      if step.id in s.attempts {
        assert AttemptInv(s, step.id, s.attempts[step.id]);
      }
    }
  }

  ghost predicate Run(states: seq<State>, steps: seq<Step>) {
    && |states| == |steps| + 1 && Initial(states[0])
    && forall i :: 0 <= i < |steps| ==> states[i + 1] == Apply(states[i], steps[i])
  }

  lemma {:induction false} RunInv(states: seq<State>, steps: seq<Step>, n: nat)
    requires Run(states, steps) && n < |states|
    ensures Inv(states[n])
  {
    hide Inv, Apply;
    if n == 0 {
      InitialInv(states[0]);
    } else {
      RunInv(states, steps, n - 1);
      StepKeepsInv(states[n - 1], steps[n - 1]);
    }
  }

  lemma InitialInv(s: State)
    requires Initial(s)
    ensures Inv(s)
  {
  }

  /** At every moment of every run at most one attempt holds the lock, and the file then carries its id. */
  lemma AtMostOneHolder(states: seq<State>, steps: seq<Step>, n: nat, id: string, other: string)
    requires Run(states, steps) && n < |states|
    requires id in states[n].attempts && other in states[n].attempts
    requires Holds(states[n].attempts[id])
    ensures states[n].lock == Some(LockFile(id, Owner(id)))
    ensures Holds(states[n].attempts[other]) ==> other == id
    ensures states[n].attempts[id].releases == 0
  {
    RunInv(states, steps, n);
    assert AttemptInv(states[n], id, states[n].attempts[id]);
    assert AttemptInv(states[n], other, states[n].attempts[other]);
  }

  /** A step that makes the lock file disappear is taken by the attempt that created that file. */
  lemma OnlyCreatorRemoves(states: seq<State>, steps: seq<Step>, n: nat)
    requires Run(states, steps) && n < |steps|
    requires states[n].lock.Some?
    ensures if states[n + 1].lock.Some? then states[n + 1].lock.value.creator == states[n].lock.value.creator
            else steps[n].id == states[n].lock.value.creator
  {
    RunInv(states, steps, n);
    if steps[n].id in states[n].attempts {
      assert AttemptInv(states[n], steps[n].id, states[n].attempts[steps[n].id]);
    }
  }

  /** No attempt ever releases twice. */
  lemma ReleasedAtMostOnce(states: seq<State>, steps: seq<Step>, n: nat, id: string)
    requires Run(states, steps) && n < |states| && id in states[n].attempts
    ensures states[n].attempts[id].releases <= 1
    ensures states[n].attempts[id].releases == 1 <==> states[n].attempts[id].released
  {
    RunInv(states, steps, n);
    assert AttemptInv(states[n], id, states[n].attempts[id]);
  }

  /** The attempt can make no further step. */
  predicate Gone(s: State, id: string) {
    id in s.used && (id in s.attempts ==> s.attempts[id].pc.Exited? || s.attempts[id].pc.Crashed?)
  }

  /**
   A lock whose creator is gone, crashed or exited with a failed clean-up, stays for ever: from then
   on the file never changes and nobody acquires.
   */
  lemma {:induction false} StaleLockStays(states: seq<State>, steps: seq<Step>, m: nat, n: nat, id: string)
    requires Run(states, steps) && m <= n < |states|
    requires states[m].lock.Some? && Gone(states[m], states[m].lock.value.creator)
    ensures states[n].lock == states[m].lock && Gone(states[n], states[m].lock.value.creator)
    ensures id in states[n].attempts && Holds(states[n].attempts[id]) ==>
      id in states[m].attempts && Holds(states[m].attempts[id])
  {
    if m < n {
      StaleLockStays(states, steps, m, n - 1, id);
      RunInv(states, steps, n - 1);
      StaleStep(states[n - 1], steps[n - 1], id);
    }
  }

  lemma StaleStep(s: State, step: Step, id: string)
    requires Inv(s) && s.lock.Some? && Gone(s, s.lock.value.creator)
    ensures Apply(s, step).lock == s.lock && Gone(Apply(s, step), s.lock.value.creator)
    ensures id in Apply(s, step).attempts && Holds(Apply(s, step).attempts[id]) ==>
      id in s.attempts && Holds(s.attempts[id])
  {
    if step.id in s.attempts {
      assert AttemptInv(s, step.id, s.attempts[step.id]);
    }
  }

  // ---------- the same routines as code ----------

  datatype CleanUp = Pending | Nothing | Cleaned | CleanUpFailed

  datatype Exit = Acquired | Blocked | FailedEvidence

  /** The lock file's place on disk, shared by all attempts. */
  class LockPath {
    var lock: Option<LockFile>
  }

  /** One invocation's milestones.  Whether each operation fails is decided by the environment. */
  class EvaluationAttempt {
    const id: string
    const path: LockPath
    var lockAcquired: bool
    var lockReleased: bool
    var cleanUp: CleanUp

    constructor (id: string, path: LockPath)
      ensures this.id == id && this.path == path
      ensures !lockAcquired && !lockReleased && cleanUp == Pending
    {
      this.id, this.path := id, path;
      lockAcquired, lockReleased, cleanUp := false, false, Pending;
    }

    /** What the protocol says about this attempt standing at the given position. */
    ghost function View(pc: Pc, used: set<string>): State
      reads this, path
    {
      State(path.lock, map[id := Attempt(pc, lockAcquired, lockReleased, if lockReleased then 1 else 0)], used)
    }

    method Acquire(createFails: bool, writeFails: bool, unlinkFails: bool) returns (r: Exit)
      requires !lockAcquired && !lockReleased
      modifies this, path
      ensures lockReleased == old(lockReleased) && (lockAcquired <==> r.Acquired?)
      ensures var created := Apply(old(View(Ready, {id})), Create(id, createFails));
        if created.attempts[id].pc.Exited? then r.Blocked? && View(Exited, {id}) == created
        else
          var written := Apply(created, WriteOwner(id, writeFails));
          if written.attempts[id].pc.Working? then r.Acquired? && View(Working, {id}) == written
          else r.FailedEvidence? && View(Exited, {id}) == Apply(written, CleanOwn(id, unlinkFails))
    {
      if createFails || path.lock.Some? {
        cleanUp := Nothing;
        return Blocked;
      }
      path.lock := Some(LockFile(id, Torn));
      if writeFails {
        if !unlinkFails {
          path.lock := None;
        }
        cleanUp := if path.lock.None? then Cleaned else CleanUpFailed;
        return FailedEvidence;
      }
      path.lock := Some(LockFile(id, Owner(id)));
      lockAcquired := true;
      r := Acquired;
    }

    /** Read the file back, and remove it only when it carries this attempt's id. */
    method ReleaseLock(readFails: bool, unlinkFails: bool)
      modifies this, path
      ensures lockAcquired == old(lockAcquired)
      ensures View(Working, {id}) ==
        Apply(Apply(Apply(Apply(old(View(Working, {id})), CallRelease(id)), CheckLock(id)), ReadLock(id, readFails)), Unlink(id, unlinkFails))
      ensures path.lock != old(path.lock) ==> old(path.lock).Some? && old(path.lock).value.content == Owner(id)
    {
      if lockAcquired && !lockReleased {
        if path.lock.Some? {
          if readFails || path.lock.value.content != Owner(id) || unlinkFails {
            cleanUp := CleanUpFailed;
          } else {
            path.lock := None;
            lockReleased, cleanUp := true, Cleaned;
          }
        } else {
          lockReleased, cleanUp := true, Cleaned;
        }
      }
    }
  }
}
