/** One installer running on its own, statement by statement: every run of it is a run of the step system. */
module InstallWriter {
  import opened Bytes
  import opened Distribution
  import opened Candidate
  import opened Directory
  import opened InstallStore
  import opened InstallProgress
  import opened TreeDigest

  /** Where the call has got to after `k` of its steps and nobody else's. */
  function Alone(c: Call, start: Store, choices: nat -> Choice, k: nat): At {
    if k == 0 then At(start, Requested) else Move(c, Alone(c, start, choices, k - 1), choices(k - 1))
  }

  /** Where a failed verification of a root leads: without a quarantine path straight to the lock. */
  function Rejected(purpose: Purpose, error: StoreError): Phase {
    match purpose
    case Reuse => Unlocking(Failed(error))
    case AfterPromotion(attempt) => Cleaning(attempt, Return(Failed(error)))
    case AfterRace(attempt) => Cleaning(attempt, Return(Failed(error)))
  }

  class StoreDirectory {
    var locks: set<Text>
    var staging: map<Slot, Tree>
    var roots: map<Text, Tree>

    function State(): Store
      reads this
    {
      Store(locks, staging, roots)
    }
  }

  /** The state of one `install_bundle_with_publisher` call. */
  class InstallCall {
    const store: StoreDirectory
    const call: Call
    const choices: nat -> Choice
    ghost const start: Store
    ghost const settled: nat
    var steps: nat

    /** The call is not killed, and recursive removal is not split any more from some step on. */
    constructor (store: StoreDirectory, call: Call, choices: nat -> Choice, ghost settled: nat)
      requires forall i :: !choices(i).Crash? && (settled <= i ==> !choices(i).Keep?)
      ensures this.store == store && this.call == call && this.choices == choices && start == store.State()
      ensures Reached(Requested)
    {
      this.store, this.call, this.choices, this.settled := store, call, choices, settled;
      start := store.State();
      steps := 0;
    }

    /** The call has reached this phase by the protocol's own steps. */
    ghost predicate Reached(phase: Phase)
      reads this, store
    {
      && (forall i :: !choices(i).Crash? && (settled <= i ==> !choices(i).Keep?))
      && Alone(call, start, choices, steps) == At(store.State(), phase)
    }

    /** How the next operation goes; each operation asks once. */
    method Ask(ghost phase: Phase) returns (choice: Choice)
      requires Reached(phase)
      modifies this
      ensures steps == old(steps) + 1 && choice == choices(old(steps))
      ensures Alone(call, start, choices, steps) == Move(call, At(old(store.State()), phase), choice)
    {
      choice := choices(steps);
      steps := steps + 1;
    }

    /** The checks before the lock, and the lock file itself. */
    method AcquireLock() returns (error: Option<StoreError>)
      requires Reached(Requested)
      modifies this, store
      ensures Reached(if error.None? then Locked else Finished(Failed(error.value)))
    {
      hide Alone;
      var subject := call.bundle.subject;
      var choice := Ask(Requested);
      if call.publisher.Some? && call.publisher.value.subject != subject {
        return Some(PublisherSubjectMismatch);
      }
      if choice.IoFailure? {
        return Some(StoreChanged);
      }
      var reserved := FindReserved();
      if reserved {
        return Some(ReservedMetadataPath);
      }
      if subject in store.locks {
        return Some(SubjectLocked);
      }
      store.locks := store.locks + {subject};
      choice := Ask(LockMade);
      if choice.IoFailure? {
        return Some(Io);
      }
      if choice.UnsafeMetadata? {
        store.locks := store.locks - {subject};
        return Some(StorePathUnsafe);
      }
      return None;
    }

    /** `reject_reserved_paths`. */
    method FindReserved() returns (found: bool)
      ensures found == HasReservedPath(call.bundle)
    {
      var reserved := LowerCase(RECORD_PATH);
      for i := 0 to |call.bundle.files|
        invariant forall k :: 0 <= k < i ==> !IsReserved(call.bundle.files[k].path)
      {
        var key := LowerCase(call.bundle.files[i].path);
        if key == reserved || (|key| > |reserved| && key[..|reserved| + 1] == reserved + [SLASH]) {
          return true;
        }
      }
      return false;
    }

    /** `path_exists_no_follow` on the subject's root. */
    method LookForRoot() returns (found: Result<bool, StoreError>)
      requires Reached(Locked)
      modifies this
      ensures Reached(match found
                      case Success(present) => if present then RootInspect(Reuse) else StagingAttempt(0)
                      case Failure(error) => Unlocking(Failed(error)))
    {
      hide Alone, MaterializeStep, StageStep, RootStep, LateStep;
      var choice := Ask(Locked);
      return if choice.IoFailure? then Failure(Io) else Success(call.bundle.subject in store.roots);
    }

    /** `create_staging`: the first attempt number whose directory does not exist. */
    method CreateStaging() returns (r: Result<nat, StoreError>)
      requires Reached(StagingAttempt(0))
      modifies this, store
      ensures Reached(if r.Success? then NextFile(r.value, 0, |call.bundle.files|) else Unlocking(Failed(r.error)))
    {
      hide Alone, StageStep, RootStep, LateStep;
      var attempt := 0;
      while attempt < 1024
        invariant attempt <= 1024 && Reached(StagingAttempt(attempt))
      {
        var choice := Ask(StagingAttempt(attempt));
        if choice.IoFailure? {
          return Failure(Io);
        }
        var slot := Slot(call.bundle.subject, attempt);
        if slot !in store.staging {
          store.staging := store.staging[slot := map[]];
          choice := Ask(StagingMade(attempt));
          return if choice.IoFailure? then Failure(Io) else Success(attempt);
        }
        attempt := attempt + 1;
      }
      var choice := Ask(StagingAttempt(attempt));
      return Failure(StagingUnavailable);
    }

    // ----- materialising the bundle

    /** The directories above one file, from the root down; every byte scanned is a step. */
    method MakeParents(attempt: nat, i: nat) returns (error: Option<StoreError>)
      requires i < |call.bundle.files| && Reached(Parents(attempt, i, 0))
      modifies this, store
      ensures Reached(if error.None? then Creating(attempt, i) else Cleaning(attempt, Return(Failed(error.value))))
    {
      hide Alone, EarlyStep, StageStep, RootStep, LateStep;
      var slot, p := Slot(call.bundle.subject, attempt), call.bundle.files[i].path;
      var k := 0;
      while k < |p|
        invariant 0 <= k <= |p| && Reached(Parents(attempt, i, k))
      {
        var choice := Ask(Parents(attempt, i, k));
        if choice.IoFailure? || slot !in store.staging {
          return Some(Io);
        }
        if p[k] == SLASH {
          var tree := store.staging[slot];
          if p[..k] !in tree {
            store.staging := store.staging[slot := tree[p[..k] := Dir]];
          } else if !tree[p[..k]].Dir? {
            return Some(StorePathUnsafe);
          }
        }
        k := k + 1;
      }
      var choice := Ask(Parents(attempt, i, k));
      return if choice.IoFailure? || slot !in store.staging then Some(Io) else None;
    }

    method CreateFile(attempt: nat, i: nat) returns (error: Option<StoreError>)
      requires i < |call.bundle.files| && Reached(Creating(attempt, i))
      modifies this, store
      ensures Reached(if error.None? then Writing(attempt, i, 0) else Cleaning(attempt, Return(Failed(error.value))))
    {
      hide Alone, EarlyStep, StageStep, RootStep, LateStep;
      var slot, p := Slot(call.bundle.subject, attempt), call.bundle.files[i].path;
      var choice := Ask(Creating(attempt, i));
      if choice.IoFailure? || slot !in store.staging {
        return Some(Io);
      }
      if p in store.staging[slot] {
        return Some(MaterializationConflict(p));
      }
      store.staging := store.staging[slot := store.staging[slot][p := File([], 1)]];
      return None;
    }

    /** The file is written piece by piece. */
    method FillFile(attempt: nat, i: nat) returns (error: Option<StoreError>)
      requires i < |call.bundle.files| && Reached(Writing(attempt, i, 0))
      modifies this, store
      ensures Reached(if error.None? then NextFile(attempt, i + 1, |call.bundle.files|)
                      else Cleaning(attempt, Return(Failed(error.value))))
    {
      hide Alone, EarlyStep, StageStep, RootStep, LateStep, NextFile;
      var slot, f := Slot(call.bundle.subject, attempt), call.bundle.files[i];
      var written := 0;
      while written < |f.bytes|
        invariant 0 <= written <= |f.bytes| && Reached(Writing(attempt, i, written))
      {
        var choice := Ask(Writing(attempt, i, written));
        if choice.IoFailure? || slot !in store.staging {
          return Some(Io);
        }
        written := written + 1 + (if choice.Chunk? then choice.size else 0);
        if written > |f.bytes| {
          written := |f.bytes|;
        }
        store.staging := store.staging[slot := store.staging[slot][f.path := File(f.bytes[..written], 1)]];
      }
      var choice := Ask(Writing(attempt, i, written));
      return if choice.IoFailure? || slot !in store.staging then Some(Io) else None;
    }

    method Materialise(attempt: nat) returns (error: Option<StoreError>)
      requires Reached(NextFile(attempt, 0, |call.bundle.files|))
      modifies this, store
      ensures Reached(if error.None? then StageInspect(attempt) else Cleaning(attempt, Return(Failed(error.value))))
    {
      hide Alone, StepOf;
      for i := 0 to |call.bundle.files|
        invariant Reached(NextFile(attempt, i, |call.bundle.files|))
      {
        error := MakeParents(attempt, i);
        if error.Some? {
          return;
        }
        error := CreateFile(attempt, i);
        if error.Some? {
          return;
        }
        error := FillFile(attempt, i);
        if error.Some? {
          return;
        }
      }
      return None;
    }

    // ----- reverification, the record, the rename

    /** The quarantine tree is inspected and read back, and its contents verified once more. */
    method Reverify(attempt: nat) returns (error: Option<StoreError>)
      requires Reached(StageInspect(attempt))
      modifies this, store
      ensures Reached(if error.None? then RecordCreate(attempt) else Cleaning(attempt, Return(Failed(error.value))))
    {
      hide Alone, EarlyStep, MaterializeStep, RootStep, LateStep, InspectTree, ReadDeclared, Verify, RecordBytes,
           ManifestFromVerified;
      var b, slot := call.bundle, Slot(call.bundle.subject, attempt);
      var manifest := ManifestFromVerified(b);
      var choice := Ask(StageInspect(attempt));
      if choice.IoFailure? || slot !in store.staging {
        return Some(Io);
      }
      if manifest.Failure? {
        return Some(ManifestReconstruction);
      }
      var seen := InspectTree(store.staging[slot], manifest.value, None);
      if seen.Failure? {
        return Some(StageVerification(seen.error));
      }
      var got: seq<CandidateFile> := [];
      while |got| < |manifest.value.files|
        invariant |got| <= |manifest.value.files| && Reached(StageReading(attempt, got))
        decreases |manifest.value.files| - |got|
      {
        choice := Ask(StageReading(attempt, got));
        if choice.IoFailure? || slot !in store.staging {
          return Some(Io);
        }
        var p := manifest.value.files[|got|].path;
        var bytes := ReadDeclaredFile(store.staging[slot], p, MAX_BUNDLE_FILE_BYTES);
        if bytes.Failure? {
          return Some(StageVerification(bytes.error));
        }
        got := got + [CandidateFile(p, bytes.value)];
      }
      choice := Ask(StageReading(attempt, got));
      if choice.IoFailure? || slot !in store.staging {
        return Some(Io);
      }
      var verdict := VerifyCandidate(call.env.hash, manifest.value, b.subject, b.subject, got);
      return if verdict.Failure? then Some(ContentVerification(verdict.error)) else None;
    }

    /** `installation_record_bytes`. */
    method BuildRecord() returns (r: Result<Text, StoreError>)
      ensures r == RecordBytes(call.env, call.bundle, call.publisher)
    {
      var b := call.bundle;
      if call.publisher.Some? && call.publisher.value.subject != b.subject {
        return Failure(PublisherSubjectMismatch);
      }
      var files: seq<BundleFile> := [];
      for i := 0 to |b.files|
        invariant files == RecordsOf(b)[..i]
      {
        files := files + [BundleFile(b.files[i].path, |b.files[i].bytes|, b.files[i].digest)];
      }
      assert RecordsOf(b)[..|b.files|] == RecordsOf(b);
      var rootIdentity := Ascii("sha256") + [SLASH] + b.subject;
      var treeDigest := InstalledTreeDigest(b, call.env.hash);
      var record := if call.publisher.None? then RecordV1(b.subject, b.entryPoint, rootIdentity, treeDigest, files)
                    else RecordV2(b.subject, b.entryPoint, rootIdentity, treeDigest, call.publisher.value, files);
      var bytes := call.env.encode(record) + [10];
      return if |bytes| > 2_097_152 then Failure(RecordTooLarge) else Success(bytes);
    }

    method CreateRecord(attempt: nat) returns (r: Result<Text, StoreError>)
      requires Reached(RecordCreate(attempt))
      modifies this, store
      ensures Reached(if r.Success? then RecordWriting(attempt, r.value, 0)
                      else Cleaning(attempt, Return(Failed(r.error))))
    {
      hide Alone, EarlyStep, MaterializeStep, RootStep, LateStep, InspectTree, ReadDeclared, Verify, RecordBytes,
           ManifestFromVerified, RECORD_PATH;
      var slot := Slot(call.bundle.subject, attempt);
      r := BuildRecord();
      var choice := Ask(RecordCreate(attempt));
      if choice.IoFailure? || slot !in store.staging {
        return Failure(Io);
      }
      if r.Failure? {
        return;
      }
      if RECORD_PATH in store.staging[slot] {
        return Failure(MaterializationConflict(RECORD_PATH));
      }
      store.staging := store.staging[slot := store.staging[slot][RECORD_PATH := File([], 1)]];
    }

    method FillRecord(attempt: nat, bytes: Text) returns (error: Option<StoreError>)
      requires Reached(RecordWriting(attempt, bytes, 0))
      modifies this, store
      ensures Reached(if error.None? then RecordCheck(attempt, bytes)
                      else Cleaning(attempt, Return(Failed(error.value))))
    {
      hide Alone, EarlyStep, MaterializeStep, RootStep, LateStep, InspectTree, ReadDeclared, Verify, RecordBytes,
           ManifestFromVerified, RECORD_PATH;
      var slot, written := Slot(call.bundle.subject, attempt), 0;
      while written < |bytes|
        invariant 0 <= written <= |bytes| && Reached(RecordWriting(attempt, bytes, written))
      {
        var choice := Ask(RecordWriting(attempt, bytes, written));
        if choice.IoFailure? || slot !in store.staging {
          return Some(Io);
        }
        written := written + 1 + (if choice.Chunk? then choice.size else 0);
        if written > |bytes| {
          written := |bytes|;
        }
        store.staging := store.staging[slot := store.staging[slot][RECORD_PATH := File(bytes[..written], 1)]];
      }
      var choice := Ask(RecordWriting(attempt, bytes, written));
      return if choice.IoFailure? || slot !in store.staging then Some(Io) else None;
    }

    /** The record is created, written and read back. */
    method WriteRecord(attempt: nat) returns (error: Option<StoreError>)
      requires Reached(RecordCreate(attempt))
      modifies this, store
      ensures Reached(if error.None? then Promote(attempt) else Cleaning(attempt, Return(Failed(error.value))))
    {
      hide Alone, EarlyStep, MaterializeStep, RootStep, LateStep, InspectTree, ReadDeclared, Verify, RecordBytes,
           ManifestFromVerified, RECORD_PATH;
      var slot := Slot(call.bundle.subject, attempt);
      var record := CreateRecord(attempt);
      if record.Failure? {
        return Some(record.error);
      }
      error := FillRecord(attempt, record.value);
      if error.Some? {
        return;
      }
      var choice := Ask(RecordCheck(attempt, record.value));
      if choice.IoFailure? || slot !in store.staging {
        return Some(Io);
      }
      var back := ReadDeclaredFile(store.staging[slot], RECORD_PATH, 2_097_152);
      return if back != Success(record.value) then Some(RecordMismatch) else None;
    }

    /** `stage_bundle`. */
    method StageBundle(attempt: nat) returns (error: Option<StoreError>)
      requires Reached(NextFile(attempt, 0, |call.bundle.files|))
      modifies this, store
      ensures Reached(if error.None? then Promote(attempt) else Cleaning(attempt, Return(Failed(error.value))))
    {
      hide Alone, StepOf;
      error := Materialise(attempt);
      if error.Some? {
        return;
      }
      error := Reverify(attempt);
      if error.Some? {
        return;
      }
      error := WriteRecord(attempt);
    }

    /** The rename: done, beaten to it by another root, or failed. */
    method PublishStage(attempt: nat) returns (r: Result<bool, StoreError>)
      requires Reached(Promote(attempt))
      modifies this, store
      ensures Reached(match r
                      case Success(renamed) =>
                        if renamed then RootInspect(AfterPromotion(attempt))
                        else Cleaning(attempt, VerifyRace(attempt))
                      case Failure(error) => Cleaning(attempt, Return(Failed(error))))
    {
      hide Alone, EarlyStep, MaterializeStep, RootStep, LateStep, InspectTree, ReadDeclared, Verify, RecordBytes,
           ManifestFromVerified;
      var subject, slot := call.bundle.subject, Slot(call.bundle.subject, attempt);
      var choice := Ask(Promote(attempt));
      if slot !in store.staging {
        return Failure(Io);
      }
      if choice.UnsafeMetadata? {
        return Failure(StoreChanged);
      }
      if choice.IoFailure? || (subject in store.roots && store.roots[subject] != map[]) {
        return if subject in store.roots then Success(false) else Failure(Io);
      }
      store.roots := store.roots[subject := store.staging[slot]];
      store.staging := store.staging - {slot};
      return Success(true);
    }

    method InspectRoot(purpose: Purpose) returns (error: Option<StoreError>)
      requires Reached(RootInspect(purpose))
      modifies this
      ensures error.None? ==> ManifestFromVerified(call.bundle).Success? && call.bundle.subject in store.roots
      ensures Reached(if error.None? then RootReading(purpose, []) else Rejected(purpose, error.value))
    {
      hide Alone, EarlyStep, MaterializeStep, StageStep, LateStep, InspectTree, ReadDeclared, Verify, RecordBytes,
           ManifestFromVerified, RECORD_PATH;
      var b := call.bundle;
      var manifest := ManifestFromVerified(b);
      var choice := Ask(RootInspect(purpose));
      if choice.IoFailure? {
        return Some(if purpose.AfterPromotion? then Io else ExistingInstallationMismatch);
      }
      if manifest.Failure? || b.subject !in store.roots {
        return Some(ExistingInstallationMismatch);
      }
      var seen := InspectTree(store.roots[b.subject], manifest.value, Some((RECORD_PATH, 2_097_152)));
      return if seen.Failure? then Some(ExistingInstallationMismatch) else None;
    }

    /** One declared file of the root is read. */
    method ReadRootFile(purpose: Purpose, manifest: BundleManifest, got: seq<CandidateFile>)
      returns (r: Result<CandidateFile, StoreError>)
      requires ManifestFromVerified(call.bundle) == Success(manifest) && call.bundle.subject in store.roots
      requires Reached(RootReading(purpose, got)) && |got| < |manifest.files|
      modifies this
      ensures Reached(if r.Success? then RootReading(purpose, got + [r.value]) else Rejected(purpose, r.error))
    {
      hide Alone, EarlyStep, MaterializeStep, StageStep, LateStep, InspectTree, ReadDeclared, Verify, RecordBytes,
           ManifestFromVerified, RECORD_PATH;
      var choice := Ask(RootReading(purpose, got));
      if choice.IoFailure? {
        return Failure(ExistingInstallationMismatch);
      }
      var p := manifest.files[|got|].path;
      var bytes := ReadDeclaredFile(store.roots[call.bundle.subject], p, MAX_BUNDLE_FILE_BYTES);
      return if bytes.Failure? then Failure(ExistingInstallationMismatch)
             else Success(CandidateFile(p, bytes.value));
    }

    method JudgeRoot(purpose: Purpose, manifest: BundleManifest, got: seq<CandidateFile>)
      returns (error: Option<StoreError>)
      requires ManifestFromVerified(call.bundle) == Success(manifest) && call.bundle.subject in store.roots
      requires Reached(RootReading(purpose, got)) && |got| >= |manifest.files|
      modifies this
      ensures Reached(if error.None? then RecordCompare(purpose) else Rejected(purpose, error.value))
    {
      hide Alone, EarlyStep, MaterializeStep, StageStep, LateStep, InspectTree, ReadDeclared, Verify, RecordBytes,
           ManifestFromVerified, RECORD_PATH;
      var b := call.bundle;
      var choice := Ask(RootReading(purpose, got));
      var verdict := VerifyCandidate(call.env.hash, manifest, b.subject, b.subject, got);
      return if choice.IoFailure? || verdict.Failure? then Some(ExistingInstallationMismatch) else None;
    }

    method CompareRecord(purpose: Purpose) returns (error: Option<StoreError>)
      requires ManifestFromVerified(call.bundle).Success? && call.bundle.subject in store.roots
      requires Reached(RecordCompare(purpose))
      modifies this
      ensures Reached(if error.None? then Unlocking(Installed(!purpose.AfterPromotion?))
                      else Rejected(purpose, error.value))
    {
      hide Alone, EarlyStep, MaterializeStep, StageStep, LateStep, InspectTree, ReadDeclared, Verify, RecordBytes,
           ManifestFromVerified, RECORD_PATH;
      var choice := Ask(RecordCompare(purpose));
      var expected := BuildRecord();
      if choice.IoFailure? || expected.Failure? {
        return Some(ExistingInstallationMismatch);
      }
      var record := ReadDeclaredFile(store.roots[call.bundle.subject], RECORD_PATH, 2_097_152);
      return if record != Success(expected.value) then Some(ExistingInstallationMismatch) else None;
    }

    /** `verify_existing_installation`: inspection, contents, record. */
    method VerifyExisting(purpose: Purpose) returns (error: Option<StoreError>)
      requires Reached(RootInspect(purpose))
      modifies this
      ensures Reached(if error.None? then Unlocking(Installed(!purpose.AfterPromotion?))
                      else Rejected(purpose, error.value))
    {
      hide Alone, StepOf, ManifestFromVerified;
      error := InspectRoot(purpose);
      if error.Some? {
        return;
      }
      var manifest := ManifestFromVerified(call.bundle).value;
      var got: seq<CandidateFile> := [];
      while |got| < |manifest.files|
        invariant |got| <= |manifest.files| && Reached(RootReading(purpose, got))
        decreases |manifest.files| - |got|
      {
        var next := ReadRootFile(purpose, manifest, got);
        if next.Failure? {
          return Some(next.error);
        }
        got := got + [next.value];
      }
      error := JudgeRoot(purpose, manifest, got);
      if error.Some? {
        return;
      }
      error := CompareRecord(purpose);
    }

    // ----- leaving

    /** `cleanup_staging`: the directory goes at once or in pieces, or the removal gives up. */
    method CleanUp(attempt: nat, next: Continuation)
      requires Reached(Cleaning(attempt, next))
      modifies this, store
      ensures Reached(match next
                      case Return(outcome) => Unlocking(outcome)
                      case VerifyRace(raced) => RootInspect(AfterRace(raced)))
    {
      hide Alone, EarlyStep, MaterializeStep, StageStep, RootStep;
      var slot := Slot(call.bundle.subject, attempt);
      while true
        invariant Reached(Cleaning(attempt, next))
        decreases if steps < settled then settled - steps else 0
      {
        var choice := Ask(Cleaning(attempt, next));
        if choice.IoFailure? || slot !in store.staging {
          return;
        }
        if !choice.Keep? {
          store.staging := store.staging - {slot};
          return;
        }
        var tree := store.staging[slot];
        store.staging := store.staging[slot := map p | p in tree && p in choice.nodes :: tree[p]];
      }
    }

    /** The lock guard's drop. */
    method Unlock(outcome: Outcome)
      requires Reached(Unlocking(outcome))
      modifies this, store
      ensures Reached(Finished(outcome))
    {
      hide Alone, EarlyStep, MaterializeStep, StageStep, RootStep;
      var choice := Ask(Unlocking(outcome));
      if !choice.IoFailure? {
        store.locks := store.locks - {call.bundle.subject};
      }
    }

    /** Cleaning up after `error`, then leaving with it. */
    method Abort(attempt: nat, error: StoreError)
      requires Reached(Cleaning(attempt, Return(Failed(error))))
      modifies this, store
      ensures Reached(Finished(Failed(error)))
    {
      hide Alone, StepOf;
      CleanUp(attempt, Return(Failed(error)));
      Unlock(Failed(error));
    }

    /** A root made by this call or met at the rename is verified; a failure cleans up first. */
    method Conclude(attempt: nat, renamed: bool) returns (outcome: Outcome)
      requires Reached(RootInspect(if renamed then AfterPromotion(attempt) else AfterRace(attempt)))
      modifies this, store
      ensures Reached(Finished(outcome))
    {
      hide Alone, StepOf;
      var error := VerifyExisting(if renamed then AfterPromotion(attempt) else AfterRace(attempt));
      if error.Some? {
        Abort(attempt, error.value);
        return Failed(error.value);
      }
      outcome := Installed(!renamed);
      Unlock(outcome);
    }

    /** `install_bundle_with_publisher`: every run of it is a run of the step system. */
    method InstallBundle() returns (outcome: Outcome)
      requires Reached(Requested)
      modifies this, store
      ensures Reached(Finished(outcome))
    {
      hide Alone, StepOf;
      var error := AcquireLock();
      if error.Some? {
        return Failed(error.value);
      }
      var existing := LookForRoot();
      if existing.Failure? {
        outcome := Failed(existing.error);
        Unlock(outcome);
        return;
      }
      if existing.value {
        error := VerifyExisting(Reuse);
        outcome := if error.Some? then Failed(error.value) else Installed(true);
        Unlock(outcome);
        return;
      }
      var staging := CreateStaging();
      if staging.Failure? {
        outcome := Failed(staging.error);
        Unlock(outcome);
        return;
      }
      var attempt := staging.value;
      error := StageBundle(attempt);
      if error.Some? {
        Abort(attempt, error.value);
        return Failed(error.value);
      }
      var renamed := PublishStage(attempt);
      if renamed.Failure? {
        Abort(attempt, renamed.error);
        return Failed(renamed.error);
      }
      if !renamed.value {
        CleanUp(attempt, VerifyRace(attempt));
      }
      outcome := Conclude(attempt, renamed.value);
    }
  }
}
