/**
 The content-addressed install store as a transition system: any number of
 installers, one filesystem operation per step, any operation failing, and any
 installer dying between two operations.
 */
module InstallStore {
  import opened Bytes
  import opened Distribution
  import opened Candidate
  import opened Directory
  import opened TreeDigest

  const RECORD_PATH: Text := Ascii(".invokrum-installation.json")

  const MAX_INSTALLATION_RECORD_BYTES: nat := 2_097_152
  const MAX_STAGING_ATTEMPTS: nat := 1024

  // ----- evidence

  datatype Publisher = Publisher(mechanism: Text, subject: Text, identity: map<Text, Text>)

  /** The two record formats; version 2 carries the authorised publisher. */
  datatype Record =
    | RecordV1(subject: Text, entryPoint: Text, rootIdentity: Text, treeDigest: Text, files: seq<BundleFile>)
    | RecordV2(subject: Text, entryPoint: Text, rootIdentity: Text, treeDigest: Text, publisher: Publisher,
               files: seq<BundleFile>)

  /** The deterministic collaborators: content digest and canonical record encoding. */
  datatype Env = Env(hash: Digester, encode: Record -> Text)

  datatype StoreError =
    | StoreChanged
    | StorePathUnsafe
    | ReservedMetadataPath
    | SubjectLocked
    | StagingUnavailable
    | MaterializationConflict(path: Text)
    | ManifestReconstruction
    | RecordTooLarge
    | PublisherSubjectMismatch
    | StageVerification(local: LocalError)
    | ContentVerification(candidate: CandidateError)
    | RecordMismatch
    | ExistingInstallationMismatch
    | Io

  function RootIdentity(subject: Text): Text {
    SHA256_ALGORITHM + [SLASH] + subject
  }

  function RecordFor(env: Env, b: VerifiedBundle, publisher: Option<Publisher>): Record {
    var digest := env.hash(PreImage(RecordsOf(b)));
    match publisher
    case None => RecordV1(b.subject, b.entryPoint, RootIdentity(b.subject), digest, RecordsOf(b))
    case Some(p) => RecordV2(b.subject, b.entryPoint, RootIdentity(b.subject), digest, p, RecordsOf(b))
  }

  /** `installation_record_bytes`: one canonical line, bounded. */
  function RecordBytes(env: Env, b: VerifiedBundle, publisher: Option<Publisher>): Result<Text, StoreError> {
    if publisher.Some? && publisher.value.subject != b.subject then Failure(PublisherSubjectMismatch)
    else
      var bytes := env.encode(RecordFor(env, b, publisher)) + [LF];
      if |bytes| > MAX_INSTALLATION_RECORD_BYTES then Failure(RecordTooLarge) else Success(bytes)
  }

  /** The files of a record, as the bundle has them: path, length and digest, in order. */
  ghost predicate ListsFiles(files: seq<BundleFile>, b: VerifiedBundle) {
    && |files| == |b.files|
    && forall i :: 0 <= i < |files| ==>
         files[i].path == b.files[i].path && files[i].byteLength == |b.files[i].bytes|
         && files[i].digest == b.files[i].digest
  }

  /** What a record says of a bundle, read off the record; the tree digest covers a text that decodes to the files. */
  ghost predicate Describes(env: Env, r: Record, b: VerifiedBundle, publisher: Option<Publisher>) {
    && r.subject == b.subject && r.entryPoint == b.entryPoint
    && r.rootIdentity == Ascii("sha256/") + b.subject
    && ListsFiles(r.files, b)
    && (r.RecordV2? <==> publisher.Some?) && (r.RecordV2? ==> publisher == Some(r.publisher))
    && ((forall i :: 0 <= i < |b.files| ==> ValidDigest(b.files[i].digest) && ValidPath(b.files[i].path)) ==>
          exists covered :: Decode(covered) == Some(r.files) && r.treeDigest == env.hash(covered))
  }

  /** These bytes are one encoded record of the bundle and a line feed. */
  ghost predicate Records(env: Env, bytes: Text, b: VerifiedBundle, publisher: Option<Publisher>) {
    exists r :: Describes(env, r, b, publisher) && bytes == env.encode(r) + Ascii("\n")
  }

  /** The bytes an installation writes are a record of exactly its bundle and publisher. */
  lemma RecordDescribes(env: Env, b: VerifiedBundle, publisher: Option<Publisher>)
    requires RecordBytes(env, b, publisher).Success?
    ensures Records(env, RecordBytes(env, b, publisher).value, b, publisher)
    ensures publisher.Some? ==> publisher.value.subject == b.subject
    ensures |RecordBytes(env, b, publisher).value| <= MAX_INSTALLATION_RECORD_BYTES
  {
    hide ValidPath, ValidDigest, Decode, PreImage;
    var r := RecordFor(env, b, publisher);
    if forall i :: 0 <= i < |b.files| ==> ValidDigest(b.files[i].digest) && ValidPath(b.files[i].path) {
      forall f | f in RecordsOf(b)
        ensures Encodable(f)
      {
        var i :| 0 <= i < |b.files| && RecordsOf(b)[i] == f;
      }
      PreImageRoundTrip(RecordsOf(b));
      assert Decode(PreImage(RecordsOf(b))) == Some(r.files);
    }
    assert RootIdentity(b.subject) == Ascii("sha256/") + b.subject;
    assert Describes(env, r, b, publisher);
    assert Ascii("\n") == [LF];
  }

  /** `reject_reserved_paths`, ignoring ASCII case. */
  predicate IsReserved(p: Text) {
    var key, reserved := LowerCase(p), LowerCase(RECORD_PATH);
    key == reserved || (|key| > |reserved| && key[..|reserved| + 1] == reserved + [SLASH])
  }

  predicate HasReservedPath(b: VerifiedBundle) {
    exists i :: 0 <= i < |b.files| && IsReserved(b.files[i].path)
  }

  // ----- state

  /** Quarantine directory `.staging/<subject>.<attempt>`. */
  datatype Slot = Slot(subject: Text, attempt: nat)

  /** `.locks`, `.staging` and `sha256` below the store root. */
  datatype Store = Store(locks: set<Text>, staging: map<Slot, Tree>, roots: map<Text, Tree>)

  datatype Outcome = Installed(reused: bool) | Failed(error: StoreError)

  /** Why an existing root is being verified, and with which quarantine path still to clean on failure. */
  datatype Purpose = Reuse | AfterPromotion(attempt: nat) | AfterRace(attempt: nat)

  datatype Continuation = Return(outcome: Outcome) | VerifyRace(attempt: nat)

  datatype Phase =
    | Requested
    | LockMade
    | Locked
    | StagingAttempt(attempt: nat)
    | StagingMade(attempt: nat)
    | Parents(attempt: nat, file: nat, scanned: nat)
    | Creating(attempt: nat, file: nat)
    | Writing(attempt: nat, file: nat, written: nat)
    | StageInspect(attempt: nat)
    | StageReading(attempt: nat, got: seq<CandidateFile>)
    | RecordCreate(attempt: nat)
    | RecordWriting(attempt: nat, record: Text, written: nat)
    | RecordCheck(attempt: nat, record: Text)
    | Promote(attempt: nat)
    | RootInspect(purpose: Purpose)
    | RootReading(purpose: Purpose, got: seq<CandidateFile>)
    | RecordCompare(purpose: Purpose)
    | Cleaning(attempt: nat, next: Continuation)
    | Unlocking(outcome: Outcome)
    | Finished(outcome: Outcome)
    | Crashed

  datatype Installer = Installer(bundle: VerifiedBundle, publisher: Option<Publisher>, phase: Phase)

  /** `promoter` is history: which installer's rename published each root. */
  datatype World = World(store: Store, installers: map<nat, Installer>, promoter: map<Text, nat>)

  /** The environment's part in a step. */
  datatype Choice =
    | Proceed            // the operation does what it says
    | IoFailure          // the operation, a permission check or a sync fails
    | UnsafeMetadata     // the new lock file, or the store directories before the rename, look unsafe
    | Chunk(size: nat)   // a write transfers this many more bytes than one
    | Keep(nodes: set<Text>)  // recursive removal leaves these nodes for now
    | Crash

  /** What one step does: the store, the installer's next phase, and whether it published the root. */
  datatype Effect = Effect(store: Store, phase: Phase, promoted: bool)

  // ----- steps

  /** Leaves `install_bundle_with_publisher` with an error after a quarantine directory was made. */
  function Abandon(s: Store, attempt: nat, error: StoreError): Effect {
    Effect(s, Cleaning(attempt, Return(Failed(error))), false)
  }

  /** A failed verification of the root; the reuse path has no quarantine directory to clean. */
  function Mismatch(s: Store, purpose: Purpose, error: StoreError): Effect {
    match purpose
    case Reuse => Effect(s, Unlocking(Failed(error)), false)
    case AfterPromotion(attempt) => Abandon(s, attempt, error)
    case AfterRace(attempt) => Abandon(s, attempt, error)
  }

  function Put(s: Store, slot: Slot, tree: Tree): Store {
    s.(staging := s.staging[slot := tree])
  }

  function Min(a: nat, b: nat): nat {
    if a < b then a else b
  }

  /** The next amount written: at least one more byte, at most all of them. */
  function Grow(written: nat, choice: Choice, total: nat): nat {
    Min(written + 1 + (if choice.Chunk? then choice.size else 0), total)
  }

  function NextFile(attempt: nat, file: nat, count: nat): Phase {
    if file < count then Parents(attempt, file, 0) else StageInspect(attempt)
  }

  /** Steps before the quarantine directory exists. */
  function EarlyStep(env: Env, s: Store, x: Installer, choice: Choice): Effect
    requires x.phase.Requested? || x.phase.LockMade? || x.phase.Locked? || x.phase.StagingAttempt?
  {
    var subject := x.bundle.subject;
    match x.phase
    case Requested =>
      if x.publisher.Some? && x.publisher.value.subject != subject then
        Effect(s, Finished(Failed(PublisherSubjectMismatch)), false)
      else if choice.IoFailure? then Effect(s, Finished(Failed(StoreChanged)), false)
      else if HasReservedPath(x.bundle) then Effect(s, Finished(Failed(ReservedMetadataPath)), false)
      else if subject in s.locks then Effect(s, Finished(Failed(SubjectLocked)), false)
      else Effect(s.(locks := s.locks + {subject}), LockMade, false)
    case LockMade =>
      // A failed sync leaves the lock file behind; unsafe metadata removes it.
      if choice.IoFailure? then Effect(s, Finished(Failed(Io)), false)
      else if choice.UnsafeMetadata? then
        Effect(s.(locks := s.locks - {subject}), Finished(Failed(StorePathUnsafe)), false)
      else Effect(s, Locked, false)
    case Locked =>
      if choice.IoFailure? then Effect(s, Unlocking(Failed(Io)), false)
      else if subject in s.roots then Effect(s, RootInspect(Reuse), false)
      else Effect(s, StagingAttempt(0), false)
    case StagingAttempt(attempt) =>
      var slot := Slot(subject, attempt);
      if attempt >= MAX_STAGING_ATTEMPTS then Effect(s, Unlocking(Failed(StagingUnavailable)), false)
      else if choice.IoFailure? then Effect(s, Unlocking(Failed(Io)), false)
      else if slot in s.staging then Effect(s, StagingAttempt(attempt + 1), false)
      else Effect(Put(s, slot, map[]), StagingMade(attempt), false)
  }

  /** Materialisation of the bundle's files into quarantine tree `t`. */
  function MaterializeStep(s: Store, t: Tree, x: Installer, choice: Choice): Effect
    requires x.phase.StagingMade? || x.phase.Parents? || x.phase.Creating? || x.phase.Writing?
  {
    var files := x.bundle.files;
    var slot := Slot(x.bundle.subject, x.phase.attempt);
    match x.phase
    case StagingMade(attempt) =>
      // `create_staging` may still fail here, leaving the directory without cleanup.
      if choice.IoFailure? then Effect(s, Unlocking(Failed(Io)), false)
      else Effect(s, NextFile(attempt, 0, |files|), false)
    case Parents(attempt, i, k) =>
      if choice.IoFailure? || i >= |files| then Abandon(s, attempt, Io)
      else
        var p := files[i].path;
        if k >= |p| then Effect(s, Creating(attempt, i), false)
        else if p[k] != SLASH then Effect(s, Parents(attempt, i, k + 1), false)
        else if p[..k] !in t then Effect(Put(s, slot, t[p[..k] := Dir]), Parents(attempt, i, k + 1), false)
        else if t[p[..k]].Dir? then Effect(s, Parents(attempt, i, k + 1), false)
        else Abandon(s, attempt, StorePathUnsafe)
    case Creating(attempt, i) =>
      if choice.IoFailure? || i >= |files| then Abandon(s, attempt, Io)
      else if files[i].path in t then Abandon(s, attempt, MaterializationConflict(files[i].path))
      else Effect(Put(s, slot, t[files[i].path := File([], 1)]), Writing(attempt, i, 0), false)
    case Writing(attempt, i, n) =>
      if choice.IoFailure? || i >= |files| then Abandon(s, attempt, Io)
      else if n >= |files[i].bytes| then Effect(s, NextFile(attempt, i + 1, |files|), false)
      else
        var m := Grow(n, choice, |files[i].bytes|);
        Effect(Put(s, slot, t[files[i].path := File(files[i].bytes[..m], 1)]), Writing(attempt, i, m), false)
  }

  /** Reverification of quarantine tree `t`, the record, and the rename. */
  function StageStep(env: Env, s: Store, t: Tree, x: Installer, choice: Choice): Effect
    requires x.phase.StageInspect? || x.phase.StageReading? || x.phase.RecordCreate? || x.phase.RecordWriting?
             || x.phase.RecordCheck? || x.phase.Promote?
  {
    var b := x.bundle;
    var slot := Slot(b.subject, x.phase.attempt);
    var manifest := ManifestFromVerified(b);
    match x.phase
    case StageInspect(attempt) =>
      if choice.IoFailure? then Abandon(s, attempt, Io)
      else if manifest.Failure? then Abandon(s, attempt, ManifestReconstruction)
      else
        var seen := InspectTree(t, manifest.value, None);
        if seen.Failure? then Abandon(s, attempt, StageVerification(seen.error))
        else Effect(s, StageReading(attempt, []), false)
    case StageReading(attempt, got) =>
      if choice.IoFailure? || manifest.Failure? then Abandon(s, attempt, Io)
      else if |got| < |manifest.value.files| then
        var p := manifest.value.files[|got|].path;
        var bytes := ReadDeclared(t, p, MAX_BUNDLE_FILE_BYTES);
        if bytes.Failure? then Abandon(s, attempt, StageVerification(bytes.error))
        else Effect(s, StageReading(attempt, got + [CandidateFile(p, bytes.value)]), false)
      else
        var verdict := Verify(env.hash, manifest.value, b.subject, b.subject, got);
        if verdict.Failure? then Abandon(s, attempt, ContentVerification(verdict.error))
        else Effect(s, RecordCreate(attempt), false)
    case RecordCreate(attempt) =>
      var record := RecordBytes(env, b, x.publisher);
      if choice.IoFailure? then Abandon(s, attempt, Io)
      else if record.Failure? then Abandon(s, attempt, record.error)
      else if RECORD_PATH in t then Abandon(s, attempt, MaterializationConflict(RECORD_PATH))
      else Effect(Put(s, slot, t[RECORD_PATH := File([], 1)]), RecordWriting(attempt, record.value, 0), false)
    case RecordWriting(attempt, record, n) =>
      if choice.IoFailure? then Abandon(s, attempt, Io)
      else if n >= |record| then Effect(s, RecordCheck(attempt, record), false)
      else
        var m := Grow(n, choice, |record|);
        Effect(Put(s, slot, t[RECORD_PATH := File(record[..m], 1)]), RecordWriting(attempt, record, m), false)
    case RecordCheck(attempt, record) =>
      if choice.IoFailure? then Abandon(s, attempt, Io)
      else if ReadDeclared(t, RECORD_PATH, MAX_INSTALLATION_RECORD_BYTES) != Success(record) then
        Abandon(s, attempt, RecordMismatch)
      else Effect(s, Promote(attempt), false)
    case Promote(attempt) =>
      // Renaming onto an existing non-empty directory fails; onto an empty one it replaces it.
      var occupied := b.subject in s.roots && s.roots[b.subject] != map[];
      if choice.UnsafeMetadata? then Abandon(s, attempt, StoreChanged)
      else if choice.IoFailure? || occupied then
        if b.subject in s.roots then Effect(s, Cleaning(attempt, VerifyRace(attempt)), false)
        else Abandon(s, attempt, Io)
      else
        Effect(Store(s.locks, s.staging - {slot}, s.roots[b.subject := t]), RootInspect(AfterPromotion(attempt)), true)
  }

  /** `verify_existing_installation`, one read at a time. */
  function RootStep(env: Env, s: Store, x: Installer, choice: Choice): Effect
    requires x.phase.RootInspect? || x.phase.RootReading? || x.phase.RecordCompare?
  {
    var b := x.bundle;
    var purpose := x.phase.purpose;
    var manifest := ManifestFromVerified(b);
    if choice.IoFailure? then
      Mismatch(s, purpose, if x.phase.RootInspect? && purpose.AfterPromotion? then Io else ExistingInstallationMismatch)
    else if manifest.Failure? || b.subject !in s.roots then Mismatch(s, purpose, ExistingInstallationMismatch)
    else
      var t := s.roots[b.subject];
      match x.phase
      case RootInspect(_) =>
        if InspectTree(t, manifest.value, Some((RECORD_PATH, MAX_INSTALLATION_RECORD_BYTES))).Failure? then
          Mismatch(s, purpose, ExistingInstallationMismatch)
        else Effect(s, RootReading(purpose, []), false)
      case RootReading(_, got) =>
        if |got| < |manifest.value.files| then
          var p := manifest.value.files[|got|].path;
          var bytes := ReadDeclared(t, p, MAX_BUNDLE_FILE_BYTES);
          if bytes.Failure? then Mismatch(s, purpose, ExistingInstallationMismatch)
          else Effect(s, RootReading(purpose, got + [CandidateFile(p, bytes.value)]), false)
        else if Verify(env.hash, manifest.value, b.subject, b.subject, got).Failure? then
          Mismatch(s, purpose, ExistingInstallationMismatch)
        else Effect(s, RecordCompare(purpose), false)
      case RecordCompare(_) =>
        var expected := RecordBytes(env, b, x.publisher);
        if expected.Failure? then Mismatch(s, purpose, ExistingInstallationMismatch)
        else if ReadDeclared(t, RECORD_PATH, MAX_INSTALLATION_RECORD_BYTES) != Success(expected.value) then
          Mismatch(s, purpose, ExistingInstallationMismatch)
        else Effect(s, Unlocking(Installed(!purpose.AfterPromotion?)), false)
  }

  function Resume(s: Store, next: Continuation): Effect {
    match next
    case Return(outcome) => Effect(s, Unlocking(outcome), false)
    case VerifyRace(attempt) => Effect(s, RootInspect(AfterRace(attempt)), false)
  }

  /** Recursive removal of the quarantine path, and the guard's drop. */
  function LateStep(s: Store, x: Installer, choice: Choice): Effect
    requires x.phase.Cleaning? || x.phase.Unlocking?
  {
    var subject := x.bundle.subject;
    match x.phase
    case Cleaning(attempt, next) =>
      var slot := Slot(subject, attempt);
      if slot !in s.staging || choice.IoFailure? then Resume(s, next)
      else if choice.Keep? then
        var t := s.staging[slot];
        Effect(Put(s, slot, map p | p in t && p in choice.nodes :: t[p]), x.phase, false)
      else Resume(s.(staging := s.staging - {slot}), next)
    case Unlocking(outcome) =>
      // A failed removal leaves the lock file behind.
      Effect(if choice.IoFailure? then s else s.(locks := s.locks - {subject}), Finished(outcome), false)
  }

  predicate InQuarantine(ph: Phase) {
    ph.StagingMade? || ph.Parents? || ph.Creating? || ph.Writing? || ph.StageInspect? || ph.StageReading?
    || ph.RecordCreate? || ph.RecordWriting? || ph.RecordCheck? || ph.Promote?
  }

  function StepOf(env: Env, s: Store, x: Installer, choice: Choice): Effect {
    if x.phase.Finished? || x.phase.Crashed? then Effect(s, x.phase, false)
    else if choice.Crash? then Effect(s, Crashed, false)
    else if InQuarantine(x.phase) then
      var slot := Slot(x.bundle.subject, x.phase.attempt);
      if slot !in s.staging then Abandon(s, x.phase.attempt, Io)
      else if x.phase.StagingMade? || x.phase.Parents? || x.phase.Creating? || x.phase.Writing? then
        MaterializeStep(s, s.staging[slot], x, choice)
      else StageStep(env, s, s.staging[slot], x, choice)
    else if x.phase.RootInspect? || x.phase.RootReading? || x.phase.RecordCompare? then RootStep(env, s, x, choice)
    else if x.phase.Cleaning? || x.phase.Unlocking? then LateStep(s, x, choice)
    else EarlyStep(env, s, x, choice)
  }

  // ----- runs

  datatype Action =
    | Begin(installer: nat, bundle: VerifiedBundle, publisher: Option<Publisher>)
    | Step(installer: nat, choice: Choice)

  /** A bundle as verification hands it out: sorted portable records whose digests are those of the bytes. */
  ghost predicate Genuine(env: Env, b: VerifiedBundle) {
    && ManifestFromVerified(b) == Success(BundleManifest(b.entryPoint, RecordsOf(b)))
    && forall i :: 0 <= i < |b.files| ==> ValidPath(b.files[i].path) && b.files[i].digest == env.hash(b.files[i].bytes)
  }

  /** Only genuine bundles are ever handed to the store; installer numbers are used once. */
  ghost predicate Allowed(env: Env, w: World, a: Action) {
    match a
    case Begin(pid, b, _) => pid !in w.installers && Genuine(env, b)
    case Step(pid, _) => pid in w.installers
  }

  function Perform(env: Env, w: World, a: Action): World {
    match a
    case Begin(pid, b, publisher) => w.(installers := w.installers[pid := Installer(b, publisher, Requested)])
    case Step(pid, choice) =>
      if pid !in w.installers then w
      else
        var x := w.installers[pid];
        var e := StepOf(env, w.store, x, choice);
        World(e.store, w.installers[pid := x.(phase := e.phase)],
              if e.promoted then w.promoter[x.bundle.subject := pid] else w.promoter)
  }

  const EMPTY_WORLD := World(Store({}, map[], map[]), map[], map[])

  /** The state after a history of actions, the last one last. */
  function After(env: Env, history: seq<Action>): World {
    if history == [] then EMPTY_WORLD else Perform(env, After(env, history[..|history| - 1]), history[|history| - 1])
  }

  ghost predicate IsHistory(env: Env, history: seq<Action>) {
    history == [] ||
    (IsHistory(env, history[..|history| - 1])
     && Allowed(env, After(env, history[..|history| - 1]), history[|history| - 1]))
  }

  /** Every bundle `verify_candidate` hands out for a constructed manifest is genuine. */
  lemma VerifiedIsGenuine(env: Env, m: BundleManifest, ms: Text, es: Text, cs: seq<CandidateFile>)
    requires ValidManifest(m, DEFAULT_LIMITS) && ValidCandidates(cs)
    requires forall f :: f in m.files ==> ValidPath(f.path)
    requires Verify(env.hash, m, ms, es, cs).Success?
    ensures Genuine(env, Verify(env.hash, m, ms, es, cs).value)
  {
    hide Verify, Normalize, ValidPath;
    VerifiedBundleKeepsManifest(env.hash, m, ms, es, cs);
    VerifyAcceptsExactly(env.hash, m, ms, es, cs);
    var b := Verify(env.hash, m, ms, es, cs).value;
    assert RecordsOf(b) == m.files;
    forall i | 0 <= i < |b.files|
      ensures ValidPath(b.files[i].path)
    {
      assert m.files[i] in m.files;
    }
  }
}
