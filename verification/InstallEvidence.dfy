/**
 What a receipt is worth when anyone at all may be writing to the store: the
 installer's own reads, each at some moment of its call.
 */
module InstallEvidence {
  import opened Bytes
  import opened Sorting
  import opened Distribution
  import opened Candidate
  import opened Directory
  import opened WalkDecides
  import opened InstallStore
  import opened InstallSafety
  import opened InstallProgress

  /** The store as the call finds it at each of its steps, changed in between by whoever pleases. */
  datatype Watch = Watch(view: nat -> Store, choice: nat -> Choice)

  function Acting(c: Call, phase: Phase): Installer {
    Installer(c.bundle, c.publisher, phase)
  }

  function PhaseAt(c: Call, w: Watch, n: nat): Phase {
    if n == 0 then Requested
    else StepOf(c.env, w.view(n - 1), Acting(c, PhaseAt(c, w, n - 1)), w.choice(n - 1)).phase
  }

  /** The published root, or the quarantine tree of one attempt. */
  datatype Place = Root | Quarantine(attempt: nat)

  function TreeIn(c: Call, s: Store, place: Place): Option<Tree> {
    match place
    case Root => if c.bundle.subject in s.roots then Some(s.roots[c.bundle.subject]) else None
    case Quarantine(attempt) =>
      var slot := Slot(c.bundle.subject, attempt);
      if slot in s.staging then Some(s.staging[slot]) else None
  }

  function AllowanceIn(place: Place): Option<(Text, nat)> {
    if place.Root? then Allowance() else None
  }

  // ----- what was seen within the first `n` steps

  predicate InspectedAt(c: Call, w: Watch, place: Place, k: nat) {
    var t := TreeIn(c, w.view(k), place);
    t.Some? && InspectTree(t.value, ManifestOf(c.bundle), AllowanceIn(place)).Success?
  }

  predicate ReadAt(c: Call, w: Watch, place: Place, path: Text, maximum: nat, bytes: Text, k: nat) {
    var t := TreeIn(c, w.view(k), place);
    t.Some? && ReadDeclared(t.value, path, maximum) == Success(bytes)
  }

  ghost predicate Inspected(c: Call, w: Watch, n: nat, place: Place) {
    exists k :: 0 <= k < n && InspectedAt(c, w, place, k)
  }

  ghost predicate WasRead(c: Call, w: Watch, n: nat, place: Place, path: Text, maximum: nat, bytes: Text) {
    exists k :: 0 <= k < n && ReadAt(c, w, place, path, maximum, bytes, k)
  }

  /** The candidates collected so far are reads of the bundle's paths, in order. */
  ghost predicate Collected(c: Call, w: Watch, n: nat, place: Place, got: seq<CandidateFile>) {
    && |got| <= |c.bundle.files|
    && forall i :: 0 <= i < |got| ==>
         got[i].path == c.bundle.files[i].path && |got[i].bytes| <= MAX_BUNDLE_FILE_BYTES
         && WasRead(c, w, n, place, got[i].path, MAX_BUNDLE_FILE_BYTES, got[i].bytes)
  }

  /** File `i` was read with the length and digest the bundle has for it. */
  ghost predicate FileSeen(c: Call, w: Watch, n: nat, place: Place, i: nat)
    requires i < |c.bundle.files|
  {
    exists bytes: Text :: WasRead(c, w, n, place, c.bundle.files[i].path, MAX_BUNDLE_FILE_BYTES, bytes)
             && |bytes| == |c.bundle.files[i].bytes| && c.env.hash(bytes) == c.bundle.files[i].digest
  }

  /** The place was inspected as an exact tree and every file was read as declared. */
  ghost predicate ContentsSeen(c: Call, w: Watch, n: nat, place: Place) {
    Inspected(c, w, n, place) && forall i :: 0 <= i < |c.bundle.files| ==> FileSeen(c, w, n, place, i)
  }

  ghost predicate RecordSeen(c: Call, w: Watch, n: nat, place: Place) {
    exists record: Text :: RecordBytes(c.env, c.bundle, c.publisher) == Success(record)
              && WasRead(c, w, n, place, RECORD_PATH, MAX_INSTALLATION_RECORD_BYTES, record)
  }

  ghost predicate Staged(c: Call, w: Watch, n: nat) {
    exists attempt: nat :: ContentsSeen(c, w, n, Quarantine(attempt)) && RecordSeen(c, w, n, Quarantine(attempt))
  }

  ghost predicate PurposeBacked(c: Call, w: Watch, n: nat, purpose: Purpose) {
    !purpose.Reuse? ==> Staged(c, w, n)
  }

  ghost predicate OutcomeBacked(c: Call, w: Watch, n: nat, outcome: Outcome) {
    outcome.Installed? ==>
      ContentsSeen(c, w, n, Root) && RecordSeen(c, w, n, Root) && (!outcome.reused ==> Staged(c, w, n))
  }

  ghost predicate NextBacked(c: Call, w: Watch, n: nat, next: Continuation) {
    match next
    case Return(outcome) => outcome.Failed?
    case VerifyRace(_) => Staged(c, w, n)
  }

  /** What the call has seen by the time it is in this phase. */
  ghost predicate Backed(c: Call, w: Watch, n: nat, phase: Phase) {
    match phase
    case StageReading(a, got) => Inspected(c, w, n, Quarantine(a)) && Collected(c, w, n, Quarantine(a), got)
    case RecordCreate(a) => ContentsSeen(c, w, n, Quarantine(a))
    case RecordWriting(a, record, _) =>
      ContentsSeen(c, w, n, Quarantine(a)) && RecordBytes(c.env, c.bundle, c.publisher) == Success(record)
    case RecordCheck(a, record) =>
      ContentsSeen(c, w, n, Quarantine(a)) && RecordBytes(c.env, c.bundle, c.publisher) == Success(record)
    case Promote(_) => Staged(c, w, n)
    case RootInspect(purpose) => PurposeBacked(c, w, n, purpose)
    case RootReading(purpose, got) =>
      PurposeBacked(c, w, n, purpose) && Inspected(c, w, n, Root) && Collected(c, w, n, Root, got)
    case RecordCompare(purpose) => PurposeBacked(c, w, n, purpose) && ContentsSeen(c, w, n, Root)
    case Cleaning(_, next) => NextBacked(c, w, n, next)
    case Unlocking(outcome) => OutcomeBacked(c, w, n, outcome)
    case Finished(outcome) => OutcomeBacked(c, w, n, outcome)
    case _ => true
  }

  // ----- what was seen stays seen

  lemma ReadStays(c: Call, w: Watch, n: nat, place: Place, path: Text, maximum: nat, bytes: Text)
    requires WasRead(c, w, n, place, path, maximum, bytes)
    ensures WasRead(c, w, n + 1, place, path, maximum, bytes)
  {
    hide ReadAt;
    var k :| 0 <= k < n && ReadAt(c, w, place, path, maximum, bytes, k);
    assert 0 <= k < n + 1 && ReadAt(c, w, place, path, maximum, bytes, k);
  }

  lemma InspectedStays(c: Call, w: Watch, n: nat, place: Place)
    requires Inspected(c, w, n, place)
    ensures Inspected(c, w, n + 1, place)
  {
    hide InspectedAt;
    var k :| 0 <= k < n && InspectedAt(c, w, place, k);
    assert 0 <= k < n + 1 && InspectedAt(c, w, place, k);
  }

  lemma CollectedStays(c: Call, w: Watch, n: nat, place: Place, got: seq<CandidateFile>)
    requires Collected(c, w, n, place, got)
    ensures Collected(c, w, n + 1, place, got)
  {
    hide WasRead;
    forall i | 0 <= i < |got|
      ensures WasRead(c, w, n + 1, place, got[i].path, MAX_BUNDLE_FILE_BYTES, got[i].bytes)
    {
      ReadStays(c, w, n, place, got[i].path, MAX_BUNDLE_FILE_BYTES, got[i].bytes);
    }
  }

  lemma ContentsStay(c: Call, w: Watch, n: nat, place: Place)
    requires ContentsSeen(c, w, n, place)
    ensures ContentsSeen(c, w, n + 1, place)
  {
    hide WasRead, Inspected;
    InspectedStays(c, w, n, place);
    var later := n + 1;
    forall i | 0 <= i < |c.bundle.files|
      ensures FileSeen(c, w, later, place, i)
    {
      assert FileSeen(c, w, n, place, i);
      var bytes: Text :| WasRead(c, w, n, place, c.bundle.files[i].path, MAX_BUNDLE_FILE_BYTES, bytes)
               && |bytes| == |c.bundle.files[i].bytes| && c.env.hash(bytes) == c.bundle.files[i].digest;
      ReadStays(c, w, n, place, c.bundle.files[i].path, MAX_BUNDLE_FILE_BYTES, bytes);
    }
  }

  lemma RecordStays(c: Call, w: Watch, n: nat, place: Place)
    requires RecordSeen(c, w, n, place)
    ensures RecordSeen(c, w, n + 1, place)
  {
    hide WasRead, RecordBytes, RECORD_PATH;
    var record: Text :| RecordBytes(c.env, c.bundle, c.publisher) == Success(record)
              && WasRead(c, w, n, place, RECORD_PATH, MAX_INSTALLATION_RECORD_BYTES, record);
    ReadStays(c, w, n, place, RECORD_PATH, MAX_INSTALLATION_RECORD_BYTES, record);
  }

  lemma StagedStays(c: Call, w: Watch, n: nat)
    requires Staged(c, w, n)
    ensures Staged(c, w, n + 1)
  {
    hide ContentsSeen, RecordSeen;
    var attempt: nat :| ContentsSeen(c, w, n, Quarantine(attempt)) && RecordSeen(c, w, n, Quarantine(attempt));
    ContentsStay(c, w, n, Quarantine(attempt));
    RecordStays(c, w, n, Quarantine(attempt));
  }

  lemma PurposeStays(c: Call, w: Watch, n: nat, purpose: Purpose)
    requires PurposeBacked(c, w, n, purpose)
    ensures PurposeBacked(c, w, n + 1, purpose)
  {
    hide Staged;
    if !purpose.Reuse? {
      StagedStays(c, w, n);
    }
  }

  // ----- what one step sees

  /** A step that reads file `|got|` adds exactly that read. */
  lemma CollectsOne(c: Call, w: Watch, n: nat, place: Place, got: seq<CandidateFile>, bytes: Text)
    requires Collected(c, w, n, place, got) && |got| < |c.bundle.files|
    requires ReadAt(c, w, place, c.bundle.files[|got|].path, MAX_BUNDLE_FILE_BYTES, bytes, n)
    requires |bytes| <= MAX_BUNDLE_FILE_BYTES
    ensures Collected(c, w, n + 1, place, got + [CandidateFile(c.bundle.files[|got|].path, bytes)])
  {
    hide ReadAt;
    CollectedStays(c, w, n, place, got);
    var p := c.bundle.files[|got|].path;
    var more := got + [CandidateFile(p, bytes)];
    assert WasRead(c, w, n + 1, place, p, MAX_BUNDLE_FILE_BYTES, bytes) by {
      assert 0 <= n < n + 1 && ReadAt(c, w, place, p, MAX_BUNDLE_FILE_BYTES, bytes, n);
    }
    hide WasRead;
    forall i | 0 <= i < |more|
      ensures more[i].path == c.bundle.files[i].path && |more[i].bytes| <= MAX_BUNDLE_FILE_BYTES
      ensures WasRead(c, w, n + 1, place, more[i].path, MAX_BUNDLE_FILE_BYTES, more[i].bytes)
    {
      if i < |got| {
        assert more[i] == got[i];
      }
    }
  }

  /** A passed verification of collected reads means every file was read as the bundle has it. */
  lemma VerdictMeansSeen(c: Call, w: Watch, n: nat, place: Place, got: seq<CandidateFile>)
    requires Genuine(c.env, c.bundle) && Inspected(c, w, n, place) && Collected(c, w, n, place, got)
    requires |got| == |c.bundle.files|
    requires Verify(c.env.hash, ManifestOf(c.bundle), c.bundle.subject, c.bundle.subject, got).Success?
    ensures ContentsSeen(c, w, n, place)
  {
    hide Verify, Genuine, WasRead, Inspected;
    var m := ManifestOf(c.bundle);
    GenuineIsOrdered(c.env, c.bundle);
    VerifyAcceptsExactly(c.env.hash, m, c.bundle.subject, c.bundle.subject, got);
    hide WithinLimits, DistinctKeys, StrictlyOrdered;
    forall i | 0 <= i < |c.bundle.files|
      ensures FileSeen(c, w, n, place, i)
    {
      var d := DescribeAll(got, c.env.hash)[i];
      assert d in DescribeAll(got, c.env.hash);
      assert RecordsOf(c.bundle)[i] in RecordsOf(c.bundle);
      SamePathSameRecord(RecordsOf(c.bundle), RecordsOf(c.bundle)[i], d);
    }
  }

  lemma InspectedNow(c: Call, w: Watch, n: nat, place: Place)
    requires InspectedAt(c, w, place, n)
    ensures Inspected(c, w, n + 1, place)
  {
    hide InspectedAt;
    assert 0 <= n < n + 1 && InspectedAt(c, w, place, n);
  }

  lemma RecordReadNow(c: Call, w: Watch, n: nat, place: Place, record: Text)
    requires RecordBytes(c.env, c.bundle, c.publisher) == Success(record)
    requires ReadAt(c, w, place, RECORD_PATH, MAX_INSTALLATION_RECORD_BYTES, record, n)
    ensures RecordSeen(c, w, n + 1, place)
  {
    hide ReadAt, RecordBytes, RECORD_PATH;
    assert 0 <= n < n + 1 && ReadAt(c, w, place, RECORD_PATH, MAX_INSTALLATION_RECORD_BYTES, record, n);
    assert WasRead(c, w, n + 1, place, RECORD_PATH, MAX_INSTALLATION_RECORD_BYTES, record);
  }

  lemma NothingCollected(c: Call, w: Watch, n: nat, place: Place)
    ensures Collected(c, w, n, place, [])
  {
  }

  lemma StageReadingBacked(c: Call, w: Watch, n: nat, attempt: nat, got: seq<CandidateFile>)
    requires Genuine(c.env, c.bundle) && Backed(c, w, n, StageReading(attempt, got))
    ensures Backed(c, w, n + 1, StepOf(c.env, w.view(n), Acting(c, StageReading(attempt, got)), w.choice(n)).phase)
  {
    hide Genuine, ManifestFromVerified, InspectTree, ReadDeclared, Verify, RecordBytes, Inspected, Collected,
         ContentsSeen, RecordSeen, Staged;
    GenuineManifest(c.env, c.bundle);
    var place := Quarantine(attempt);
    var t := TreeIn(c, w.view(n), place);
    InspectedStays(c, w, n, place);
    CollectedStays(c, w, n, place, got);
    CollectedWithin(c, w, n, place, got);
    if t.Some? {
      if |got| < |c.bundle.files| {
        var p := c.bundle.files[|got|].path;
        assert ManifestOf(c.bundle).files[|got|].path == p;
        var bytes := ReadDeclared(t.value, p, MAX_BUNDLE_FILE_BYTES);
        if bytes.Success? {
          ReadYieldsNode(t.value, p, MAX_BUNDLE_FILE_BYTES);
          CollectsOne(c, w, n, place, got, bytes.value);
        }
      } else if Verify(c.env.hash, ManifestOf(c.bundle), c.bundle.subject, c.bundle.subject, got).Success? {
        VerdictMeansSeen(c, w, n + 1, place, got);
      }
    }
  }

  lemma CollectedWithin(c: Call, w: Watch, n: nat, place: Place, got: seq<CandidateFile>)
    requires Collected(c, w, n, place, got)
    ensures |got| <= |c.bundle.files|
  {
  }

  lemma RootReadingBacked(c: Call, w: Watch, n: nat, purpose: Purpose, got: seq<CandidateFile>)
    requires Genuine(c.env, c.bundle) && Backed(c, w, n, RootReading(purpose, got))
    ensures Backed(c, w, n + 1, StepOf(c.env, w.view(n), Acting(c, RootReading(purpose, got)), w.choice(n)).phase)
  {
    hide Genuine, ManifestFromVerified, InspectTree, ReadDeclared, Verify, RecordBytes, Inspected, Collected,
         ContentsSeen, RecordSeen, Staged, PurposeBacked;
    GenuineManifest(c.env, c.bundle);
    var t := TreeIn(c, w.view(n), Root);
    PurposeStays(c, w, n, purpose);
    InspectedStays(c, w, n, Root);
    CollectedStays(c, w, n, Root, got);
    CollectedWithin(c, w, n, Root, got);
    if t.Some? {
      if |got| < |c.bundle.files| {
        var p := c.bundle.files[|got|].path;
        assert ManifestOf(c.bundle).files[|got|].path == p;
        var bytes := ReadDeclared(t.value, p, MAX_BUNDLE_FILE_BYTES);
        if bytes.Success? {
          ReadYieldsNode(t.value, p, MAX_BUNDLE_FILE_BYTES);
          CollectsOne(c, w, n, Root, got, bytes.value);
        }
      } else if Verify(c.env.hash, ManifestOf(c.bundle), c.bundle.subject, c.bundle.subject, got).Success? {
        VerdictMeansSeen(c, w, n + 1, Root, got);
      }
    }
  }

  lemma InspectBacked(c: Call, w: Watch, n: nat, phase: Phase)
    requires Genuine(c.env, c.bundle) && Backed(c, w, n, phase) && (phase.StageInspect? || phase.RootInspect?)
    ensures Backed(c, w, n + 1, StepOf(c.env, w.view(n), Acting(c, phase), w.choice(n)).phase)
  {
    hide Genuine, ManifestFromVerified, InspectTree, ReadDeclared, Verify, RecordBytes, Inspected, Collected,
         ContentsSeen, RecordSeen, Staged, PurposeBacked;
    GenuineManifest(c.env, c.bundle);
    var place := if phase.StageInspect? then Quarantine(phase.attempt) else Root;
    NothingCollected(c, w, n + 1, place);
    if phase.RootInspect? {
      PurposeStays(c, w, n, phase.purpose);
    }
    if InspectedAt(c, w, place, n) {
      InspectedNow(c, w, n, place);
    }
  }

  lemma RecordBacked(c: Call, w: Watch, n: nat, phase: Phase)
    requires Backed(c, w, n, phase) && (phase.RecordCreate? || phase.RecordWriting? || phase.RecordCheck?)
    ensures Backed(c, w, n + 1, StepOf(c.env, w.view(n), Acting(c, phase), w.choice(n)).phase)
  {
    hide ManifestFromVerified, ReadDeclared, RecordBytes, ContentsSeen, RecordSeen, RECORD_PATH;
    var place := Quarantine(phase.attempt);
    ContentsStay(c, w, n, place);
    if phase.RecordCheck? && ReadAt(c, w, place, RECORD_PATH, MAX_INSTALLATION_RECORD_BYTES, phase.record, n) {
      RecordReadNow(c, w, n, place, phase.record);
    }
  }

  lemma CompareBacked(c: Call, w: Watch, n: nat, purpose: Purpose)
    requires Genuine(c.env, c.bundle) && Backed(c, w, n, RecordCompare(purpose))
    ensures Backed(c, w, n + 1, StepOf(c.env, w.view(n), Acting(c, RecordCompare(purpose)), w.choice(n)).phase)
  {
    hide Genuine, ManifestFromVerified, ReadDeclared, RecordBytes, ContentsSeen, RecordSeen, Staged, RECORD_PATH;
    GenuineManifest(c.env, c.bundle);
    PurposeStays(c, w, n, purpose);
    ContentsStay(c, w, n, Root);
    var record := RecordBytes(c.env, c.bundle, c.publisher);
    if record.Success? && ReadAt(c, w, Root, RECORD_PATH, MAX_INSTALLATION_RECORD_BYTES, record.value, n) {
      RecordReadNow(c, w, n, Root, record.value);
    }
  }

  lemma PromoteBacked(c: Call, w: Watch, n: nat, attempt: nat)
    requires Backed(c, w, n, Promote(attempt))
    ensures Backed(c, w, n + 1, StepOf(c.env, w.view(n), Acting(c, Promote(attempt)), w.choice(n)).phase)
  {
    hide ManifestFromVerified, Staged;
    StagedStays(c, w, n);
  }

  lemma ClosingBacked(c: Call, w: Watch, n: nat, phase: Phase)
    requires Backed(c, w, n, phase) && (phase.Cleaning? || phase.Unlocking? || phase.Finished?)
    ensures Backed(c, w, n + 1, StepOf(c.env, w.view(n), Acting(c, phase), w.choice(n)).phase)
  {
    hide Staged, ContentsSeen, RecordSeen;
    if phase.Cleaning? && phase.next.VerifyRace? {
      StagedStays(c, w, n);
    }
    if (phase.Unlocking? || phase.Finished?) && phase.outcome.Installed? {
      ContentsStay(c, w, n, Root);
      RecordStays(c, w, n, Root);
      if !phase.outcome.reused {
        StagedStays(c, w, n);
      }
    }
  }

  lemma EarlyBacked(c: Call, w: Watch, n: nat, phase: Phase)
    requires phase.Requested? || phase.LockMade? || phase.Locked? || phase.StagingAttempt? || phase.StagingMade?
             || phase.Parents? || phase.Creating? || phase.Writing? || phase.Crashed?
    ensures Backed(c, w, n + 1, StepOf(c.env, w.view(n), Acting(c, phase), w.choice(n)).phase)
  {
    hide HasReservedPath;
  }

  lemma {:induction false} AlwaysBacked(c: Call, w: Watch, n: nat)
    requires Genuine(c.env, c.bundle)
    ensures Backed(c, w, n, PhaseAt(c, w, n))
  {
    hide Genuine, Backed, StepOf;
    if n == 0 {
      BackedAtFirst(c, w);
    } else {
      AlwaysBacked(c, w, n - 1);
      BackedStep(c, w, n - 1, PhaseAt(c, w, n - 1));
    }
  }

  lemma BackedAtFirst(c: Call, w: Watch)
    ensures Backed(c, w, 0, Requested)
  {
  }

  lemma BackedStep(c: Call, w: Watch, n: nat, phase: Phase)
    requires Genuine(c.env, c.bundle) && Backed(c, w, n, phase)
    ensures Backed(c, w, n + 1, StepOf(c.env, w.view(n), Acting(c, phase), w.choice(n)).phase)
  {
    hide Genuine, Backed, StepOf;
    match phase
    case StageInspect(_) => InspectBacked(c, w, n, phase);
    case RootInspect(_) => InspectBacked(c, w, n, phase);
    case StageReading(attempt, got) => StageReadingBacked(c, w, n, attempt, got);
    case RootReading(purpose, got) => RootReadingBacked(c, w, n, purpose, got);
    case RecordCreate(_) => RecordBacked(c, w, n, phase);
    case RecordWriting(_, _, _) => RecordBacked(c, w, n, phase);
    case RecordCheck(_, _) => RecordBacked(c, w, n, phase);
    case RecordCompare(purpose) => CompareBacked(c, w, n, purpose);
    case Promote(attempt) => PromoteBacked(c, w, n, attempt);
    case Cleaning(_, _) => ClosingBacked(c, w, n, phase);
    case Unlocking(_) => ClosingBacked(c, w, n, phase);
    case Finished(_) => ClosingBacked(c, w, n, phase);
    case _ => EarlyBacked(c, w, n, phase);
  }

  /**
   Whatever anyone else does to the store between its steps, a call that returns
   a receipt has, at moments of its own, seen the root as an exact tree, read
   every file with the bundle's length and digest, and read exactly its record;
   and a fresh receipt means it had seen all of that in quarantine as well.
   */
  lemma ReceiptNeedsEvidence(c: Call, w: Watch, n: nat)
    requires Genuine(c.env, c.bundle) && PhaseAt(c, w, n).Finished? && PhaseAt(c, w, n).outcome.Installed?
    ensures ContentsSeen(c, w, n, Root) && RecordSeen(c, w, n, Root)
    ensures !PhaseAt(c, w, n).outcome.reused ==> Staged(c, w, n)
  {
    hide Genuine, PhaseAt, ContentsSeen, RecordSeen, Staged;
    AlwaysBacked(c, w, n);
  }

  // ----- the conditions of the installation theorems are necessary

  /** The first step lets a call past only with a fitting publisher and without reserved paths. */
  ghost predicate PastGate(c: Call, phase: Phase) {
    !phase.Requested? && !phase.Crashed? && !(phase.Finished? && phase.outcome.Failed?) ==>
      PublisherFits(c) && !HasReservedPath(c.bundle)
  }

  lemma GateStep(c: Call, s: Store, phase: Phase, choice: Choice)
    requires PastGate(c, phase)
    ensures PastGate(c, StepOf(c.env, s, Acting(c, phase), choice).phase)
  {
    hide HasReservedPath, MaterializeStep, StageStep, RootStep;
    if phase.Finished? {
      assert StepOf(c.env, s, Acting(c, phase), choice).phase == phase || choice.Crash?;
    }
  }

  lemma {:induction false} AlwaysPastGate(c: Call, w: Watch, n: nat)
    ensures PastGate(c, PhaseAt(c, w, n))
  {
    hide StepOf, PastGate;
    if n == 0 {
      GateAtFirst(c);
    } else {
      AlwaysPastGate(c, w, n - 1);
      GateStep(c, w.view(n - 1), PhaseAt(c, w, n - 1), w.choice(n - 1));
    }
  }

  lemma GateAtFirst(c: Call)
    ensures PastGate(c, Requested)
  {
  }

  /** A tree that passed inspection with the record's allowance leaves no room for a bundle that is not portable. */
  lemma InspectedMeansPortable(b: VerifiedBundle, t: Tree)
    requires WellFormed(t) && PathsValid(ManifestOf(b), Allowance()) && !HasReservedPath(b)
    requires InspectTree(t, ManifestOf(b), Allowance()).Success?
    ensures Portable(b)
  {
    hide HasReservedPath, InspectTree, RECORD_PATH, WellFormed, ExactTree, Expect, BundleNodes, PathsValid, Portable;
    var m := ManifestOf(b);
    InspectDecides(t, m, Allowance());
    var e := Expect(m, Allowance()).value;
    ExpectMeans(m);
    NodesOfExact(b, t, e);
    NoFileAboveFile(t, m, e);
    RecordIsApart(b);
    PartsOfPortable(b, t);
  }

  lemma ExpectMeans(m: BundleManifest)
    requires Expect(m, Allowance()).Success?
    ensures var e := Expect(m, Allowance()).value;
            && e.files == Paths(m) + {RECORD_PATH} && e.directories == AncestorsOfAll(Paths(m))
    ensures forall p :: p in Paths(m) ==> |Split(p)| <= MAX_DIRECTORY_DEPTH + 1
  {
    hide Split, RECORD_PATH, AncestorsOfAll;
    RecordAddsNoAncestor(Paths(m));
  }

  lemma NodesOfExact(b: VerifiedBundle, t: Tree, e: ExpectedTree)
    requires ExactTree(t, e) && e.files == Paths(ManifestOf(b)) + {RECORD_PATH}
    requires e.directories == AncestorsOfAll(Paths(ManifestOf(b)))
    ensures t.Keys == BundleNodes(b) + {RECORD_PATH}
    ensures forall p, q :: p in t && q in t && LowerCase(p) == LowerCase(q) ==> p == q
  {
    hide LowerCase, MaximumBytesFor, RECORD_PATH, AncestorsOfAll;
  }

  lemma PartsOfPortable(b: VerifiedBundle, t: Tree)
    requires t.Keys == BundleNodes(b) + {RECORD_PATH} && RECORD_PATH !in BundleNodes(b) && |t| <= MAX_VISIBLE_ENTRIES
    requires !HasReservedPath(b)
    requires forall p :: p in Paths(ManifestOf(b)) ==> |Split(p)| <= MAX_DIRECTORY_DEPTH + 1
    requires forall p, q :: p in Paths(ManifestOf(b)) && q in Paths(ManifestOf(b)) ==> !IsAncestor(p, q)
    requires forall p, q :: p in t && q in t && LowerCase(p) == LowerCase(q) ==> p == q
    ensures Portable(b)
  {
    hide HasReservedPath, RECORD_PATH, BundleNodes, Split, LowerCase, IsAncestor, RecordsOf;
    assert |t| == |t.Keys| == |BundleNodes(b)| + 1;
  }

  lemma NoFileAboveFile(t: Tree, m: BundleManifest, e: ExpectedTree)
    requires ExactTree(t, e) && e.directories == AncestorsOfAll(Paths(m)) && Paths(m) <= e.files
    ensures forall p, q :: p in Paths(m) && q in Paths(m) ==> !IsAncestor(p, q)
  {
    hide LowerCase, MaximumBytesFor;
    forall p, q | p in Paths(m) && q in Paths(m)
      ensures !IsAncestor(p, q)
    {
      assert p in Ancestors(q) ==> p in e.directories;
    }
  }

  lemma RecordIsApart(b: VerifiedBundle)
    requires !HasReservedPath(b)
    ensures RECORD_PATH !in BundleNodes(b)
  {
    hide RECORD_PATH, LowerCase, HasReservedPath, BundleNodes;
    if RECORD_PATH in BundleNodes(b) {
      RecordClashesWithNothing(b, RECORD_PATH);
    }
  }

  lemma GenuinePathsValid(env: Env, b: VerifiedBundle)
    requires Genuine(env, b)
    ensures PathsValid(ManifestOf(b), Allowance())
  {
    hide ValidPath, Genuine, RECORD_PATH;
    GenuineFacts(env, b);
    RecordPathIsValid();
  }

  /**
   Under any interference, a receipt is only ever returned for a portable bundle
   with a fitting publisher and a record within its size: what makes an
   undisturbed installation succeed is what every success needs.
   */
  lemma SuccessNeedsPortable(c: Call, w: Watch, n: nat)
    requires Genuine(c.env, c.bundle) && PhaseAt(c, w, n).Finished? && PhaseAt(c, w, n).outcome.Installed?
    requires forall k: nat :: TreeIn(c, w.view(k), Root).Some? ==> WellFormed(TreeIn(c, w.view(k), Root).value)
    ensures Portable(c.bundle) && PublisherFits(c) && RecordBytes(c.env, c.bundle, c.publisher).Success?
  {
    hide Genuine, PhaseAt, Portable, WellFormed, HasReservedPath, InspectTree, TreeIn, WasRead, Staged, PublisherFits,
         RecordBytes, RECORD_PATH, FileSeen;
    ReceiptNeedsEvidence(c, w, n);
    AlwaysPastGate(c, w, n);
    GenuinePathsValid(c.env, c.bundle);
    var k :| 0 <= k < n && InspectedAt(c, w, Root, k);
    InspectedMeansPortable(c.bundle, TreeIn(c, w.view(k), Root).value);
  }
}
