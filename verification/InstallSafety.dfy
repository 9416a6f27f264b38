/** What every interleaving of installers keeps true of the install store. */
module InstallSafety {
  import opened Bytes
  import opened Sorting
  import opened Distribution
  import opened Candidate
  import opened Directory
  import opened TreeDigest
  import opened InstallStore

  // ----- trees built from a plan

  /** File contents by path. */
  type Plan = map<Text, Text>

  function PlanOf(files: seq<VerifiedFile>): Plan {
    if files == [] then map[]
    else PlanOf(files[..|files| - 1])[files[|files| - 1].path := files[|files| - 1].bytes]
  }

  /** The tree holds exactly the planned files, their ancestor directories, and `dirs`. */
  ghost predicate Laid(t: Tree, plan: Plan, dirs: set<Text>) {
    && t.Keys == plan.Keys + AncestorsOfAll(plan.Keys) + dirs
    && (forall p :: p in plan ==> t[p] == File(plan[p], 1))
    && (forall p :: p in AncestorsOfAll(plan.Keys) + dirs ==> t[p] == Dir)
  }

  /** One bundle's complete file tree plus its record, and nothing else. */
  ghost predicate Complete(t: Tree, b: VerifiedBundle, record: Text) {
    Laid(t, PlanOf(b.files)[RECORD_PATH := record], {})
  }

  /** Ancestor directories of `p` whose separator lies before byte `k`. */
  function DirectoriesTo(p: Text, k: nat): set<Text> {
    set j | 0 <= j < k && j < |p| && p[j] == SLASH :: p[..j]
  }

  lemma DirectoriesToAll(p: Text, k: nat)
    requires k >= |p|
    ensures DirectoriesTo(p, k) == Ancestors(p)
  {
    forall a
      ensures a in DirectoriesTo(p, k) <==> a in Ancestors(p)
    {
      if a in Ancestors(p) {
        assert p[|a|] == SLASH && a == p[..|a|];
      }
    }
  }

  lemma DirectoriesToNext(p: Text, k: nat)
    requires k < |p|
    ensures DirectoriesTo(p, k + 1) == DirectoriesTo(p, k) + if p[k] == SLASH then {p[..k]} else {}
  {
    var more: set<Text> := if p[k] == SLASH then {p[..k]} else {};
    forall a
      ensures a in DirectoriesTo(p, k + 1) <==> a in DirectoriesTo(p, k) || a in more
    {
      if a in DirectoriesTo(p, k + 1) {
        var j :| 0 <= j < k + 1 && j < |p| && p[j] == SLASH && a == p[..j];
      }
    }
    assert DirectoriesTo(p, k + 1) == DirectoriesTo(p, k) + more;
  }

  lemma LayDirectory(t: Tree, plan: Plan, p: Text, k: nat)
    requires k < |p| && p[k] == SLASH && Laid(t, plan, DirectoriesTo(p, k))
    requires p[..k] !in t || t[p[..k]].Dir?
    ensures Laid(t[p[..k] := Dir], plan, DirectoriesTo(p, k + 1))
    ensures p[..k] in t ==> Laid(t, plan, DirectoriesTo(p, k + 1))
  {
    hide DirectoriesTo, Laid;
    DirectoriesToNext(p, k);
    LayOneDirectory(t, plan, DirectoriesTo(p, k), p[..k]);
    UnchangedNode(t, p[..k]);
  }

  lemma UnchangedNode(t: Tree, a: Text)
    requires a !in t || t[a].Dir?
    ensures a in t ==> t[a := Dir] == t
  {
  }

  lemma LayOneDirectory(t: Tree, plan: Plan, dirs: set<Text>, a: Text)
    requires Laid(t, plan, dirs) && (a !in t || t[a].Dir?)
    ensures Laid(t[a := Dir], plan, dirs + {a})
  {
    hide AncestorsOfAll;
    assert a !in plan;
    LayAbove(t, plan, AncestorsOfAll(plan.Keys), dirs, a);
    assert AncestorsOfAll(plan.Keys) + (dirs + {a}) == AncestorsOfAll(plan.Keys) + dirs + {a};
  }

  lemma LayAbove(t: Tree, plan: Plan, above: set<Text>, dirs: set<Text>, a: Text)
    requires t.Keys == plan.Keys + above + dirs && a !in plan
    requires (forall q :: q in plan ==> t[q] == File(plan[q], 1)) && forall q :: q in above + dirs ==> t[q] == Dir
    ensures var d := t[a := Dir];
            && d.Keys == plan.Keys + above + dirs + {a}
            && (forall q :: q in plan ==> d[q] == File(plan[q], 1))
            && forall q :: q in above + dirs + {a} ==> d[q] == Dir
  {
  }

  lemma LayFile(t: Tree, plan: Plan, p: Text, bytes: Text)
    requires Laid(t, plan, Ancestors(p)) && p !in t
    ensures Laid(t[p := File(bytes, 1)], plan[p := bytes], {})
  {
    AncestorsGrow(plan.Keys, p);
    hide AncestorsOfAll, Ancestors;
    LayPlanned(t, plan, p, bytes, AncestorsOfAll(plan.Keys), Ancestors(p));
    assert plan[p := bytes].Keys == plan.Keys + {p};
  }

  lemma LayPlanned(t: Tree, plan: Plan, p: Text, bytes: Text, above: set<Text>, own: set<Text>)
    requires t.Keys == plan.Keys + above + own && p !in t
    requires (forall q :: q in plan ==> t[q] == File(plan[q], 1)) && forall q :: q in above + own ==> t[q] == Dir
    ensures var d, more := t[p := File(bytes, 1)], plan[p := bytes];
            && d.Keys == more.Keys + (above + own) + {}
            && (forall q :: q in more ==> d[q] == File(more[q], 1)) && forall q :: q in above + own ==> d[q] == Dir
  {
  }

  lemma RecordPathIsPlain()
    ensures Ancestors(RECORD_PATH) == {} && RECORD_PATH != [] && RECORD_PATH[|RECORD_PATH| - 1] != SLASH
  {
    assert forall i :: 0 <= i < |RECORD_PATH| ==> RECORD_PATH[i] != SLASH;
  }

  ghost predicate PlanPath(p: Text) {
    p == RECORD_PATH || ValidPath(p)
  }

  lemma LaidIsWellFormed(t: Tree, plan: Plan)
    requires Laid(t, plan, {}) && forall p :: p in plan ==> PlanPath(p)
    ensures WellFormed(t)
  {
    hide ValidPath;
    forall p | p in t
      ensures p != [] && p[|p| - 1] != SLASH
      ensures forall a: Text :: IsAncestor(a, p) ==> a in t && t[a].Dir?
    {
      PlannedNode(plan, p);
    }
  }

  lemma PlannedNode(plan: Plan, p: Text)
    requires forall q :: q in plan ==> PlanPath(q)
    requires p in plan || p in AncestorsOfAll(plan.Keys)
    ensures p != [] && p[|p| - 1] != SLASH
    ensures forall a: Text :: IsAncestor(a, p) ==> a in AncestorsOfAll(plan.Keys)
  {
    RecordPathIsPlain();
    var f := p;
    if p !in plan {
      f :| f in plan && p in Ancestors(f);
      AncestorIsValidPath(p, f);
    }
    forall a: Text | IsAncestor(a, p)
      ensures a in AncestorsOfAll(plan.Keys)
    {
      if p != f {
        AncestorTransitive(a, p, f);
      }
      assert f in plan.Keys && a in Ancestors(f);
    }
  }

  lemma {:induction false} PlanPaths(files: seq<VerifiedFile>, p: Text)
    requires p in PlanOf(files)
    ensures exists i :: 0 <= i < |files| && files[i].path == p
  {
    if p != files[|files| - 1].path {
      PlanPaths(files[..|files| - 1], p);
      var i :| 0 <= i < |files| - 1 && files[..|files| - 1][i].path == p;
      assert files[i].path == p;
    }
  }

  lemma CompleteIsWellFormed(env: Env, t: Tree, b: VerifiedBundle, record: Text)
    requires Genuine(env, b) && Complete(t, b, record)
    ensures WellFormed(t)
  {
    hide ValidPath;
    var plan := PlanOf(b.files)[RECORD_PATH := record];
    forall p | p in plan
      ensures PlanPath(p)
    {
      if p != RECORD_PATH {
        PlanPaths(b.files, p);
      }
    }
    LaidIsWellFormed(t, plan);
  }

  // ----- the invariant

  /** The installer has created its subject's lock file and not yet dropped it. */
  predicate OwnsLock(ph: Phase) {
    !ph.Requested? && !ph.Finished? && !ph.Crashed?
  }

  /** The quarantine directory matches how far materialisation has come. */
  ghost predicate QuarantineOk(env: Env, t: Tree, x: Installer)
    requires InQuarantine(x.phase)
  {
    var files := x.bundle.files;
    match x.phase
    case StagingMade(_) => t == map[]
    case Parents(_, i, k) => i < |files| && k <= |files[i].path|
                             && Laid(t, PlanOf(files[..i]), DirectoriesTo(files[i].path, k))
    case Creating(_, i) => i < |files| && Laid(t, PlanOf(files[..i]), Ancestors(files[i].path))
    case Writing(_, i, n) =>
      && i < |files| && n <= |files[i].bytes|
      && files[i].path in t && t[files[i].path] == File(files[i].bytes[..n], 1)
      && Laid(t[files[i].path := File(files[i].bytes, 1)], PlanOf(files[..i + 1]), {})
    case StageInspect(_) => Laid(t, PlanOf(files), {})
    case StageReading(_, _) => Laid(t, PlanOf(files), {})
    case RecordCreate(_) => Laid(t, PlanOf(files), {})
    case RecordWriting(_, record, n) =>
      && RecordBytes(env, x.bundle, x.publisher) == Success(record) && n <= |record|
      && RECORD_PATH in t && t[RECORD_PATH] == File(record[..n], 1)
      && Complete(t[RECORD_PATH := File(record, 1)], x.bundle, record)
    case RecordCheck(_, record) =>
      RecordBytes(env, x.bundle, x.publisher) == Success(record) && Complete(t, x.bundle, record)
    case Promote(_) => HoldsBundle(env, t, x.bundle, x.publisher)
  }

  /** The tree is exactly this bundle's files and its record. */
  ghost predicate HoldsBundle(env: Env, t: Tree, b: VerifiedBundle, publisher: Option<Publisher>) {
    var record := RecordBytes(env, b, publisher);
    record.Success? && Complete(t, b, record.value)
  }

  function Allowance(): Option<(Text, nat)> {
    Some((RECORD_PATH, MAX_INSTALLATION_RECORD_BYTES))
  }

  function ManifestOf(b: VerifiedBundle): BundleManifest {
    BundleManifest(b.entryPoint, RecordsOf(b))
  }

  /** The candidates read so far are the root's files, in manifest order. */
  ghost predicate ReadSoFar(t: Tree, m: BundleManifest, got: seq<CandidateFile>) {
    && |got| <= |m.files|
    && forall i :: 0 <= i < |got| ==>
         m.files[i].path in t && t[m.files[i].path].File?
         && got[i] == CandidateFile(m.files[i].path, t[m.files[i].path].bytes)
         && |got[i].bytes| <= MAX_BUNDLE_FILE_BYTES
  }

  /** The root's file nodes are exactly the bundle's records (plus the installation record). */
  ghost predicate ContentsMatch(env: Env, t: Tree, b: VerifiedBundle) {
    && RECORD_PATH !in Paths(ManifestOf(b))
    && (forall p :: p in t && t[p].File? <==> p in Paths(ManifestOf(b)) || p == RECORD_PATH)
    && (forall f :: f in RecordsOf(b) ==>
          f.path in t && t[f.path].File?
          && |t[f.path].bytes| == f.byteLength && env.hash(t[f.path].bytes) == f.digest)
  }

  /** What a receipt vouches for: exact file list and exact record bytes. */
  ghost predicate Matches(env: Env, t: Tree, b: VerifiedBundle, publisher: Option<Publisher>) {
    && ContentsMatch(env, t, b)
    && RecordBytes(env, b, publisher).Success?
    && RECORD_PATH in t && t[RECORD_PATH].File?
    && t[RECORD_PATH].bytes == RecordBytes(env, b, publisher).value
  }

  ghost predicate PromotedBy(promoter: map<Text, nat>, subject: Text, pid: nat) {
    subject in promoter && promoter[subject] == pid
  }

  ghost predicate PurposeOk(promoter: map<Text, nat>, pid: nat, subject: Text, purpose: Purpose) {
    !purpose.AfterRace? && (purpose.AfterPromotion? ==> PromotedBy(promoter, subject, pid))
  }

  ghost predicate OutcomeOk(env: Env, s: Store, promoter: map<Text, nat>, pid: nat, x: Installer, r: Outcome) {
    r.Installed? ==>
      && x.bundle.subject in s.roots && Matches(env, s.roots[x.bundle.subject], x.bundle, x.publisher)
      && (!r.reused ==> PromotedBy(promoter, x.bundle.subject, pid))
  }

  ghost predicate RootPhaseOk(env: Env, s: Store, promoter: map<Text, nat>, pid: nat, x: Installer) {
    var subject := x.bundle.subject;
    match x.phase
    case RootInspect(purpose) => subject in s.roots && PurposeOk(promoter, pid, subject, purpose)
    case RootReading(purpose, got) =>
      && subject in s.roots && PurposeOk(promoter, pid, subject, purpose)
      && InspectTree(s.roots[subject], ManifestOf(x.bundle), Allowance()).Success?
      && ReadSoFar(s.roots[subject], ManifestOf(x.bundle), got)
    case RecordCompare(purpose) =>
      && subject in s.roots && PurposeOk(promoter, pid, subject, purpose)
      && ContentsMatch(env, s.roots[subject], x.bundle)
    case Cleaning(_, next) => next.Return? && next.outcome.Failed?
    case Unlocking(r) => OutcomeOk(env, s, promoter, pid, x, r)
    case Finished(r) => OutcomeOk(env, s, promoter, pid, x, r)
    case _ => true
  }

  ghost predicate LockOk(s: Store, x: Installer) {
    && (OwnsLock(x.phase) ==> x.bundle.subject in s.locks && !HasReservedPath(x.bundle))
    && ((InQuarantine(x.phase) || x.phase.StagingAttempt?) ==> x.bundle.subject !in s.roots)
  }

  ghost predicate StageOk(env: Env, s: Store, x: Installer) {
    InQuarantine(x.phase) ==>
      var slot := Slot(x.bundle.subject, x.phase.attempt);
      slot in s.staging && QuarantineOk(env, s.staging[slot], x)
  }

  ghost predicate InstallerOk(env: Env, s: Store, promoter: map<Text, nat>, pid: nat, x: Installer) {
    Genuine(env, x.bundle) && LockOk(s, x) && StageOk(env, s, x) && RootPhaseOk(env, s, promoter, pid, x)
  }

  /** Each published root holds exactly its promoter's bundle and record. */
  ghost predicate RootOk(env: Env, w: World, subject: Text)
    requires subject in w.store.roots
  {
    && subject in w.promoter && w.promoter[subject] in w.installers
    && var x := w.installers[w.promoter[subject]];
       x.bundle.subject == subject && Genuine(env, x.bundle)
       && HoldsBundle(env, w.store.roots[subject], x.bundle, x.publisher)
  }

  ghost predicate Exclusive(w: World) {
    forall p, q :: p in w.installers && q in w.installers && p != q
                   && OwnsLock(w.installers[p].phase) && OwnsLock(w.installers[q].phase)
                   ==> w.installers[p].bundle.subject != w.installers[q].bundle.subject
  }

  ghost predicate Inv(env: Env, w: World) {
    && Exclusive(w)
    && (forall pid :: pid in w.installers ==> InstallerOk(env, w.store, w.promoter, pid, w.installers[pid]))
    && (forall subject :: subject in w.store.roots ==> RootOk(env, w, subject))
  }

  // ----- one installer's step, seen by itself

  lemma MaterializeKeeps(env: Env, s: Store, x: Installer, choice: Choice)
    requires Genuine(env, x.bundle) && StageOk(env, s, x) && InQuarantine(x.phase)
    requires x.phase.StagingMade? || x.phase.Parents? || x.phase.Creating? || x.phase.Writing?
    ensures var e := MaterializeStep(s, s.staging[Slot(x.bundle.subject, x.phase.attempt)], x, choice);
            StageOk(env, e.store, x.(phase := e.phase))
  {
    hide Genuine, Complete, Laid, PlanOf, DirectoriesTo;
    var files := x.bundle.files;
    var t := s.staging[Slot(x.bundle.subject, x.phase.attempt)];
    match x.phase
    case StagingMade(_) =>
      StartsEmpty(t, files);
    case Parents(_, i, k) =>
      var p := files[i].path;
      if k >= |p| {
        DirectoriesToAll(p, k);
      } else if p[k] == SLASH {
        if p[..k] !in t || t[p[..k]].Dir? {
          LayDirectory(t, PlanOf(files[..i]), p, k);
        }
      } else {
        DirectoriesToNext(p, k);
        assert DirectoriesTo(p, k + 1) == DirectoriesTo(p, k);
      }
    case Creating(_, i) =>
      var p := files[i].path;
      if p !in t {
        LayFile(t, PlanOf(files[..i]), p, files[i].bytes);
        PlanGrows(files, i);
        assert t[p := File([], 1)][p := File(files[i].bytes, 1)] == t[p := File(files[i].bytes, 1)];
        assert files[i].bytes[..0] == [];
      }
    case Writing(_, i, n) =>
      var p, bytes := files[i].path, files[i].bytes;
      if n >= |bytes| {
        assert bytes[..n] == bytes;
        assert t[p := File(bytes, 1)] == t;
        FileDone(t, files, i);
      } else {
        var m := Grow(n, choice, |bytes|);
        assert t[p := File(bytes[..m], 1)][p := File(bytes, 1)] == t[p := File(bytes, 1)];
      }
  }

  lemma StartsEmpty(t: Tree, files: seq<VerifiedFile>)
    requires t == map[]
    ensures files == [] ==> Laid(t, PlanOf(files), {})
    ensures files != [] ==> Laid(t, PlanOf(files[..0]), DirectoriesTo(files[0].path, 0))
  {
  }

  lemma PlanGrows(files: seq<VerifiedFile>, i: nat)
    requires i < |files|
    ensures PlanOf(files[..i + 1]) == PlanOf(files[..i])[files[i].path := files[i].bytes]
  {
    assert files[..i + 1][..i] == files[..i];
  }

  lemma FileDone(t: Tree, files: seq<VerifiedFile>, i: nat)
    requires i < |files| && Laid(t, PlanOf(files[..i + 1]), {})
    ensures i + 1 == |files| ==> Laid(t, PlanOf(files), {})
    ensures i + 1 < |files| ==> Laid(t, PlanOf(files[..i + 1]), DirectoriesTo(files[i + 1].path, 0))
  {
    assert files[..|files|] == files;
    assert i + 1 < |files| ==> DirectoriesTo(files[i + 1].path, 0) == {};
  }

  lemma RecordKeeps(env: Env, s: Store, x: Installer, choice: Choice)
    requires Genuine(env, x.bundle) && StageOk(env, s, x) && (x.phase.RecordCreate? || x.phase.RecordWriting?)
    ensures var e := StageStep(env, s, s.staging[Slot(x.bundle.subject, x.phase.attempt)], x, choice);
            StageOk(env, e.store, x.(phase := e.phase))
  {
    hide Genuine, InspectTree, ReadDeclared, Verify, ManifestFromVerified, Laid, RecordBytes, PlanOf, RECORD_PATH;
    var t := s.staging[Slot(x.bundle.subject, x.phase.attempt)];
    match x.phase
    case RecordCreate(_) =>
      if RECORD_PATH !in t && RecordBytes(env, x.bundle, x.publisher).Success? {
        LayRecord(t, x.bundle, RecordBytes(env, x.bundle, x.publisher).value);
      }
    case RecordWriting(_, record, n) =>
      if n >= |record| {
        assert record[..n] == record;
        assert t[RECORD_PATH := File(record, 1)] == t;
      } else {
        var m := Grow(n, choice, |record|);
        assert t[RECORD_PATH := File(record[..m], 1)][RECORD_PATH := File(record, 1)]
               == t[RECORD_PATH := File(record, 1)];
      }
  }

  lemma StageKeeps(env: Env, s: Store, x: Installer, choice: Choice)
    requires Genuine(env, x.bundle) && StageOk(env, s, x) && InQuarantine(x.phase)
    requires !(x.phase.StagingMade? || x.phase.Parents? || x.phase.Creating? || x.phase.Writing?)
    ensures var e := StageStep(env, s, s.staging[Slot(x.bundle.subject, x.phase.attempt)], x, choice);
            StageOk(env, e.store, x.(phase := e.phase))
  {
    hide Genuine, InspectTree, ReadDeclared, Verify, ManifestFromVerified, Laid, RecordBytes, PlanOf, RECORD_PATH;
    if x.phase.RecordCreate? || x.phase.RecordWriting? {
      RecordKeeps(env, s, x, choice);
    }
  }

  lemma LayRecord(t: Tree, b: VerifiedBundle, record: Text)
    requires Laid(t, PlanOf(b.files), {}) && RECORD_PATH !in t
    ensures Complete(t[RECORD_PATH := File([], 1)][RECORD_PATH := File(record, 1)], b, record)
    ensures record[..0] == []
  {
    RecordPathIsPlain();
    LayFile(t, PlanOf(b.files), RECORD_PATH, record);
    assert t[RECORD_PATH := File([], 1)][RECORD_PATH := File(record, 1)] == t[RECORD_PATH := File(record, 1)];
  }

  // ----- reading and judging a published root

  lemma RecordPathNotDeclared(b: VerifiedBundle)
    requires !HasReservedPath(b)
    ensures RECORD_PATH !in Paths(ManifestOf(b))
  {
    hide LowerCase, RECORD_PATH;
    assert forall i :: 0 <= i < |b.files| ==> !IsReserved(b.files[i].path);
  }

  lemma ReadYieldsNode(t: Tree, p: Text, maximum: nat)
    requires ReadDeclared(t, p, maximum).Success?
    ensures p in t && t[p].File? && ReadDeclared(t, p, maximum).value == t[p].bytes && |t[p].bytes| <= maximum
  {
    hide Split, ComponentError;
  }

  lemma ReadOneMore(t: Tree, m: BundleManifest, got: seq<CandidateFile>)
    requires ReadSoFar(t, m, got) && |got| < |m.files|
    requires ReadDeclared(t, m.files[|got|].path, MAX_BUNDLE_FILE_BYTES).Success?
    ensures var p := m.files[|got|].path;
            ReadSoFar(t, m, got + [CandidateFile(p, ReadDeclared(t, p, MAX_BUNDLE_FILE_BYTES).value)])
  {
    ReadYieldsNode(t, m.files[|got|].path, MAX_BUNDLE_FILE_BYTES);
    hide ReadDeclared;
  }

  lemma ExactTreeFixesFiles(t: Tree, m: BundleManifest)
    requires Expect(m, Allowance()).Success? && ExactTree(t, Expect(m, Allowance()).value)
    ensures forall p :: p in t && t[p].File? <==> p in Paths(m) || p == RECORD_PATH
  {
    hide Split, RECORD_PATH;
    var e := Expect(m, Allowance()).value;
    assert e.files == Paths(m) + {RECORD_PATH};
  }

  /** All files read and verified: the declared records are the root's file contents. */
  lemma VerdictFixesRecords(env: Env, t: Tree, b: VerifiedBundle, got: seq<CandidateFile>)
    requires StrictlyOrdered(RecordsOf(b), FilePath)
    requires ReadSoFar(t, ManifestOf(b), got) && |got| == |ManifestOf(b).files|
    requires Verify(env.hash, ManifestOf(b), b.subject, b.subject, got).Success?
    ensures forall f :: f in RecordsOf(b) ==>
              f.path in t && t[f.path].File?
              && |t[f.path].bytes| == f.byteLength && env.hash(t[f.path].bytes) == f.digest
  {
    hide Verify;
    var m := ManifestOf(b);
    VerifyAcceptsExactly(env.hash, m, b.subject, b.subject, got);
    hide WithinLimits, DistinctKeys;
    forall f | f in m.files
      ensures f.path in t && t[f.path].File? && |t[f.path].bytes| == f.byteLength
              && env.hash(t[f.path].bytes) == f.digest
    {
      var i :| 0 <= i < |m.files| && m.files[i] == f;
      var d := DescribeAll(got, env.hash)[i];
      assert d in DescribeAll(got, env.hash);
      SamePathSameRecord(m.files, f, d);
    }
  }

  lemma SamePathSameRecord(files: seq<BundleFile>, f: BundleFile, g: BundleFile)
    requires StrictlyOrdered(files, FilePath) && f in files && g in files && f.path == g.path
    ensures f == g
  {
    StrictIsDistinct(files, FilePath);
    var i :| 0 <= i < |files| && files[i] == f;
    var j :| 0 <= j < |files| && files[j] == g;
    assert FilePath(files[i]) == FilePath(files[j]);
  }

  lemma VerdictMeansContentsMatch(env: Env, t: Tree, b: VerifiedBundle, got: seq<CandidateFile>)
    requires WellFormed(t) && Genuine(env, b)
    requires InspectTree(t, ManifestOf(b), Allowance()).Success?
    requires ReadSoFar(t, ManifestOf(b), got) && |got| == |ManifestOf(b).files|
    requires Verify(env.hash, ManifestOf(b), b.subject, b.subject, got).Success?
    requires !HasReservedPath(b)
    ensures ContentsMatch(env, t, b)
  {
    hide RECORD_PATH, HasReservedPath, InspectTree, WellFormed, Genuine, Verify, ReadSoFar, Expect, ExactTree,
         StrictlyOrdered, ContentsMatch, RecordsOf;
    RecordPathNotDeclared(b);
    GenuineIsOrdered(env, b);
    VerdictFixesRecords(env, t, b, got);
    InspectedTreeIsExact(t, ManifestOf(b), Allowance());
    ExactTreeFixesFiles(t, ManifestOf(b));
    AssembleContents(env, t, b);
  }

  lemma AssembleContents(env: Env, t: Tree, b: VerifiedBundle)
    requires RECORD_PATH !in Paths(ManifestOf(b))
    requires forall p :: p in t && t[p].File? <==> p in Paths(ManifestOf(b)) || p == RECORD_PATH
    requires forall f :: f in RecordsOf(b) ==>
               f.path in t && t[f.path].File?
               && |t[f.path].bytes| == f.byteLength && env.hash(t[f.path].bytes) == f.digest
    ensures ContentsMatch(env, t, b)
  {
    hide RECORD_PATH;
  }

  lemma GenuineIsOrdered(env: Env, b: VerifiedBundle)
    requires Genuine(env, b)
    ensures StrictlyOrdered(RecordsOf(b), FilePath)
  {
    NormalizeAccepts(BUNDLE_FORMAT, SHA256_ALGORITHM, b.entryPoint, RecordsOf(b), DEFAULT_LIMITS);
  }

  lemma RootInspectKeeps(env: Env, s: Store, promoter: map<Text, nat>, pid: nat, x: Installer, choice: Choice)
    requires Genuine(env, x.bundle) && RootPhaseOk(env, s, promoter, pid, x) && x.phase.RootInspect?
    ensures var e := RootStep(env, s, x, choice);
            e.store == s && !e.promoted && RootPhaseOk(env, s, promoter, pid, x.(phase := e.phase))
  {
    hide InspectTree, ReadDeclared, Verify, ManifestFromVerified, ContentsMatch, Matches, Genuine, Normalize;
    GenuineManifest(env, x.bundle);
  }

  lemma GenuineManifest(env: Env, b: VerifiedBundle)
    requires Genuine(env, b)
    ensures ManifestFromVerified(b) == Success(ManifestOf(b))
  {
    hide ManifestFromVerified, ValidPath;
  }

  lemma RootReadingKeeps(env: Env, s: Store, promoter: map<Text, nat>, pid: nat, x: Installer, choice: Choice)
    requires Genuine(env, x.bundle) && RootPhaseOk(env, s, promoter, pid, x) && x.phase.RootReading?
    requires WellFormed(s.roots[x.bundle.subject]) && !HasReservedPath(x.bundle)
    ensures var e := RootStep(env, s, x, choice);
            e.store == s && !e.promoted && RootPhaseOk(env, s, promoter, pid, x.(phase := e.phase))
  {
    hide InspectTree, ReadDeclared, Verify, ManifestFromVerified, ContentsMatch, Matches, Genuine, WellFormed,
         ReadSoFar, HasReservedPath;
    GenuineManifest(env, x.bundle);
    var t := s.roots[x.bundle.subject];
    var m, got := ManifestOf(x.bundle), x.phase.got;
    if |got| < |m.files| {
      if ReadDeclared(t, m.files[|got|].path, MAX_BUNDLE_FILE_BYTES).Success? {
        ReadOneMore(t, m, got);
      }
    } else if Verify(env.hash, m, x.bundle.subject, x.bundle.subject, got).Success? {
      assert |got| == |m.files| by {
        ReadSoFarBound(t, m, got);
      }
      VerdictMeansContentsMatch(env, t, x.bundle, got);
    }
  }

  lemma ReadSoFarBound(t: Tree, m: BundleManifest, got: seq<CandidateFile>)
    requires ReadSoFar(t, m, got)
    ensures |got| <= |m.files|
  {
  }

  lemma RecordCompareKeeps(env: Env, s: Store, promoter: map<Text, nat>, pid: nat, x: Installer, choice: Choice)
    requires Genuine(env, x.bundle) && RootPhaseOk(env, s, promoter, pid, x) && x.phase.RecordCompare?
    ensures var e := RootStep(env, s, x, choice);
            e.store == s && !e.promoted && RootPhaseOk(env, s, promoter, pid, x.(phase := e.phase))
  {
    hide InspectTree, ReadDeclared, Verify, ManifestFromVerified, ContentsMatch, Genuine, RecordBytes;
    var t := s.roots[x.bundle.subject];
    if ReadDeclared(t, RECORD_PATH, MAX_INSTALLATION_RECORD_BYTES).Success? {
      ReadYieldsNode(t, RECORD_PATH, MAX_INSTALLATION_RECORD_BYTES);
    }
  }

  // ----- what a step can touch

  /** Nothing of another subject's moves. */
  ghost predicate Frame(a: Store, b: Store, subject: Text) {
    && (forall u :: u != subject ==> (u in a.locks <==> u in b.locks))
    && (forall u :: u != subject ==> (u in a.roots <==> u in b.roots))
    && (forall u :: u != subject && u in a.roots ==> a.roots[u] == b.roots[u])
    && (forall d: Slot :: d.subject != subject ==> (d in a.staging <==> d in b.staging))
    && (forall d: Slot :: d.subject != subject && d in a.staging ==> a.staging[d] == b.staging[d])
  }

  /** A step publishes at most its own subject's root, and only where there was none. */
  ghost predicate RootsAdvance(a: Store, e: Effect, x: Installer) {
    if e.promoted then
      && x.phase.Promote? && x.bundle.subject !in a.roots
      && Slot(x.bundle.subject, x.phase.attempt) in a.staging
      && e.store.roots == a.roots[x.bundle.subject := a.staging[Slot(x.bundle.subject, x.phase.attempt)]]
      && e.store.locks == a.locks && e.phase == RootInspect(AfterPromotion(x.phase.attempt))
    else
      e.store.roots == a.roots
  }

  /** How the lock file moves with ownership of it. */
  ghost predicate LockAdvance(a: Store, e: Effect, x: Installer) {
    var subject := x.bundle.subject;
    && (OwnsLock(x.phase) && OwnsLock(e.phase) ==> e.store.locks == a.locks)
    && (!OwnsLock(x.phase) && OwnsLock(e.phase) ==>
          subject !in a.locks && e.store == a.(locks := a.locks + {subject}) && !HasReservedPath(x.bundle))
    && (!OwnsLock(x.phase) && !OwnsLock(e.phase) ==> e.store == a)
  }

  /** The effect keeps locks and roots and moves at most this subject's quarantine. */
  ghost predicate QuarantineOnly(a: Store, e: Effect, subject: Text) {
    && e.store.locks == a.locks && e.store.roots == a.roots && !e.promoted && OwnsLock(e.phase)
    && (forall d: Slot :: d.subject != subject ==> (d in a.staging <==> d in e.store.staging))
    && (forall d: Slot :: d.subject != subject && d in a.staging ==> a.staging[d] == e.store.staging[d])
  }

  lemma MaterializeTouches(s: Store, t: Tree, x: Installer, choice: Choice)
    requires x.phase.StagingMade? || x.phase.Parents? || x.phase.Creating? || x.phase.Writing?
    ensures QuarantineOnly(s, MaterializeStep(s, t, x, choice), x.bundle.subject)
  {
  }

  lemma StageTouches(env: Env, s: Store, t: Tree, x: Installer, choice: Choice)
    requires x.phase.StageInspect? || x.phase.StageReading? || x.phase.RecordCreate? || x.phase.RecordWriting?
             || x.phase.RecordCheck?
    ensures QuarantineOnly(s, StageStep(env, s, t, x, choice), x.bundle.subject)
  {
    hide InspectTree, ReadDeclared, Verify, ManifestFromVerified, RecordBytes;
  }

  lemma PromoteTouches(env: Env, s: Store, x: Installer, choice: Choice)
    requires x.phase.Promote? && x.bundle.subject !in s.roots
    requires Slot(x.bundle.subject, x.phase.attempt) in s.staging
    ensures var e := StageStep(env, s, s.staging[Slot(x.bundle.subject, x.phase.attempt)], x, choice);
            Frame(s, e.store, x.bundle.subject) && RootsAdvance(s, e, x) && LockAdvance(s, e, x)
  {
    hide InspectTree, ReadDeclared, Verify, ManifestFromVerified, RecordBytes, HasReservedPath;
  }

  lemma RootTouches(env: Env, s: Store, x: Installer, choice: Choice)
    requires x.phase.RootInspect? || x.phase.RootReading? || x.phase.RecordCompare?
    ensures QuarantineOnly(s, RootStep(env, s, x, choice), x.bundle.subject)
  {
    hide InspectTree, ReadDeclared, Verify, ManifestFromVerified, RecordBytes;
  }

  lemma LateTouches(s: Store, x: Installer, choice: Choice)
    requires x.phase.Cleaning? || x.phase.Unlocking?
    ensures var e := LateStep(s, x, choice);
            Frame(s, e.store, x.bundle.subject) && RootsAdvance(s, e, x) && LockAdvance(s, e, x)
  {
    hide HasReservedPath;
  }

  lemma EarlyTouches(env: Env, s: Store, x: Installer, choice: Choice)
    requires x.phase.Requested? || x.phase.LockMade? || x.phase.Locked? || x.phase.StagingAttempt?
    ensures var e := EarlyStep(env, s, x, choice);
            Frame(s, e.store, x.bundle.subject) && RootsAdvance(s, e, x) && LockAdvance(s, e, x)
  {
    hide HasReservedPath;
  }

  lemma StepTouches(env: Env, s: Store, x: Installer, choice: Choice)
    requires LockOk(s, x)
    ensures var e := StepOf(env, s, x, choice);
            Frame(s, e.store, x.bundle.subject) && RootsAdvance(s, e, x) && LockAdvance(s, e, x)
  {
    hide MaterializeStep, StageStep, RootStep, LateStep, EarlyStep, HasReservedPath;
    if x.phase.Finished? || x.phase.Crashed? || choice.Crash? {
    } else if InQuarantine(x.phase) {
      var slot := Slot(x.bundle.subject, x.phase.attempt);
      if slot in s.staging {
        var t := s.staging[slot];
        if x.phase.StagingMade? || x.phase.Parents? || x.phase.Creating? || x.phase.Writing? {
          MaterializeTouches(s, t, x, choice);
        } else if x.phase.Promote? {
          PromoteTouches(env, s, x, choice);
        } else {
          StageTouches(env, s, t, x, choice);
        }
      }
    } else if x.phase.RootInspect? || x.phase.RootReading? || x.phase.RecordCompare? {
      RootTouches(env, s, x, choice);
    } else if x.phase.Cleaning? || x.phase.Unlocking? {
      LateTouches(s, x, choice);
    } else {
      EarlyTouches(env, s, x, choice);
    }
  }

  // ----- one installer's own step keeps its part of the invariant

  lemma StepKeepsStage(env: Env, s: Store, x: Installer, choice: Choice)
    requires Genuine(env, x.bundle) && StageOk(env, s, x)
    ensures var e := StepOf(env, s, x, choice);
            StageOk(env, e.store, x.(phase := e.phase))
  {
    hide MaterializeStep, StageStep, Genuine, StageOk, RootStep;
    if x.phase.Finished? || x.phase.Crashed? || choice.Crash? {
      NoStage(env, s, x.(phase := Crashed));
    } else if InQuarantine(x.phase) {
      StageHasSlot(env, s, x);
      if x.phase.StagingMade? || x.phase.Parents? || x.phase.Creating? || x.phase.Writing? {
        MaterializeKeeps(env, s, x, choice);
      } else {
        StageKeeps(env, s, x, choice);
      }
    } else if x.phase.RootInspect? || x.phase.RootReading? || x.phase.RecordCompare? {
      RootLeavesQuarantine(env, s, x, choice);
    } else {
      EarlyLateStage(env, s, x, choice);
    }
  }

  lemma NoStage(env: Env, s: Store, x: Installer)
    requires !InQuarantine(x.phase)
    ensures StageOk(env, s, x)
  {
  }

  lemma StageHasSlot(env: Env, s: Store, x: Installer)
    requires StageOk(env, s, x) && InQuarantine(x.phase)
    ensures Slot(x.bundle.subject, x.phase.attempt) in s.staging
  {
  }

  lemma RootLeavesQuarantine(env: Env, s: Store, x: Installer, choice: Choice)
    requires x.phase.RootInspect? || x.phase.RootReading? || x.phase.RecordCompare?
    ensures var e := RootStep(env, s, x, choice);
            StageOk(env, e.store, x.(phase := e.phase))
  {
    hide InspectTree, ReadDeclared, Verify, ManifestFromVerified, RecordBytes, QuarantineOk;
  }

  lemma EarlyLateStage(env: Env, s: Store, x: Installer, choice: Choice)
    requires x.phase.Requested? || x.phase.LockMade? || x.phase.Locked? || x.phase.StagingAttempt?
             || x.phase.Cleaning? || x.phase.Unlocking?
    ensures var e := StepOf(env, s, x, choice);
            StageOk(env, e.store, x.(phase := e.phase))
  {
    hide HasReservedPath;
  }

  function PromoterAfter(promoter: map<Text, nat>, e: Effect, subject: Text, pid: nat): map<Text, nat> {
    if e.promoted then promoter[subject := pid] else promoter
  }

  lemma StageStepKeepsRootPhase(env: Env, s: Store, promoter: map<Text, nat>, pid: nat, x: Installer, choice: Choice)
    requires LockOk(s, x) && InQuarantine(x.phase) && Slot(x.bundle.subject, x.phase.attempt) in s.staging
    requires !(x.phase.StagingMade? || x.phase.Parents? || x.phase.Creating? || x.phase.Writing?)
    ensures var e := StageStep(env, s, s.staging[Slot(x.bundle.subject, x.phase.attempt)], x, choice);
            RootPhaseOk(env, e.store, PromoterAfter(promoter, e, x.bundle.subject, pid), pid, x.(phase := e.phase))
  {
    hide InspectTree, ReadDeclared, Verify, ManifestFromVerified, RecordBytes, HasReservedPath, ReadSoFar, Matches,
         ContentsMatch;
  }

  lemma OtherStepKeepsRootPhase(env: Env, s: Store, promoter: map<Text, nat>, pid: nat, x: Installer, choice: Choice)
    requires LockOk(s, x) && RootPhaseOk(env, s, promoter, pid, x)
    requires x.phase.Requested? || x.phase.LockMade? || x.phase.Locked? || x.phase.StagingAttempt?
             || x.phase.Cleaning? || x.phase.Unlocking?
    ensures var e := StepOf(env, s, x, choice);
            !e.promoted && RootPhaseOk(env, e.store, promoter, pid, x.(phase := e.phase))
  {
    hide HasReservedPath, Matches;
  }

  lemma MaterializeKeepsRootPhase(env: Env, s: Store, promoter: map<Text, nat>, pid: nat, x: Installer, choice: Choice)
    requires x.phase.StagingMade? || x.phase.Parents? || x.phase.Creating? || x.phase.Writing?
    requires Slot(x.bundle.subject, x.phase.attempt) in s.staging
    ensures var e := MaterializeStep(s, s.staging[Slot(x.bundle.subject, x.phase.attempt)], x, choice);
            !e.promoted && RootPhaseOk(env, e.store, promoter, pid, x.(phase := e.phase))
  {
  }

  lemma StepKeepsRootPhase(env: Env, s: Store, promoter: map<Text, nat>, pid: nat, x: Installer, choice: Choice)
    requires Genuine(env, x.bundle) && LockOk(s, x) && StageOk(env, s, x) && RootPhaseOk(env, s, promoter, pid, x)
    requires x.bundle.subject in s.roots ==> WellFormed(s.roots[x.bundle.subject])
    ensures var e := StepOf(env, s, x, choice);
            RootPhaseOk(env, e.store, PromoterAfter(promoter, e, x.bundle.subject, pid), pid, x.(phase := e.phase))
  {
    hide MaterializeStep, StageStep, RootStep, Genuine, StageOk, LockOk, ContentsMatch, Matches, ReadSoFar, InspectTree,
         WellFormed;
    if x.phase.Finished? || x.phase.Crashed? || choice.Crash? {
    } else if InQuarantine(x.phase) {
      StageHasSlot(env, s, x);
      if x.phase.StagingMade? || x.phase.Parents? || x.phase.Creating? || x.phase.Writing? {
        MaterializeKeepsRootPhase(env, s, promoter, pid, x, choice);
      } else {
        StageStepKeepsRootPhase(env, s, promoter, pid, x, choice);
      }
    } else if x.phase.RootInspect? {
      RootInspectKeeps(env, s, promoter, pid, x, choice);
    } else if x.phase.RootReading? {
      OwnerIsNotReserved(s, x);
      RootReadingKeeps(env, s, promoter, pid, x, choice);
    } else if x.phase.RecordCompare? {
      RecordCompareKeeps(env, s, promoter, pid, x, choice);
    } else {
      OtherStepKeepsRootPhase(env, s, promoter, pid, x, choice);
    }
  }

  lemma OwnerIsNotReserved(s: Store, x: Installer)
    requires LockOk(s, x) && OwnsLock(x.phase)
    ensures !HasReservedPath(x.bundle)
  {
  }

  lemma StepKeepsLock(env: Env, s: Store, x: Installer, choice: Choice)
    requires LockOk(s, x)
    ensures var e := StepOf(env, s, x, choice);
            LockOk(e.store, x.(phase := e.phase))
  {
    StepTouches(env, s, x, choice);
    AbsentRootStays(env, s, x, choice);
    hide StepOf, HasReservedPath;
  }

  /** The next phase is a quarantine phase only if no root was published and none is there. */
  ghost predicate RootStaysAbsent(s: Store, x: Installer, e: Effect) {
    InQuarantine(e.phase) || e.phase.StagingAttempt? ==> !e.promoted && x.bundle.subject !in s.roots
  }

  lemma MaterializeAbsent(s: Store, t: Tree, x: Installer, choice: Choice)
    requires x.phase.StagingMade? || x.phase.Parents? || x.phase.Creating? || x.phase.Writing?
    requires x.bundle.subject !in s.roots
    ensures RootStaysAbsent(s, x, MaterializeStep(s, t, x, choice))
  {
  }

  lemma StageAbsent(env: Env, s: Store, t: Tree, x: Installer, choice: Choice)
    requires x.phase.StageInspect? || x.phase.StageReading? || x.phase.RecordCreate? || x.phase.RecordWriting?
             || x.phase.RecordCheck? || x.phase.Promote?
    requires x.bundle.subject !in s.roots
    ensures RootStaysAbsent(s, x, StageStep(env, s, t, x, choice))
  {
    hide InspectTree, ReadDeclared, Verify, ManifestFromVerified, RecordBytes;
  }

  lemma RootAbsent(env: Env, s: Store, x: Installer, choice: Choice)
    requires x.phase.RootInspect? || x.phase.RootReading? || x.phase.RecordCompare?
    ensures RootStaysAbsent(s, x, RootStep(env, s, x, choice))
  {
    hide InspectTree, ReadDeclared, Verify, ManifestFromVerified, RecordBytes;
  }

  lemma EarlyLateAbsent(env: Env, s: Store, x: Installer, choice: Choice)
    requires LockOk(s, x)
    ensures x.phase.Cleaning? || x.phase.Unlocking? ==> RootStaysAbsent(s, x, LateStep(s, x, choice))
    ensures x.phase.Requested? || x.phase.LockMade? || x.phase.Locked? || x.phase.StagingAttempt? ==>
              RootStaysAbsent(s, x, EarlyStep(env, s, x, choice))
  {
    hide HasReservedPath;
  }

  /** Only the lock holder that found no root gets to, and stays in, the quarantine phases. */
  lemma AbsentRootStays(env: Env, s: Store, x: Installer, choice: Choice)
    requires LockOk(s, x)
    ensures RootStaysAbsent(s, x, StepOf(env, s, x, choice))
  {
    hide MaterializeStep, StageStep, RootStep, LateStep, EarlyStep, HasReservedPath;
    if x.phase.Finished? || x.phase.Crashed? || choice.Crash? {
    } else if InQuarantine(x.phase) {
      var slot := Slot(x.bundle.subject, x.phase.attempt);
      if slot in s.staging {
        if x.phase.StagingMade? || x.phase.Parents? || x.phase.Creating? || x.phase.Writing? {
          MaterializeAbsent(s, s.staging[slot], x, choice);
        } else {
          StageAbsent(env, s, s.staging[slot], x, choice);
        }
      }
    } else if x.phase.RootInspect? || x.phase.RootReading? || x.phase.RecordCompare? {
      RootAbsent(env, s, x, choice);
    } else {
      EarlyLateAbsent(env, s, x, choice);
    }
  }

  lemma OwnStepKeeps(env: Env, s: Store, promoter: map<Text, nat>, pid: nat, x: Installer, choice: Choice)
    requires InstallerOk(env, s, promoter, pid, x)
    requires x.bundle.subject in s.roots ==> WellFormed(s.roots[x.bundle.subject])
    ensures var e := StepOf(env, s, x, choice);
            InstallerOk(env, e.store, PromoterAfter(promoter, e, x.bundle.subject, pid), pid, x.(phase := e.phase))
  {
    hide StepOf, Genuine, LockOk, StageOk, RootPhaseOk, WellFormed;
    StepKeepsLock(env, s, x, choice);
    StepKeepsStage(env, s, x, choice);
    StepKeepsRootPhase(env, s, promoter, pid, x, choice);
  }

  // ----- and everybody else's

  /** An installer is untouched by a step of an installer of another subject, or of one it excludes. */
  lemma OtherStepKeeps(env: Env, s: Store, promoter: map<Text, nat>, pid: nat, y: Installer,
                       x: Installer, stepper: nat, e: Effect)
    requires InstallerOk(env, s, promoter, pid, y) && pid != stepper
    requires Frame(s, e.store, x.bundle.subject) && RootsAdvance(s, e, x) && LockAdvance(s, e, x)
    requires OwnsLock(x.phase) && OwnsLock(y.phase) ==> x.bundle.subject != y.bundle.subject
    requires e.promoted ==> x.bundle.subject !in s.roots
    ensures InstallerOk(env, e.store, PromoterAfter(promoter, e, x.bundle.subject, stepper), pid, y)
  {
    hide Genuine, HasReservedPath, QuarantineOk, InspectTree, ReadSoFar, ContentsMatch, Matches;
    var promoter' := PromoterAfter(promoter, e, x.bundle.subject, stepper);
    if y.bundle.subject in s.roots {
      assert y.bundle.subject in e.store.roots && e.store.roots[y.bundle.subject] == s.roots[y.bundle.subject];
      assert y.bundle.subject in promoter ==> promoter'[y.bundle.subject] == promoter[y.bundle.subject];
    }
    assert LockOk(e.store, y);
    assert StageOk(env, e.store, y);
  }

  // ----- every reachable state

  lemma RootIsWellFormed(env: Env, w: World, subject: Text)
    requires subject in w.store.roots && RootOk(env, w, subject)
    ensures WellFormed(w.store.roots[subject])
  {
    hide WellFormed, Complete, Genuine, RecordBytes;
    var x := w.installers[w.promoter[subject]];
    CompleteIsWellFormed(env, w.store.roots[subject], x.bundle, RecordBytes(env, x.bundle, x.publisher).value);
  }

  lemma PromotedRootHolds(env: Env, s: Store, x: Installer, e: Effect)
    requires e.promoted && RootsAdvance(s, e, x) && StageOk(env, s, x)
    ensures x.bundle.subject in e.store.roots
    ensures HoldsBundle(env, e.store.roots[x.bundle.subject], x.bundle, x.publisher)
  {
    hide HoldsBundle;
  }

  lemma StepKeepsRoots(env: Env, w: World, pid: nat, choice: Choice)
    requires Inv(env, w) && pid in w.installers
    ensures var v := Perform(env, w, Step(pid, choice));
            forall subject :: subject in v.store.roots ==> RootOk(env, v, subject)
  {
    hide StepOf, HoldsBundle, Genuine, InstallerOk, RootOk, LockOk, StageOk, RootsAdvance, Exclusive;
    var x := w.installers[pid];
    var e := StepOf(env, w.store, x, choice);
    var v := Perform(env, w, Step(pid, choice));
    InstallerParts(env, w.store, w.promoter, pid, x);
    StepTouches(env, w.store, x, choice);
    RootSources(w.store, e, x);
    forall subject | subject in v.store.roots
      ensures RootOk(env, v, subject)
    {
      if e.promoted && subject == x.bundle.subject {
        PromotedRootHolds(env, w.store, x, e);
        PromotedRootOk(env, w, pid, choice);
      } else {
        assert subject in w.store.roots && RootOk(env, w, subject);
        OldRootOk(env, w, pid, choice, subject);
      }
    }
  }

  lemma InstallerParts(env: Env, s: Store, promoter: map<Text, nat>, pid: nat, x: Installer)
    requires InstallerOk(env, s, promoter, pid, x)
    ensures Genuine(env, x.bundle) && LockOk(s, x) && StageOk(env, s, x)
  {
  }

  lemma RootSources(s: Store, e: Effect, x: Installer)
    requires RootsAdvance(s, e, x)
    ensures forall u :: u in e.store.roots ==>
              (e.promoted && u == x.bundle.subject) || (u in s.roots && e.store.roots[u] == s.roots[u])
  {
  }

  lemma PromotedRootOk(env: Env, w: World, pid: nat, choice: Choice)
    requires pid in w.installers && Genuine(env, w.installers[pid].bundle)
    requires var e, x := StepOf(env, w.store, w.installers[pid], choice), w.installers[pid];
             && e.promoted && x.bundle.subject in e.store.roots
             && HoldsBundle(env, e.store.roots[x.bundle.subject], x.bundle, x.publisher)
    ensures RootOk(env, Perform(env, w, Step(pid, choice)), w.installers[pid].bundle.subject)
  {
    hide StepOf, HoldsBundle, Genuine;
  }

  lemma OldRootOk(env: Env, w: World, pid: nat, choice: Choice, subject: Text)
    requires pid in w.installers && subject in w.store.roots && RootOk(env, w, subject)
    requires var e := StepOf(env, w.store, w.installers[pid], choice);
             && subject in e.store.roots && e.store.roots[subject] == w.store.roots[subject]
             && (e.promoted ==> subject != w.installers[pid].bundle.subject)
    ensures RootOk(env, Perform(env, w, Step(pid, choice)), subject)
  {
    hide StepOf, HoldsBundle, Genuine;
  }

  lemma StepKeepsExclusion(env: Env, w: World, pid: nat, choice: Choice)
    requires Inv(env, w) && pid in w.installers
    ensures Exclusive(Perform(env, w, Step(pid, choice)))
  {
    var x := w.installers[pid];
    var v := Perform(env, w, Step(pid, choice));
    hide StepOf, Genuine, StageOk, RootPhaseOk, HasReservedPath, RootOk;
    assert InstallerOk(env, w.store, w.promoter, pid, x);
    StepTouches(env, w.store, x, choice);
    forall q | q in w.installers && q != pid && OwnsLock(w.installers[q].phase) && OwnsLock(v.installers[pid].phase)
      ensures w.installers[q].bundle.subject != x.bundle.subject
    {
      assert InstallerOk(env, w.store, w.promoter, q, w.installers[q]);
    }
  }

  lemma StepKeepsInstallers(env: Env, w: World, pid: nat, choice: Choice)
    requires Inv(env, w) && pid in w.installers
    ensures var v := Perform(env, w, Step(pid, choice));
            forall q :: q in v.installers ==> InstallerOk(env, v.store, v.promoter, q, v.installers[q])
  {
    var x := w.installers[pid];
    var e := StepOf(env, w.store, x, choice);
    var v := Perform(env, w, Step(pid, choice));
    hide StepOf, InstallerOk, RootOk, WellFormed, LockOk, Frame, RootsAdvance, LockAdvance;
    assert InstallerOk(env, w.store, w.promoter, pid, x);
    if x.bundle.subject in w.store.roots {
      RootIsWellFormed(env, w, x.bundle.subject);
    }
    OwnStepKeeps(env, w.store, w.promoter, pid, x, choice);
    InstallerHasLockOk(env, w.store, w.promoter, pid, x);
    StepTouches(env, w.store, x, choice);
    forall q | q in v.installers
      ensures InstallerOk(env, v.store, v.promoter, q, v.installers[q])
    {
      if q != pid {
        assert InstallerOk(env, w.store, w.promoter, q, w.installers[q]);
        OtherStepKeeps(env, w.store, w.promoter, q, w.installers[q], x, pid, e);
      }
    }
  }

  lemma InstallerHasLockOk(env: Env, s: Store, promoter: map<Text, nat>, pid: nat, x: Installer)
    requires InstallerOk(env, s, promoter, pid, x)
    ensures LockOk(s, x)
  {
  }

  lemma BeginKeeps(env: Env, w: World, pid: nat, b: VerifiedBundle, publisher: Option<Publisher>)
    requires Inv(env, w) && pid !in w.installers && Genuine(env, b)
    ensures Inv(env, Perform(env, w, Begin(pid, b, publisher)))
  {
    hide Genuine, HoldsBundle, StepOf;
    var v := Perform(env, w, Begin(pid, b, publisher));
    forall q | q in v.installers
      ensures InstallerOk(env, v.store, v.promoter, q, v.installers[q])
    {
      if q != pid {
        assert InstallerOk(env, w.store, w.promoter, q, w.installers[q]);
      }
    }
    forall subject | subject in v.store.roots
      ensures RootOk(env, v, subject)
    {
      assert RootOk(env, w, subject);
    }
  }

  /** Every action any installer can take keeps the invariant. */
  lemma PerformKeeps(env: Env, w: World, a: Action)
    requires Inv(env, w) && Allowed(env, w, a)
    ensures Inv(env, Perform(env, w, a))
  {
    hide Genuine, InstallerOk, RootOk, Exclusive, StepOf;
    match a
    case Begin(pid, b, publisher) => BeginKeeps(env, w, pid, b, publisher);
    case Step(pid, choice) =>
      StepKeepsExclusion(env, w, pid, choice);
      StepKeepsInstallers(env, w, pid, choice);
      StepKeepsRoots(env, w, pid, choice);
  }

  lemma {:induction false} ReachableInv(env: Env, history: seq<Action>)
    requires IsHistory(env, history)
    ensures Inv(env, After(env, history))
  {
    if history != [] {
      hide Inv, Allowed, Perform;
      ReachableInv(env, history[..|history| - 1]);
      PerformKeeps(env, After(env, history[..|history| - 1]), history[|history| - 1]);
    }
  }

  // ----- main results

  /** The root carries a record of this bundle and publisher. */
  ghost predicate Recorded(env: Env, t: Tree, b: VerifiedBundle, publisher: Option<Publisher>) {
    RECORD_PATH in t && t[RECORD_PATH].File? && Records(env, t[RECORD_PATH].bytes, b, publisher)
  }

  lemma HeldIsRecorded(env: Env, t: Tree, b: VerifiedBundle, publisher: Option<Publisher>)
    requires HoldsBundle(env, t, b, publisher)
    ensures Recorded(env, t, b, publisher)
  {
    hide RecordBytes, Records, RECORD_PATH, PlanOf;
    RecordDescribes(env, b, publisher);
  }

  /** In every reachable state a published root is exactly one bundle's file tree plus that bundle's record. */
  lemma RootsAreComplete(env: Env, history: seq<Action>, subject: Text)
    requires IsHistory(env, history) && subject in After(env, history).store.roots
    ensures exists pid :: pid in After(env, history).installers
              && After(env, history).installers[pid].bundle.subject == subject
              && HoldsBundle(env, After(env, history).store.roots[subject],
                             After(env, history).installers[pid].bundle, After(env, history).installers[pid].publisher)
              && Recorded(env, After(env, history).store.roots[subject],
                          After(env, history).installers[pid].bundle, After(env, history).installers[pid].publisher)
  {
    hide HoldsBundle, Recorded, After, Genuine, InstallerOk, Exclusive;
    ReachableInv(env, history);
    var w := After(env, history);
    assert RootOk(env, w, subject);
    var x := w.installers[w.promoter[subject]];
    HeldIsRecorded(env, w.store.roots[subject], x.bundle, x.publisher);
  }

  lemma ActionKeepsRoots(env: Env, w: World, a: Action)
    requires Inv(env, w) && Allowed(env, w, a)
    ensures forall u :: u in w.store.roots ==>
              u in Perform(env, w, a).store.roots && Perform(env, w, a).store.roots[u] == w.store.roots[u]
    ensures forall pid :: pid in w.installers && w.installers[pid].phase.Finished? ==>
              pid in Perform(env, w, a).installers && Perform(env, w, a).installers[pid] == w.installers[pid]
  {
    hide Genuine, StageOk, RootPhaseOk, RootOk, Exclusive;
    if a.Step? {
      var x := w.installers[a.installer];
      assert InstallerOk(env, w.store, w.promoter, a.installer, x);
      if x.phase.Finished? {
        FinishedStays(env, w.store, x, a.choice);
      }
      hide StepOf;
      StepTouches(env, w.store, x, a.choice);
    }
  }

  lemma FinishedStays(env: Env, s: Store, x: Installer, choice: Choice)
    requires x.phase.Finished?
    ensures StepOf(env, s, x, choice) == Effect(s, x.phase, false)
  {
  }

  lemma {:induction false} HistoryPrefix(env: Env, history: seq<Action>, n: nat)
    requires IsHistory(env, history) && n <= |history|
    ensures IsHistory(env, history[..n])
    decreases |history|
  {
    if n < |history| {
      hide Allowed, After;
      HistoryPrefix(env, history[..|history| - 1], n);
      assert history[..|history| - 1][..n] == history[..n];
    } else {
      assert history[..n] == history;
    }
  }

  /**
   Every state on the way is itself reached by a history, no later action of anyone ever changes a
   root published by then, and no receipt is ever withdrawn.
   */
  lemma {:induction false} RootsNeverChange(env: Env, history: seq<Action>, n: nat)
    requires IsHistory(env, history) && n <= |history|
    ensures IsHistory(env, history[..n])
    ensures var early, late := After(env, history[..n]), After(env, history);
            && (forall u :: u in early.store.roots ==>
                  u in late.store.roots && late.store.roots[u] == early.store.roots[u])
            && (forall pid :: pid in early.installers && early.installers[pid].phase.Finished? ==>
                  pid in late.installers && late.installers[pid] == early.installers[pid])
    decreases |history|
  {
    HistoryPrefix(env, history, n);
    if n == |history| {
      assert history[..n] == history;
    } else {
      var before := history[..|history| - 1];
      hide Allowed, Perform, Inv;
      RootsNeverChange(env, before, n);
      assert before[..n] == history[..n];
      ReachableInv(env, before);
      ActionKeepsRoots(env, After(env, before), history[|history| - 1]);
    }
  }

  /** The installer returned a receipt. */
  predicate HasReceipt(w: World, pid: nat) {
    pid in w.installers && w.installers[pid].phase.Finished? && w.installers[pid].phase.outcome.Installed?
  }

  predicate IsFresh(w: World, pid: nat) {
    HasReceipt(w, pid) && !w.installers[pid].phase.outcome.reused
  }

  /** A receipt vouches for the root as it now is: exact file set, lengths, digests and record bytes. */
  lemma ReceiptVouches(env: Env, history: seq<Action>, pid: nat)
    requires IsHistory(env, history) && HasReceipt(After(env, history), pid)
    ensures var w := After(env, history);
            var x := w.installers[pid];
            && x.bundle.subject in w.store.roots
            && Matches(env, w.store.roots[x.bundle.subject], x.bundle, x.publisher)
            && Recorded(env, w.store.roots[x.bundle.subject], x.bundle, x.publisher)
            && Genuine(env, x.bundle)
            && (IsFresh(w, pid) ==> PromotedBy(w.promoter, x.bundle.subject, pid))
  {
    hide After, Matches, Recorded, Genuine, LockOk, StageOk, RootOk, Exclusive;
    ReachableInv(env, history);
    var w := After(env, history);
    assert InstallerOk(env, w.store, w.promoter, pid, w.installers[pid]);
    MatchIsRecorded(env, w.store.roots[w.installers[pid].bundle.subject], w.installers[pid].bundle,
                    w.installers[pid].publisher);
  }

  lemma MatchIsRecorded(env: Env, t: Tree, b: VerifiedBundle, publisher: Option<Publisher>)
    requires Matches(env, t, b, publisher)
    ensures Recorded(env, t, b, publisher)
  {
    hide RecordBytes, Records, ContentsMatch, RECORD_PATH;
    RecordDescribes(env, b, publisher);
  }

  lemma SameRootSameRecords(env: Env, t: Tree, a: VerifiedBundle, b: VerifiedBundle)
    requires Genuine(env, a) && Genuine(env, b) && ContentsMatch(env, t, a) && ContentsMatch(env, t, b)
    ensures RecordsOf(a) == RecordsOf(b)
  {
    hide Genuine, RECORD_PATH;
    GenuineIsOrdered(env, a);
    GenuineIsOrdered(env, b);
    RecordsIncluded(env, t, a, b);
    RecordsIncluded(env, t, b, a);
    StrictListingUnique(RecordsOf(a), RecordsOf(b), FilePath);
  }

  lemma RecordsIncluded(env: Env, t: Tree, a: VerifiedBundle, b: VerifiedBundle)
    requires ContentsMatch(env, t, a) && ContentsMatch(env, t, b)
    ensures forall f :: f in RecordsOf(a) ==> f in RecordsOf(b)
  {
    hide RECORD_PATH;
    forall f | f in RecordsOf(a)
      ensures f in RecordsOf(b)
    {
      MemberPath(RecordsOf(a), f);
      assert f.path in Paths(ManifestOf(a));
      assert t[f.path].File?;
      assert f.path in Paths(ManifestOf(b));
      PathMember(RecordsOf(b), f.path);
      var g :| g in RecordsOf(b) && g.path == f.path;
      assert f == g;
    }
  }

  /**
   All receipts ever issued for one subject were issued for the same file list
   and the same record bytes; at most one of them reports a fresh installation.
   */
  lemma ReceiptsAgree(env: Env, history: seq<Action>, p: nat, q: nat)
    requires IsHistory(env, history) && HasReceipt(After(env, history), p) && HasReceipt(After(env, history), q)
    requires After(env, history).installers[p].bundle.subject == After(env, history).installers[q].bundle.subject
    ensures var x, y := After(env, history).installers[p], After(env, history).installers[q];
            && RecordsOf(x.bundle) == RecordsOf(y.bundle)
            && RecordBytes(env, x.bundle, x.publisher) == RecordBytes(env, y.bundle, y.publisher)
            && RecordBytes(env, x.bundle, x.publisher).Success?
    ensures IsFresh(After(env, history), p) && IsFresh(After(env, history), q) ==> p == q
  {
    hide After, Genuine, ContentsMatch, RecordBytes;
    ReceiptVouches(env, history, p);
    ReceiptVouches(env, history, q);
    var w := After(env, history);
    var x, y := w.installers[p], w.installers[q];
    SameRootSameRecords(env, w.store.roots[x.bundle.subject], x.bundle, y.bundle);
    MatchesFixRecord(env, w.store.roots[x.bundle.subject], x, y);
  }

  lemma MatchesFixRecord(env: Env, t: Tree, x: Installer, y: Installer)
    requires Matches(env, t, x.bundle, x.publisher) && Matches(env, t, y.bundle, y.publisher)
    ensures RecordBytes(env, x.bundle, x.publisher) == RecordBytes(env, y.bundle, y.publisher)
    ensures RecordBytes(env, x.bundle, x.publisher).Success?
  {
    hide RecordBytes, ContentsMatch;
  }

  ghost predicate FaithfulEncoding(encode: Record -> Text) {
    forall a, b :: encode(a) == encode(b) ==> a == b
  }

  /**
   With an encoding that keeps distinct records distinct, every receipt of a
   subject carries the same provenance: never upgraded, downgraded or re-signed.
   */
  lemma ProvenanceIsImmutable(env: Env, history: seq<Action>, p: nat, q: nat)
    requires FaithfulEncoding(env.encode)
    requires IsHistory(env, history) && HasReceipt(After(env, history), p) && HasReceipt(After(env, history), q)
    requires After(env, history).installers[p].bundle.subject == After(env, history).installers[q].bundle.subject
    ensures After(env, history).installers[p].publisher == After(env, history).installers[q].publisher
    ensures After(env, history).installers[p].bundle.entryPoint == After(env, history).installers[q].bundle.entryPoint
  {
    hide After, IsHistory;
    ReceiptsAgree(env, history, p, q);
    var x, y := After(env, history).installers[p], After(env, history).installers[q];
    var a, b := RecordFor(env, x.bundle, x.publisher), RecordFor(env, y.bundle, y.publisher);
    assert env.encode(a) == (env.encode(a) + [LF])[..|env.encode(a)|];
    assert env.encode(b) == (env.encode(b) + [LF])[..|env.encode(b)|];
    assert a == b;
  }

  /** At most one live installer per subject is between taking the lock and dropping it. */
  lemma OneHolderPerSubject(env: Env, history: seq<Action>, p: nat, q: nat)
    requires IsHistory(env, history) && p in After(env, history).installers && q in After(env, history).installers
    requires OwnsLock(After(env, history).installers[p].phase) && OwnsLock(After(env, history).installers[q].phase)
    requires After(env, history).installers[p].bundle.subject == After(env, history).installers[q].bundle.subject
    ensures p == q
    ensures After(env, history).installers[p].bundle.subject in After(env, history).store.locks
  {
    hide After, Genuine, StageOk, RootPhaseOk, RootOk, HasReservedPath;
    ReachableInv(env, history);
    var w := After(env, history);
    assert InstallerOk(env, w.store, w.promoter, p, w.installers[p]);
  }

  /** The quarantine directory an installer is filling or removing. */
  predicate HoldsSlot(x: Installer, d: Slot) {
    (InQuarantine(x.phase) || x.phase.Cleaning?) && Slot(x.bundle.subject, x.phase.attempt) == d
  }

  /** No step of one installer, cleanup included, ever changes or removes a quarantine directory another one holds. */
  lemma QuarantineIsPrivate(env: Env, history: seq<Action>, p: nat, choice: Choice, q: nat, d: Slot)
    requires IsHistory(env, history) && p in After(env, history).installers && q in After(env, history).installers
    requires p != q && HoldsSlot(After(env, history).installers[q], d)
    ensures var w := After(env, history);
            var v := Perform(env, w, Step(p, choice));
            && (d in w.store.staging <==> d in v.store.staging)
            && (d in w.store.staging ==> v.store.staging[d] == w.store.staging[d])
  {
    hide After, Genuine, StageOk, RootPhaseOk, RootOk, HasReservedPath, StepOf;
    ReachableInv(env, history);
    var w := After(env, history);
    var x := w.installers[p];
    assert InstallerOk(env, w.store, w.promoter, p, x);
    StepTouches(env, w.store, x, choice);
  }

  /** With nobody else touching the store the rename finds no root, so the raced branch is never taken. */
  lemma PromotionNeverRaces(env: Env, history: seq<Action>, pid: nat)
    requires IsHistory(env, history) && pid in After(env, history).installers
    ensures var x := After(env, history).installers[pid];
            && (x.phase.Promote? ==> x.bundle.subject !in After(env, history).store.roots)
            && (x.phase.Cleaning? ==> !x.phase.next.VerifyRace?)
            && (x.phase.RootInspect? || x.phase.RootReading? || x.phase.RecordCompare? ==> !x.phase.purpose.AfterRace?)
  {
    hide After, Genuine, StageOk, RootOk, Exclusive, HasReservedPath, ContentsMatch, InspectTree;
    ReachableInv(env, history);
    var w := After(env, history);
    assert InstallerOk(env, w.store, w.promoter, pid, w.installers[pid]);
  }
}
