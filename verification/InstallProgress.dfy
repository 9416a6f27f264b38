/** What one installer achieves when nothing fails and nobody else moves. */
module InstallProgress {
  import opened Bytes
  import opened Sorting
  import opened Distribution
  import opened Candidate
  import opened Directory
  import opened WalkDecides
  import opened InstallStore
  import opened InstallSafety

  /** One `install_bundle_with_publisher` call. */
  datatype Call = Call(env: Env, bundle: VerifiedBundle, publisher: Option<Publisher>)

  /** Where the call has got to. */
  datatype At = At(store: Store, phase: Phase)

  function Move(c: Call, a: At, choice: Choice): At {
    var e := StepOf(c.env, a.store, Installer(c.bundle, c.publisher, a.phase), choice);
    At(e.store, e.phase)
  }

  function Next(c: Call, a: At): At {
    Move(c, a, Proceed)
  }

  /** Nothing fails: writes transfer any number of bytes but none, and recursive removal always removes something. */
  predicate Smooth(c: Call, a: At, choice: Choice) {
    match choice
    case Proceed => true
    case Chunk(_) => true
    case Keep(nodes) => !a.phase.Cleaning? || Shrinks(a.store, Slot(c.bundle.subject, a.phase.attempt), nodes)
    case _ => false
  }

  predicate Shrinks(s: Store, slot: Slot, nodes: set<Text>) {
    slot in s.staging ==> !(s.staging[slot].Keys <= nodes)
  }

  /** Every smooth schedule of the call reaches `z` within `k` steps. */
  ghost predicate Surely(c: Call, a: At, z: At, k: nat)
    decreases k
  {
    a == z || (k > 0 && forall choice :: Smooth(c, a, choice) ==> Surely(c, Move(c, a, choice), z, k - 1))
  }

  /** Undisturbed steps lead from `a` to `z`, whatever the schedule. */
  ghost predicate Gets(c: Call, a: At, z: At) {
    exists k: nat :: Surely(c, a, z, k)
  }

  lemma {:induction false} Longer(c: Call, a: At, z: At, j: nat, k: nat)
    requires Surely(c, a, z, j) && j <= k
    ensures Surely(c, a, z, k)
    decreases j
  {
    hide Move, Smooth;
    if a != z {
      forall choice | Smooth(c, a, choice)
        ensures Surely(c, Move(c, a, choice), z, k - 1)
      {
        Longer(c, Move(c, a, choice), z, j - 1, k - 1);
      }
    }
  }

  lemma {:induction false} Chain(c: Call, a: At, y: At, z: At, j: nat, k: nat)
    requires Surely(c, a, y, j) && Surely(c, y, z, k)
    ensures Surely(c, a, z, j + k)
    decreases j
  {
    hide Move, Smooth;
    if a == y {
      Longer(c, a, z, k, j + k);
    } else {
      forall choice | Smooth(c, a, choice)
        ensures Surely(c, Move(c, a, choice), z, j + k - 1)
      {
        Chain(c, Move(c, a, choice), y, z, j - 1, k);
      }
    }
  }

  lemma Stay(c: Call, a: At)
    ensures Gets(c, a, a)
  {
    assert Surely(c, a, a, 0);
  }

  /** A phase whose step no smooth choice influences. */
  predicate Steady(phase: Phase) {
    !phase.Writing? && !phase.RecordWriting? && !phase.Cleaning?
  }

  lemma SteadyStep(c: Call, a: At, choice: Choice)
    requires Steady(a.phase) && Smooth(c, a, choice)
    ensures Move(c, a, choice) == Next(c, a)
  {
    hide InspectTree, ReadDeclared, Verify, ManifestFromVerified, RecordBytes, HasReservedPath;
  }

  lemma Step1(c: Call, a: At)
    requires Steady(a.phase)
    ensures Gets(c, a, Next(c, a))
  {
    hide Move, Next, Smooth;
    forall choice | Smooth(c, a, choice)
      ensures Surely(c, Move(c, a, choice), Next(c, a), 0)
    {
      SteadyStep(c, a, choice);
    }
    assert Surely(c, a, Next(c, a), 1);
  }

  lemma Then(c: Call, a: At, y: At, z: At)
    requires Gets(c, a, y) && Gets(c, y, z)
    ensures Gets(c, a, z)
  {
    hide Surely;
    var j: nat :| Surely(c, a, y, j);
    var k: nat :| Surely(c, y, z, k);
    Chain(c, a, y, z, j, k);
  }

  lemma ThenStep(c: Call, a: At, y: At)
    requires Gets(c, a, y) && Steady(y.phase)
    ensures Gets(c, a, Next(c, y))
  {
    hide Next, Gets;
    Step1(c, y);
    Then(c, a, y, Next(c, y));
  }

  // ----- bundles that can be installed

  function BundleNodes(b: VerifiedBundle): set<Text> {
    Paths(ManifestOf(b)) + AncestorsOfAll(Paths(ManifestOf(b)))
  }

  /** Nothing reserved, nothing too deep, no file where a directory must be, no ASCII-case clash, not too many nodes. */
  ghost predicate Portable(b: VerifiedBundle) {
    && !HasReservedPath(b)
    && (forall p :: p in Paths(ManifestOf(b)) ==> |Split(p)| <= MAX_DIRECTORY_DEPTH + 1)
    && (forall p, q :: p in Paths(ManifestOf(b)) && q in Paths(ManifestOf(b)) ==> !IsAncestor(p, q))
    && (forall p, q :: p in BundleNodes(b) && q in BundleNodes(b) && LowerCase(p) == LowerCase(q) ==> p == q)
    && |BundleNodes(b)| + 1 <= MAX_VISIBLE_ENTRIES
  }

  lemma FilePathsSnoc(records: seq<BundleFile>)
    requires records != []
    ensures FilePaths(records) == FilePaths(records[..|records| - 1]) + {records[|records| - 1].path}
  {
    var n := |records| - 1;
    forall p
      ensures p in FilePaths(records) <==> p in FilePaths(records[..n]) || p == records[n].path
    {
      if p in FilePaths(records) {
        var i :| 0 <= i < |records| && records[i].path == p;
        if i < n {
          assert records[..n][i].path == p;
        }
      }
      if p in FilePaths(records[..n]) {
        var i :| 0 <= i < n && records[..n][i].path == p;
        assert records[i].path == p;
      }
    }
  }

  lemma {:induction false} PlanKeys(files: seq<VerifiedFile>, records: seq<BundleFile>)
    requires |records| == |files| && forall i :: 0 <= i < |files| ==> records[i].path == files[i].path
    ensures PlanOf(files).Keys == FilePaths(records)
  {
    if files != [] {
      PlanKeys(files[..|files| - 1], records[..|records| - 1]);
      FilePathsSnoc(records);
    }
  }

  lemma {:induction false} PlanValue(files: seq<VerifiedFile>, i: nat)
    requires i < |files| && forall k :: i < k < |files| ==> files[k].path != files[i].path
    ensures files[i].path in PlanOf(files) && PlanOf(files)[files[i].path] == files[i].bytes
  {
    var n := |files| - 1;
    if i < n {
      assert files[..n][i] == files[i];
      PlanValue(files[..n], i);
    }
  }

  /** The bundle's records: distinct portable paths, every file within its size. */
  lemma GenuineFacts(env: Env, b: VerifiedBundle)
    requires Genuine(env, b)
    ensures StrictlyOrdered(RecordsOf(b), FilePath) && DistinctKeys(RecordsOf(b), FilePath)
    ensures 0 < |b.files| <= MAX_BUNDLE_FILES && TotalLength(RecordsOf(b)) <= MAX_BUNDLE_EXPANDED_BYTES
    ensures forall i :: 0 <= i < |b.files| ==> |b.files[i].bytes| <= MAX_BUNDLE_FILE_BYTES && ValidPath(b.files[i].path)
    ensures PlanOf(b.files).Keys == Paths(ManifestOf(b))
    ensures forall i :: 0 <= i < |b.files| ==>
              b.files[i].path in PlanOf(b.files) && PlanOf(b.files)[b.files[i].path] == b.files[i].bytes
    ensures forall p :: p in Paths(ManifestOf(b)) ==> ValidPath(p)
  {
    hide ValidPath;
    NormalizeAccepts(BUNDLE_FORMAT, SHA256_ALGORITHM, b.entryPoint, RecordsOf(b), DEFAULT_LIMITS);
    hide Normalize, SortBy;
    assert ValidManifest(ManifestOf(b), DEFAULT_LIMITS);
    StrictIsDistinct(RecordsOf(b), FilePath);
    PlanKeys(b.files, RecordsOf(b));
    forall i | 0 <= i < |b.files|
      ensures |b.files[i].bytes| <= MAX_BUNDLE_FILE_BYTES
      ensures b.files[i].path in PlanOf(b.files) && PlanOf(b.files)[b.files[i].path] == b.files[i].bytes
    {
      assert RecordsOf(b)[i] in RecordsOf(b);
      assert forall k :: i < k < |b.files| ==> FilePath(RecordsOf(b)[i]) != FilePath(RecordsOf(b)[k]);
      PlanValue(b.files, i);
    }
  }

  // ----- the staged tree, without and with the record, passes inspection

  /** A laid plan of files within their sizes is an exact tree for the expectation over the same paths. */
  lemma LaidIsExact(t: Tree, plan: Plan, e: ExpectedTree)
    requires Laid(t, plan, {}) && e.files == plan.Keys && e.directories == AncestorsOfAll(plan.Keys)
    requires forall p :: p in plan ==> |plan[p]| <= MaximumBytesFor(e, p)
    requires forall p, q :: p in t && q in t && LowerCase(p) == LowerCase(q) ==> p == q
    ensures ExactTree(t, e)
  {
    hide LowerCase, AncestorsOfAll, MaximumBytesFor;
    forall p | p in e.files
      ensures t[p].File? && t[p].links == 1 && |t[p].bytes| <= MaximumBytesFor(e, p)
    {
      assert t[p] == File(plan[p], 1);
    }
  }

  lemma StagedTreePasses(env: Env, b: VerifiedBundle, t: Tree)
    requires Genuine(env, b) && Portable(b) && Laid(t, PlanOf(b.files), {})
    ensures WellFormed(t) && InspectTree(t, ManifestOf(b), None).Success?
    ensures Expect(ManifestOf(b), None).Success? && ExactTree(t, Expect(ManifestOf(b), None).value)
  {
    hide Genuine, ValidPath, Split, LowerCase, HasReservedPath, InspectTree, WellFormed, Portable, Laid, ExactTree,
         Expect, BundleNodes, PathsValid, PlanOf, AncestorsOfAll, IsAncestor;
    var m, plan := ManifestOf(b), PlanOf(b.files);
    var e := ExpectedTree(Paths(m), AncestorsOfAll(Paths(m)), None);
    ExpectsBundle(env, b);
    PlanFits(env, b, e);
    StagedNodes(env, b, t);
    LaidIsExact(t, plan, e);
    LaidIsWellFormed(t, plan);
    InspectDecides(t, m, None);
  }

  lemma ExpectsBundle(env: Env, b: VerifiedBundle)
    requires Genuine(env, b) && Portable(b)
    ensures var m := ManifestOf(b);
            && PathsValid(m, None) && PlanOf(b.files).Keys == Paths(m)
            && Expect(m, None) == Success(ExpectedTree(Paths(m), AncestorsOfAll(Paths(m)), None))
  {
    hide Genuine, ValidPath, Split, LowerCase, HasReservedPath, IsAncestor, AncestorsOfAll, BundleNodes;
    GenuineFacts(env, b);
    assert Paths(ManifestOf(b)) + AllowedPaths(None) == Paths(ManifestOf(b));
  }

  lemma StagedNodes(env: Env, b: VerifiedBundle, t: Tree)
    requires Genuine(env, b) && Portable(b) && Laid(t, PlanOf(b.files), {})
    ensures t.Keys == BundleNodes(b) && |t| <= MAX_VISIBLE_ENTRIES
    ensures forall p, q :: p in t && q in t && LowerCase(p) == LowerCase(q) ==> p == q
  {
    hide Genuine, Portable, LowerCase, AncestorsOfAll, PlanOf, Paths, RecordsOf, ValidPath;
    GenuineFacts(env, b);
    assert t.Keys == BundleNodes(b);
    hide BundleNodes, Laid;
    NodesOfPortable(b, t);
  }

  lemma NodesOfPortable(b: VerifiedBundle, t: Tree)
    requires Portable(b) && t.Keys == BundleNodes(b)
    ensures |t| <= MAX_VISIBLE_ENTRIES
    ensures forall p, q :: p in t && q in t && LowerCase(p) == LowerCase(q) ==> p == q
  {
    hide BundleNodes, LowerCase, HasReservedPath, Split, IsAncestor, RecordsOf;
    assert |t| == |t.Keys|;
  }

  /** Every planned file is within what the expectation allows for it. */
  lemma PlanFits(env: Env, b: VerifiedBundle, e: ExpectedTree)
    requires Genuine(env, b)
    requires e.allowed.Some? ==> e.allowed.value.0 !in Paths(ManifestOf(b))
    ensures forall p :: p in PlanOf(b.files) ==> |PlanOf(b.files)[p]| <= MaximumBytesFor(e, p)
    ensures forall p :: p in PlanOf(b.files) ==> PlanPath(p)
  {
    hide Genuine, ValidPath;
    GenuineFacts(env, b);
    forall p | p in PlanOf(b.files)
      ensures |PlanOf(b.files)[p]| <= MaximumBytesFor(e, p) && PlanPath(p)
    {
      var i :| 0 <= i < |RecordsOf(b)| && RecordsOf(b)[i].path == p;
      assert b.files[i].path == p;
    }
  }

  /** Nothing of a portable bundle clashes with the record's name. */
  lemma RecordClashesWithNothing(b: VerifiedBundle, p: Text)
    requires !HasReservedPath(b) && p in BundleNodes(b)
    ensures LowerCase(p) != LowerCase(RECORD_PATH)
  {
    hide RECORD_PATH, LowerCase;
    var f := p;
    if p !in Paths(ManifestOf(b)) {
      f :| f in Paths(ManifestOf(b)) && p in Ancestors(f);
      hide LowerCase;
    }
    var i :| 0 <= i < |RecordsOf(b)| && RecordsOf(b)[i].path == f;
    assert b.files[i].path == f && !IsReserved(f);
    if p != f {
      AncestorKeyIsPrefix(p, f);
    }
  }

  lemma AncestorKeyIsPrefix(a: Text, f: Text)
    requires IsAncestor(a, f)
    ensures |LowerCase(f)| > |LowerCase(a)| && LowerCase(f)[..|LowerCase(a)| + 1] == LowerCase(a) + [SLASH]
  {
    assert forall i :: 0 <= i < |a| ==> f[i] == a[i];
  }

  lemma RecordAddsNoAncestor(paths: set<Text>)
    ensures AncestorsOfAll(paths + {RECORD_PATH}) == AncestorsOfAll(paths)
  {
    AncestorsGrow(paths, RECORD_PATH);
    RecordPathIsPlain();
  }

  lemma RecordPathBytes()
    ensures RECORD_PATH != [] && |RECORD_PATH| <= 64 && RECORD_PATH != DOT && RECORD_PATH != DOT_DOT
    ensures forall b :: b in RECORD_PATH ==> b < 128 && !IsControl(b) && b != 92 && b != 58 && b != SLASH
  {
    assert forall i :: 0 <= i < |RECORD_PATH| ==> 45 <= RECORD_PATH[i] <= 46 || 97 <= RECORD_PATH[i] <= 122;
  }

  lemma RecordPathIsValid()
    ensures ValidPath(RECORD_PATH) && |Split(RECORD_PATH)| == 1
  {
    RecordPathBytes();
    hide RECORD_PATH, Split;
    SplitWithoutSlash(RECORD_PATH);
    assert RECORD_PATH[0] in RECORD_PATH && RECORD_PATH[|RECORD_PATH| - 1] in RECORD_PATH;
  }

  lemma CompleteTreePasses(env: Env, b: VerifiedBundle, t: Tree, record: Text)
    requires Genuine(env, b) && Portable(b) && Complete(t, b, record) && |record| <= MAX_INSTALLATION_RECORD_BYTES
    ensures WellFormed(t) && InspectTree(t, ManifestOf(b), Allowance()).Success?
    ensures Expect(ManifestOf(b), Allowance()).Success? && ExactTree(t, Expect(ManifestOf(b), Allowance()).value)
  {
    hide Genuine, ValidPath, Split, LowerCase, HasReservedPath, InspectTree, RECORD_PATH, IsAncestor, WellFormed,
         AncestorsOfAll, Portable, Laid, ExactTree, Expect, BundleNodes, PathsValid;
    var m, plan := ManifestOf(b), PlanOf(b.files)[RECORD_PATH := record];
    var e := ExpectedTree(Paths(m) + {RECORD_PATH}, AncestorsOfAll(Paths(m) + {RECORD_PATH}), Allowance());
    ExpectsRecord(env, b);
    RecordedPlanFits(env, b, record, e);
    RecordedNodes(env, b, t, record);
    NodesWithRecord(b, t);
    LaidIsExact(t, plan, e);
    CompleteIsWellFormed(env, t, b, record);
    InspectDecides(t, m, Allowance());
  }

  lemma ExpectsRecord(env: Env, b: VerifiedBundle)
    requires Genuine(env, b) && Portable(b)
    ensures var m := ManifestOf(b);
            && PathsValid(m, Allowance())
            && Expect(m, Allowance())
               == Success(ExpectedTree(Paths(m) + {RECORD_PATH}, AncestorsOfAll(Paths(m) + {RECORD_PATH}), Allowance()))
  {
    hide Genuine, ValidPath, Split, LowerCase, HasReservedPath, RECORD_PATH, IsAncestor, AncestorsOfAll, BundleNodes;
    GenuineFacts(env, b);
    RecordPathIsValid();
  }

  lemma RecordedPlanFits(env: Env, b: VerifiedBundle, record: Text, e: ExpectedTree)
    requires Genuine(env, b) && Portable(b) && |record| <= MAX_INSTALLATION_RECORD_BYTES && e.allowed == Allowance()
    ensures var plan := PlanOf(b.files)[RECORD_PATH := record];
            && plan.Keys == Paths(ManifestOf(b)) + {RECORD_PATH}
            && (forall p :: p in plan ==> |plan[p]| <= MaximumBytesFor(e, p))
  {
    hide Genuine, ValidPath, HasReservedPath, RECORD_PATH, PlanOf, BundleNodes;
    GenuineFacts(env, b);
    RecordPathNotDeclared(b);
    PlanFits(env, b, e);
  }

  lemma RecordedNodes(env: Env, b: VerifiedBundle, t: Tree, record: Text)
    requires Genuine(env, b) && Complete(t, b, record)
    ensures t.Keys == BundleNodes(b) + {RECORD_PATH}
  {
    hide Genuine, ValidPath, RECORD_PATH, PlanOf, AncestorsOfAll, Paths, RecordsOf;
    GenuineFacts(env, b);
    RecordAddsNoAncestor(Paths(ManifestOf(b)));
    var plan := PlanOf(b.files)[RECORD_PATH := record];
    assert plan.Keys == Paths(ManifestOf(b)) + {RECORD_PATH};
  }

  lemma NodesWithRecord(b: VerifiedBundle, t: Tree)
    requires Portable(b) && t.Keys == BundleNodes(b) + {RECORD_PATH}
    ensures |t| <= MAX_VISIBLE_ENTRIES
    ensures forall p, q :: p in t && q in t && LowerCase(p) == LowerCase(q) ==> p == q
  {
    hide RECORD_PATH, LowerCase, HasReservedPath, BundleNodes, Split, IsAncestor;
    forall p | p in BundleNodes(b)
      ensures LowerCase(p) != LowerCase(RECORD_PATH)
    {
      RecordClashesWithNothing(b, p);
    }
    assert |t| == |t.Keys| <= |BundleNodes(b)| + 1;
  }

  // ----- reading back and judging

  /** Every file of the bundle reads back with its own bytes. */
  ghost predicate Serves(t: Tree, b: VerifiedBundle) {
    forall i :: 0 <= i < |b.files| ==>
      ReadDeclared(t, b.files[i].path, MAX_BUNDLE_FILE_BYTES) == Success(b.files[i].bytes)
  }

  lemma ExactTreeServes(env: Env, b: VerifiedBundle, t: Tree, allowed: Option<(Text, nat)>, plan: Plan)
    requires Genuine(env, b) && WellFormed(t) && Laid(t, plan, {})
    requires Expect(ManifestOf(b), allowed).Success? && ExactTree(t, Expect(ManifestOf(b), allowed).value)
    requires allowed.Some? ==> allowed.value.0 !in Paths(ManifestOf(b))
    requires forall p :: p in PlanOf(b.files) ==> p in plan && plan[p] == PlanOf(b.files)[p]
    ensures Serves(t, b)
  {
    hide Genuine, ValidPath, WellFormed, ExactTree, ReadDeclared, Split, Laid, PlanOf, Expect;
    GenuineFacts(env, b);
    forall i | 0 <= i < |b.files|
      ensures ReadDeclared(t, b.files[i].path, MAX_BUNDLE_FILE_BYTES) == Success(b.files[i].bytes)
    {
      var p := b.files[i].path;
      LaidFile(t, plan, p);
      DeclaredWithin(ManifestOf(b), allowed, p);
      ExactTreeReads(t, ManifestOf(b), allowed, p, MAX_BUNDLE_FILE_BYTES);
    }
  }

  lemma DeclaredWithin(m: BundleManifest, allowed: Option<(Text, nat)>, p: Text)
    requires Expect(m, allowed).Success? && p in Paths(m)
    requires allowed.Some? ==> allowed.value.0 !in Paths(m)
    ensures p in Expect(m, allowed).value.files
    ensures MaximumBytesFor(Expect(m, allowed).value, p) == MAX_BUNDLE_FILE_BYTES
  {
    hide Split;
  }

  lemma StagedTreeServes(env: Env, b: VerifiedBundle, t: Tree)
    requires Genuine(env, b) && Portable(b) && Laid(t, PlanOf(b.files), {})
    ensures Serves(t, b)
  {
    hide Genuine, Portable, Laid, WellFormed, ExactTree, Expect, Serves, InspectTree;
    StagedTreePasses(env, b, t);
    ExactTreeServes(env, b, t, None, PlanOf(b.files));
  }

  lemma CompleteTreeServes(env: Env, b: VerifiedBundle, t: Tree, record: Text)
    requires Genuine(env, b) && Portable(b) && Complete(t, b, record) && |record| <= MAX_INSTALLATION_RECORD_BYTES
    ensures Serves(t, b) && ReadDeclared(t, RECORD_PATH, MAX_INSTALLATION_RECORD_BYTES) == Success(record)
  {
    hide Genuine, Laid, WellFormed, ExactTree, Serves, InspectTree, RECORD_PATH, HasReservedPath, PlanOf, Split,
         ReadDeclared, LowerCase, BundleNodes, IsAncestor, AncestorsOfAll;
    CompleteTreePasses(env, b, t, record);
    RecordPathNotDeclared(b);
    var plan := PlanOf(b.files)[RECORD_PATH := record];
    GenuineFacts(env, b);
    ExactTreeServes(env, b, t, Allowance(), plan);
    ExactTreeReads(t, ManifestOf(b), Allowance(), RECORD_PATH, MAX_INSTALLATION_RECORD_BYTES);
    LaidFile(t, plan, RECORD_PATH);
  }

  lemma LaidFile(t: Tree, plan: Plan, p: Text)
    requires Laid(t, plan, {}) && p in plan
    ensures p in t && t[p] == File(plan[p], 1)
  {
  }

  function OwnCandidates(b: VerifiedBundle, n: nat): (cs: seq<CandidateFile>)
    requires n <= |b.files|
    ensures |cs| == n
    ensures forall i :: 0 <= i < n ==> cs[i] == CandidateFile(b.files[i].path, b.files[i].bytes)
  {
    seq(n, i requires 0 <= i < n => CandidateFile(b.files[i].path, b.files[i].bytes))
  }

  lemma {:induction false} SameTotal(cs: seq<CandidateFile>, records: seq<BundleFile>)
    requires |cs| == |records| && forall i :: 0 <= i < |cs| ==> records[i].byteLength == |cs[i].bytes|
    ensures TotalBytes(cs) == TotalLength(records)
  {
    if cs != [] {
      SameTotal(cs[1..], records[1..]);
    }
  }

  /** A genuine bundle's own files pass its own verification. */
  lemma VerifiesItself(env: Env, b: VerifiedBundle)
    requires Genuine(env, b)
    ensures Verify(env.hash, ManifestOf(b), b.subject, b.subject, OwnCandidates(b, |b.files|)).Success?
  {
    hide Verify, ValidPath;
    GenuineFacts(env, b);
    var cs, m := OwnCandidates(b, |b.files|), ManifestOf(b);
    SameTotal(cs, m.files);
    assert DescribeAll(cs, env.hash) == m.files;
    assert DistinctKeys(cs, CandidatePath) by {
      forall i, j | 0 <= i < j < |cs|
        ensures CandidatePath(cs[i]) != CandidatePath(cs[j])
      {
        assert FilePath(m.files[i]) != FilePath(m.files[j]);
      }
    }
    hide Genuine, DistinctKeys, StrictlyOrdered;
    VerifyAcceptsExactly(env.hash, m, b.subject, b.subject, cs);
  }

  // ----- taking the lock and a quarantine directory

  function Locking(c: Call, s: Store): Store {
    s.(locks := s.locks + {c.bundle.subject})
  }

  function Staged(c: Call, s: Store, attempt: nat, t: Tree): Store {
    Put(s, Slot(c.bundle.subject, attempt), t)
  }

  ghost predicate PublisherFits(c: Call) {
    c.publisher.Some? ==> c.publisher.value.subject == c.bundle.subject
  }

  lemma TakesLock(c: Call, s: Store)
    requires PublisherFits(c) && !HasReservedPath(c.bundle) && c.bundle.subject !in s.locks
    ensures Gets(c, At(s, Requested), At(Locking(c, s), Locked))
  {
    hide HasReservedPath, Gets;
    var locked := Locking(c, s);
    assert Next(c, At(s, Requested)) == At(locked, LockMade);
    assert Next(c, At(locked, LockMade)) == At(locked, Locked);
    hide Next;
    Step1(c, At(s, Requested));
    ThenStep(c, At(s, Requested), At(locked, LockMade));
  }

  /** The first free attempt number of this subject. */
  ghost predicate FirstFree(c: Call, s: Store, attempt: nat) {
    && attempt < MAX_STAGING_ATTEMPTS && Slot(c.bundle.subject, attempt) !in s.staging
    && forall i: nat :: i < attempt ==> Slot(c.bundle.subject, i) in s.staging
  }

  lemma {:induction false} FindsSlot(c: Call, s: Store, i: nat, attempt: nat)
    requires FirstFree(c, s, attempt) && i <= attempt
    ensures Gets(c, At(s, StagingAttempt(i)), At(Staged(c, s, attempt, map[]), StagingMade(attempt)))
    decreases attempt - i
  {
    hide Gets;
    var a := At(s, StagingAttempt(i));
    Step1(c, a);
    if i < attempt {
      assert Next(c, a) == At(s, StagingAttempt(i + 1));
      hide Next;
      FindsSlot(c, s, i + 1, attempt);
      Then(c, a, At(s, StagingAttempt(i + 1)), At(Staged(c, s, attempt, map[]), StagingMade(attempt)));
    }
  }

  // ----- materialising

  lemma Restaged(c: Call, s: Store, attempt: nat, t: Tree, u: Tree)
    ensures Put(Staged(c, s, attempt, t), Slot(c.bundle.subject, attempt), u) == Staged(c, s, attempt, u)
    ensures Slot(c.bundle.subject, attempt) in Staged(c, s, attempt, t).staging
    ensures Staged(c, s, attempt, t).staging[Slot(c.bundle.subject, attempt)] == t
  {
    var slot := Slot(c.bundle.subject, attempt);
    assert s.staging[slot := t][slot := u] == s.staging[slot := u];
  }

  /** In a laid tree, with no file above another, the next ancestor is absent or a directory. */
  lemma AncestorIsFree(t: Tree, plan: Plan, p: Text, k: nat)
    requires k < |p| && p[k] == SLASH && Laid(t, plan, DirectoriesTo(p, k))
    requires forall q :: q in plan ==> !IsAncestor(q, p)
    ensures p[..k] in t ==> t[p[..k]].Dir?
  {
    assert IsAncestor(p[..k], p);
  }

  lemma {:induction false} MakesParents(c: Call, s: Store, attempt: nat, i: nat, k: nat, t: Tree) returns (u: Tree)
    requires i < |c.bundle.files| && k <= |c.bundle.files[i].path|
    requires Laid(t, PlanOf(c.bundle.files[..i]), DirectoriesTo(c.bundle.files[i].path, k))
    requires forall q :: q in PlanOf(c.bundle.files[..i]) ==> !IsAncestor(q, c.bundle.files[i].path)
    ensures Laid(u, PlanOf(c.bundle.files[..i]), Ancestors(c.bundle.files[i].path))
    ensures Gets(c, At(Staged(c, s, attempt, t), Parents(attempt, i, k)),
                 At(Staged(c, s, attempt, u), Creating(attempt, i)))
    decreases |c.bundle.files[i].path| - k
  {
    hide Gets, Laid, PlanOf, DirectoriesTo, IsAncestor, Next;
    var p, plan := c.bundle.files[i].path, PlanOf(c.bundle.files[..i]);
    var a := At(Staged(c, s, attempt, t), Parents(attempt, i, k));
    Step1(c, a);
    if k == |p| {
      DirectoriesToAll(p, k);
      u := t;
      ParentsStep(c, s, attempt, i, k, t);
    } else {
      var v := if p[k] == SLASH && p[..k] !in t then t[p[..k] := Dir] else t;
      if p[k] == SLASH {
        AncestorIsFree(t, plan, p, k);
        LayDirectory(t, plan, p, k);
      } else {
        DirectoriesToNext(p, k);
        assert DirectoriesTo(p, k + 1) == DirectoriesTo(p, k);
      }
      ParentsStep(c, s, attempt, i, k, t);
      u := MakesParents(c, s, attempt, i, k + 1, v);
      Then(c, a, At(Staged(c, s, attempt, v), Parents(attempt, i, k + 1)),
           At(Staged(c, s, attempt, u), Creating(attempt, i)));
    }
  }

  lemma ParentsStep(c: Call, s: Store, attempt: nat, i: nat, k: nat, t: Tree)
    requires i < |c.bundle.files| && k <= |c.bundle.files[i].path|
    requires var p := c.bundle.files[i].path; k < |p| && p[k] == SLASH && p[..k] in t ==> t[p[..k]].Dir?
    ensures var p := c.bundle.files[i].path;
            Next(c, At(Staged(c, s, attempt, t), Parents(attempt, i, k))) ==
            if k == |p| then At(Staged(c, s, attempt, t), Creating(attempt, i))
            else At(Staged(c, s, attempt, if p[k] == SLASH && p[..k] !in t then t[p[..k] := Dir] else t),
                    Parents(attempt, i, k + 1))
  {
    var p := c.bundle.files[i].path;
    if k < |p| {
      Restaged(c, s, attempt, t, t[p[..k] := Dir]);
    } else {
      Restaged(c, s, attempt, t, t);
    }
    hide Staged;
  }

  lemma WritingStep(c: Call, s: Store, attempt: nat, i: nat, n: nat, t: Tree, choice: Choice)
    requires i < |c.bundle.files| && n <= |c.bundle.files[i].bytes|
    requires Smooth(c, At(Staged(c, s, attempt, t), Writing(attempt, i, n)), choice)
    ensures var f := c.bundle.files[i];
            var m := Grow(n, choice, |f.bytes|);
            Move(c, At(Staged(c, s, attempt, t), Writing(attempt, i, n)), choice) ==
            if n == |f.bytes| then At(Staged(c, s, attempt, t), NextFile(attempt, i + 1, |c.bundle.files|))
            else At(Staged(c, s, attempt, t[f.path := File(f.bytes[..m], 1)]), Writing(attempt, i, m))
  {
    var f := c.bundle.files[i];
    var m := Grow(n, choice, |f.bytes|);
    Restaged(c, s, attempt, t, if n < |f.bytes| then t[f.path := File(f.bytes[..m], 1)] else t);
    hide Staged;
  }

  lemma {:induction false} WritesFile(c: Call, s: Store, attempt: nat, i: nat, n: nat, t: Tree)
    requires i < |c.bundle.files| && n <= |c.bundle.files[i].bytes|
    requires c.bundle.files[i].path in t && t[c.bundle.files[i].path] == File(c.bundle.files[i].bytes[..n], 1)
    ensures var f := c.bundle.files[i];
            Surely(c, At(Staged(c, s, attempt, t), Writing(attempt, i, n)),
                   At(Staged(c, s, attempt, t[f.path := File(f.bytes, 1)]), NextFile(attempt, i + 1, |c.bundle.files|)),
                   |f.bytes| - n + 1)
    decreases |c.bundle.files[i].bytes| - n
  {
    hide Move, Smooth, Staged;
    var f := c.bundle.files[i];
    var a := At(Staged(c, s, attempt, t), Writing(attempt, i, n));
    var z := At(Staged(c, s, attempt, t[f.path := File(f.bytes, 1)]), NextFile(attempt, i + 1, |c.bundle.files|));
    forall choice | Smooth(c, a, choice)
      ensures Surely(c, Move(c, a, choice), z, |f.bytes| - n)
    {
      WritingStep(c, s, attempt, i, n, t, choice);
      if n == |f.bytes| {
        assert f.bytes[..n] == f.bytes;
        assert t[f.path := File(f.bytes, 1)] == t;
      } else {
        var m := Grow(n, choice, |f.bytes|);
        var u := t[f.path := File(f.bytes[..m], 1)];
        WritesFile(c, s, attempt, i, m, u);
        assert u[f.path := File(f.bytes, 1)] == t[f.path := File(f.bytes, 1)];
        Longer(c, Move(c, a, choice), z, |f.bytes| - m + 1, |f.bytes| - n);
      }
    }
  }

  lemma CreatingStep(c: Call, s: Store, attempt: nat, i: nat, t: Tree)
    requires i < |c.bundle.files| && c.bundle.files[i].path !in t
    ensures Next(c, At(Staged(c, s, attempt, t), Creating(attempt, i))) ==
            At(Staged(c, s, attempt, t[c.bundle.files[i].path := File([], 1)]), Writing(attempt, i, 0))
  {
    Restaged(c, s, attempt, t, t[c.bundle.files[i].path := File([], 1)]);
    hide Staged;
  }

  /** No path of the bundle is laid before its own turn. */
  lemma PathIsFree(b: VerifiedBundle, i: nat, t: Tree)
    requires Portable(b) && DistinctKeys(RecordsOf(b), FilePath) && i < |b.files|
    requires Laid(t, PlanOf(b.files[..i]), Ancestors(b.files[i].path))
    ensures b.files[i].path !in t
    ensures forall q :: q in PlanOf(b.files[..i]) ==> !IsAncestor(q, b.files[i].path)
  {
    hide HasReservedPath, Split, LowerCase, BundleNodes;
    var p := b.files[i].path;
    assert RecordsOf(b)[i].path in Paths(ManifestOf(b));
    forall q | q in PlanOf(b.files[..i])
      ensures q != p && !IsAncestor(p, q) && !IsAncestor(q, p)
    {
      PlanPaths(b.files[..i], q);
      var k :| 0 <= k < i && b.files[..i][k].path == q;
      assert b.files[k].path == q;
      assert FilePath(RecordsOf(b)[k]) != FilePath(RecordsOf(b)[i]);
      assert RecordsOf(b)[k].path in Paths(ManifestOf(b));
    }
  }

  lemma AncestorsAreFree(b: VerifiedBundle, i: nat)
    requires Portable(b) && i < |b.files|
    ensures forall q :: q in PlanOf(b.files[..i]) ==> !IsAncestor(q, b.files[i].path)
  {
    hide HasReservedPath, Split, LowerCase, BundleNodes, IsAncestor;
    assert RecordsOf(b)[i].path in Paths(ManifestOf(b));
    forall q | q in PlanOf(b.files[..i])
      ensures !IsAncestor(q, b.files[i].path)
    {
      PlanPaths(b.files[..i], q);
      var k :| 0 <= k < i && b.files[..i][k].path == q;
      assert b.files[k].path == q;
      assert RecordsOf(b)[k].path in Paths(ManifestOf(b));
    }
  }

  lemma LaysOneFile(c: Call, s: Store, attempt: nat, i: nat, t: Tree) returns (u: Tree)
    requires Portable(c.bundle) && DistinctKeys(RecordsOf(c.bundle), FilePath) && i < |c.bundle.files|
    requires Laid(t, PlanOf(c.bundle.files[..i]), {})
    ensures Laid(u, PlanOf(c.bundle.files[..i + 1]), {})
    ensures Gets(c, At(Staged(c, s, attempt, t), Parents(attempt, i, 0)),
                 At(Staged(c, s, attempt, u), NextFile(attempt, i + 1, |c.bundle.files|)))
  {
    hide Surely, Next, Staged, Laid, Portable, PlanOf, DistinctKeys, RecordsOf, IsAncestor;
    var f := c.bundle.files[i];
    var a := At(Staged(c, s, attempt, t), Parents(attempt, i, 0));
    AncestorsAreFree(c.bundle, i);
    assert DirectoriesTo(f.path, 0) == {};
    hide DirectoriesTo;
    var v := MakesParents(c, s, attempt, i, 0, t);
    PathIsFree(c.bundle, i, v);
    var w := v[f.path := File([], 1)];
    CreatingStep(c, s, attempt, i, v);
    ThenStep(c, a, At(Staged(c, s, attempt, v), Creating(attempt, i)));
    assert f.bytes[..0] == [];
    WritesFile(c, s, attempt, i, 0, w);
    u := v[f.path := File(f.bytes, 1)];
    assert w[f.path := File(f.bytes, 1)] == u;
    Then(c, a, At(Staged(c, s, attempt, w), Writing(attempt, i, 0)),
         At(Staged(c, s, attempt, u), NextFile(attempt, i + 1, |c.bundle.files|)));
    LayFile(v, PlanOf(c.bundle.files[..i]), f.path, f.bytes);
    PlanGrows(c.bundle.files, i);
  }

  lemma {:induction false} LaysFiles(c: Call, s: Store, attempt: nat, i: nat, t: Tree) returns (u: Tree)
    requires Portable(c.bundle) && DistinctKeys(RecordsOf(c.bundle), FilePath) && i <= |c.bundle.files|
    requires Laid(t, PlanOf(c.bundle.files[..i]), {})
    ensures Laid(u, PlanOf(c.bundle.files), {})
    ensures Gets(c, At(Staged(c, s, attempt, t), NextFile(attempt, i, |c.bundle.files|)),
                 At(Staged(c, s, attempt, u), StageInspect(attempt)))
    decreases |c.bundle.files| - i
  {
    hide Gets, Next, Staged, Laid, Portable, PlanOf, DistinctKeys, RecordsOf;
    if i == |c.bundle.files| {
      u := t;
      assert c.bundle.files[..i] == c.bundle.files;
      Stay(c, At(Staged(c, s, attempt, t), StageInspect(attempt)));
    } else {
      var v := LaysOneFile(c, s, attempt, i, t);
      u := LaysFiles(c, s, attempt, i + 1, v);
      Then(c, At(Staged(c, s, attempt, t), Parents(attempt, i, 0)),
           At(Staged(c, s, attempt, v), NextFile(attempt, i + 1, |c.bundle.files|)),
           At(Staged(c, s, attempt, u), StageInspect(attempt)));
    }
  }

  lemma MaterialiseStep(c: Call, s: Store, attempt: nat)
    ensures Next(c, At(Staged(c, s, attempt, map[]), StagingMade(attempt))) ==
            At(Staged(c, s, attempt, map[]), NextFile(attempt, 0, |c.bundle.files|))
  {
    Restaged(c, s, attempt, map[], map[]);
    hide Staged;
  }

  /** From an empty quarantine directory to the whole bundle. */
  lemma Materialises(c: Call, s: Store, attempt: nat) returns (u: Tree)
    requires Portable(c.bundle) && DistinctKeys(RecordsOf(c.bundle), FilePath)
    ensures Laid(u, PlanOf(c.bundle.files), {})
    ensures Gets(c, At(Staged(c, s, attempt, map[]), StagingMade(attempt)),
                 At(Staged(c, s, attempt, u), StageInspect(attempt)))
  {
    hide Gets, Next, Staged, Portable, DistinctKeys, RecordsOf;
    var a := At(Staged(c, s, attempt, map[]), StagingMade(attempt));
    Step1(c, a);
    MaterialiseStep(c, s, attempt);
    assert c.bundle.files[..0] == [];
    assert Laid(map[], PlanOf(c.bundle.files[..0]), {});
    hide Laid;
    u := LaysFiles(c, s, attempt, 0, map[]);
    Then(c, a, At(Staged(c, s, attempt, map[]), NextFile(attempt, 0, |c.bundle.files|)),
         At(Staged(c, s, attempt, u), StageInspect(attempt)));
  }

  // ----- reverification, the record, the rename

  lemma StageInspectStep(c: Call, s: Store, attempt: nat, t: Tree)
    requires Genuine(c.env, c.bundle) && InspectTree(t, ManifestOf(c.bundle), None).Success?
    ensures Next(c, At(Staged(c, s, attempt, t), StageInspect(attempt)))
            == At(Staged(c, s, attempt, t), StageReading(attempt, OwnCandidates(c.bundle, 0)))
  {
    hide Genuine, InspectTree, ManifestFromVerified;
    Restaged(c, s, attempt, t, t);
    GenuineManifest(c.env, c.bundle);
    assert OwnCandidates(c.bundle, 0) == [];
    hide Staged;
  }

  lemma StageReadingStep(c: Call, s: Store, attempt: nat, t: Tree, n: nat)
    requires Genuine(c.env, c.bundle) && Serves(t, c.bundle) && n <= |c.bundle.files|
    requires Verify(c.env.hash, ManifestOf(c.bundle), c.bundle.subject, c.bundle.subject,
                    OwnCandidates(c.bundle, |c.bundle.files|)).Success?
    ensures Next(c, At(Staged(c, s, attempt, t), StageReading(attempt, OwnCandidates(c.bundle, n)))) ==
            At(Staged(c, s, attempt, t),
               if n < |c.bundle.files| then StageReading(attempt, OwnCandidates(c.bundle, n + 1))
               else RecordCreate(attempt))
  {
    hide Genuine, ReadDeclared, ManifestFromVerified, Verify;
    Restaged(c, s, attempt, t, t);
    GenuineManifest(c.env, c.bundle);
    if n < |c.bundle.files| {
      OneMoreCandidate(c.bundle, n);
      assert ManifestOf(c.bundle).files[n].path == c.bundle.files[n].path;
    }
    hide Staged, OwnCandidates;
  }

  lemma OneMoreCandidate(b: VerifiedBundle, n: nat)
    requires n < |b.files|
    ensures OwnCandidates(b, n) + [CandidateFile(b.files[n].path, b.files[n].bytes)] == OwnCandidates(b, n + 1)
  {
  }

  lemma {:induction false} ReadsStage(c: Call, s: Store, attempt: nat, t: Tree, n: nat)
    requires Genuine(c.env, c.bundle) && Serves(t, c.bundle) && n <= |c.bundle.files|
    ensures Gets(c, At(Staged(c, s, attempt, t), StageReading(attempt, OwnCandidates(c.bundle, n))),
                 At(Staged(c, s, attempt, t), RecordCreate(attempt)))
    decreases |c.bundle.files| - n
  {
    hide Gets, Next, Staged, Genuine, Serves, Verify, OwnCandidates;
    var a := At(Staged(c, s, attempt, t), StageReading(attempt, OwnCandidates(c.bundle, n)));
    VerifiesItself(c.env, c.bundle);
    Step1(c, a);
    StageReadingStep(c, s, attempt, t, n);
    if n < |c.bundle.files| {
      ReadsStage(c, s, attempt, t, n + 1);
      Then(c, a, At(Staged(c, s, attempt, t), StageReading(attempt, OwnCandidates(c.bundle, n + 1))),
           At(Staged(c, s, attempt, t), RecordCreate(attempt)));
    }
  }

  lemma RecordWritingStep(c: Call, s: Store, attempt: nat, t: Tree, record: Text, n: nat, choice: Choice)
    requires n <= |record| && Smooth(c, At(Staged(c, s, attempt, t), RecordWriting(attempt, record, n)), choice)
    ensures var m := Grow(n, choice, |record|);
            Move(c, At(Staged(c, s, attempt, t), RecordWriting(attempt, record, n)), choice) ==
            if n == |record| then At(Staged(c, s, attempt, t), RecordCheck(attempt, record))
            else At(Staged(c, s, attempt, t[RECORD_PATH := File(record[..m], 1)]), RecordWriting(attempt, record, m))
  {
    hide RECORD_PATH, ManifestFromVerified;
    var m := Grow(n, choice, |record|);
    Restaged(c, s, attempt, t, if n < |record| then t[RECORD_PATH := File(record[..m], 1)] else t);
    hide Staged;
  }

  lemma {:induction false} WritesRecord(c: Call, s: Store, attempt: nat, t: Tree, record: Text, n: nat)
    requires n <= |record| && RECORD_PATH in t && t[RECORD_PATH] == File(record[..n], 1)
    ensures Surely(c, At(Staged(c, s, attempt, t), RecordWriting(attempt, record, n)),
                   At(Staged(c, s, attempt, t[RECORD_PATH := File(record, 1)]), RecordCheck(attempt, record)),
                   |record| - n + 1)
    decreases |record| - n
  {
    hide Move, Smooth, Staged, RECORD_PATH;
    var a := At(Staged(c, s, attempt, t), RecordWriting(attempt, record, n));
    var z := At(Staged(c, s, attempt, t[RECORD_PATH := File(record, 1)]), RecordCheck(attempt, record));
    forall choice | Smooth(c, a, choice)
      ensures Surely(c, Move(c, a, choice), z, |record| - n)
    {
      RecordWritingStep(c, s, attempt, t, record, n, choice);
      if n == |record| {
        assert record[..n] == record;
        assert t[RECORD_PATH := File(record, 1)] == t;
      } else {
        var m := Grow(n, choice, |record|);
        var u := t[RECORD_PATH := File(record[..m], 1)];
        WritesRecord(c, s, attempt, u, record, m);
        assert u[RECORD_PATH := File(record, 1)] == t[RECORD_PATH := File(record, 1)];
        Longer(c, Move(c, a, choice), z, |record| - m + 1, |record| - n);
      }
    }
  }

  lemma RecordCreateStep(c: Call, s: Store, attempt: nat, t: Tree, record: Text)
    requires RecordBytes(c.env, c.bundle, c.publisher) == Success(record) && RECORD_PATH !in t
    ensures Next(c, At(Staged(c, s, attempt, t), RecordCreate(attempt)))
            == At(Staged(c, s, attempt, t[RECORD_PATH := File([], 1)]), RecordWriting(attempt, record, 0))
  {
    hide RECORD_PATH, ManifestFromVerified, RecordBytes;
    Restaged(c, s, attempt, t, t[RECORD_PATH := File([], 1)]);
    hide Staged;
  }

  lemma RecordCheckStep(c: Call, s: Store, attempt: nat, t: Tree, record: Text)
    requires ReadDeclared(t, RECORD_PATH, MAX_INSTALLATION_RECORD_BYTES) == Success(record)
    ensures Next(c, At(Staged(c, s, attempt, t), RecordCheck(attempt, record)))
            == At(Staged(c, s, attempt, t), Promote(attempt))
  {
    hide RECORD_PATH, ManifestFromVerified, ReadDeclared;
    Restaged(c, s, attempt, t, t);
    hide Staged;
  }

  function Published(c: Call, s: Store, t: Tree): Store {
    s.(roots := s.roots[c.bundle.subject := t])
  }

  lemma PromoteStep(c: Call, s: Store, attempt: nat, t: Tree)
    requires c.bundle.subject !in s.roots && Slot(c.bundle.subject, attempt) !in s.staging
    ensures Next(c, At(Staged(c, s, attempt, t), Promote(attempt)))
            == At(Published(c, s, t), RootInspect(AfterPromotion(attempt)))
  {
    hide ManifestFromVerified;
    Restaged(c, s, attempt, t, t);
    var slot := Slot(c.bundle.subject, attempt);
    assert s.staging[slot := t] - {slot} == s.staging;
  }

  lemma PortableIsNotReserved(b: VerifiedBundle)
    requires Portable(b)
    ensures !HasReservedPath(b)
  {
  }

  lemma RecordPathIsFree(env: Env, b: VerifiedBundle, t: Tree)
    requires Genuine(env, b) && Portable(b) && Laid(t, PlanOf(b.files), {})
    ensures RECORD_PATH !in t
  {
    hide Genuine, RECORD_PATH, PlanOf, LowerCase, Portable, Laid, BundleNodes, HasReservedPath;
    StagedNodes(env, b, t);
    PortableIsNotReserved(b);
    if RECORD_PATH in t {
      RecordClashesWithNothing(b, RECORD_PATH);
    }
  }

  /** From the materialised bundle to the published root. */
  lemma Promotes(c: Call, s: Store, attempt: nat, t: Tree, record: Text) returns (u: Tree)
    requires Genuine(c.env, c.bundle) && Portable(c.bundle) && Laid(t, PlanOf(c.bundle.files), {})
    requires RecordBytes(c.env, c.bundle, c.publisher) == Success(record)
    requires c.bundle.subject !in s.roots && Slot(c.bundle.subject, attempt) !in s.staging
    ensures Complete(u, c.bundle, record)
    ensures Gets(c, At(Staged(c, s, attempt, t), StageInspect(attempt)),
                 At(Published(c, s, u), RootInspect(AfterPromotion(attempt))))
  {
    hide Surely, Next, Staged, Genuine, Portable, Laid, Complete, Serves, RecordBytes, RECORD_PATH, InspectTree,
         OwnCandidates, Published, WellFormed, ReadDeclared, ExactTree, Expect;
    RecordFits(c, record);
    var a := At(Staged(c, s, attempt, t), StageInspect(attempt));
    StagedTreePasses(c.env, c.bundle, t);
    StagedTreeServes(c.env, c.bundle, t);
    Step1(c, a);
    StageInspectStep(c, s, attempt, t);
    ReadsStage(c, s, attempt, t, 0);
    Then(c, a, At(Staged(c, s, attempt, t), StageReading(attempt, OwnCandidates(c.bundle, 0))),
         At(Staged(c, s, attempt, t), RecordCreate(attempt)));
    RecordPathIsFree(c.env, c.bundle, t);
    RecordCreateStep(c, s, attempt, t, record);
    ThenStep(c, a, At(Staged(c, s, attempt, t), RecordCreate(attempt)));
    var v := t[RECORD_PATH := File([], 1)];
    LayRecord(t, c.bundle, record);
    u := v[RECORD_PATH := File(record, 1)];
    WritesRecord(c, s, attempt, v, record, 0);
    Then(c, a, At(Staged(c, s, attempt, v), RecordWriting(attempt, record, 0)),
         At(Staged(c, s, attempt, u), RecordCheck(attempt, record)));
    CompleteTreeServes(c.env, c.bundle, u, record);
    RecordCheckStep(c, s, attempt, u, record);
    ThenStep(c, a, At(Staged(c, s, attempt, u), RecordCheck(attempt, record)));
    PromoteStep(c, s, attempt, u);
    ThenStep(c, a, At(Staged(c, s, attempt, u), Promote(attempt)));
  }

  lemma RecordFits(c: Call, record: Text)
    requires RecordBytes(c.env, c.bundle, c.publisher) == Success(record)
    ensures |record| <= MAX_INSTALLATION_RECORD_BYTES
  {
  }

  // ----- verifying a root that holds the bundle

  lemma RootInspectStep(c: Call, s: Store, purpose: Purpose)
    requires Genuine(c.env, c.bundle) && c.bundle.subject in s.roots
    requires InspectTree(s.roots[c.bundle.subject], ManifestOf(c.bundle), Allowance()).Success?
    ensures Next(c, At(s, RootInspect(purpose))) == At(s, RootReading(purpose, OwnCandidates(c.bundle, 0)))
  {
    hide Genuine, InspectTree, ManifestFromVerified, ReadDeclared, Verify, RecordBytes;
    GenuineManifest(c.env, c.bundle);
    assert OwnCandidates(c.bundle, 0) == [];
  }

  lemma RootReadingStep(c: Call, s: Store, purpose: Purpose, n: nat)
    requires Genuine(c.env, c.bundle) && c.bundle.subject in s.roots && Serves(s.roots[c.bundle.subject], c.bundle)
    requires n <= |c.bundle.files|
    requires Verify(c.env.hash, ManifestOf(c.bundle), c.bundle.subject, c.bundle.subject,
                    OwnCandidates(c.bundle, |c.bundle.files|)).Success?
    ensures Next(c, At(s, RootReading(purpose, OwnCandidates(c.bundle, n)))) ==
            At(s, if n < |c.bundle.files| then RootReading(purpose, OwnCandidates(c.bundle, n + 1))
                  else RecordCompare(purpose))
  {
    hide Genuine, InspectTree, ReadDeclared, ManifestFromVerified, Verify, RecordBytes;
    GenuineManifest(c.env, c.bundle);
    if n < |c.bundle.files| {
      OneMoreCandidate(c.bundle, n);
      assert ManifestOf(c.bundle).files[n].path == c.bundle.files[n].path;
    }
    hide OwnCandidates;
  }

  lemma {:induction false} ReadsRoot(c: Call, s: Store, purpose: Purpose, n: nat)
    requires Genuine(c.env, c.bundle) && c.bundle.subject in s.roots && Serves(s.roots[c.bundle.subject], c.bundle)
    requires n <= |c.bundle.files|
    ensures Gets(c, At(s, RootReading(purpose, OwnCandidates(c.bundle, n))), At(s, RecordCompare(purpose)))
    decreases |c.bundle.files| - n
  {
    hide Gets, Next, Genuine, Serves, Verify, OwnCandidates;
    var a := At(s, RootReading(purpose, OwnCandidates(c.bundle, n)));
    VerifiesItself(c.env, c.bundle);
    Step1(c, a);
    RootReadingStep(c, s, purpose, n);
    if n < |c.bundle.files| {
      ReadsRoot(c, s, purpose, n + 1);
      Then(c, a, At(s, RootReading(purpose, OwnCandidates(c.bundle, n + 1))), At(s, RecordCompare(purpose)));
    }
  }

  lemma RecordCompareStep(c: Call, s: Store, purpose: Purpose, record: Text)
    requires Genuine(c.env, c.bundle) && c.bundle.subject in s.roots
    requires RecordBytes(c.env, c.bundle, c.publisher) == Success(record)
    requires ReadDeclared(s.roots[c.bundle.subject], RECORD_PATH, MAX_INSTALLATION_RECORD_BYTES) == Success(record)
    ensures Next(c, At(s, RecordCompare(purpose))) == At(s, Unlocking(Installed(!purpose.AfterPromotion?)))
  {
    hide Genuine, InspectTree, ReadDeclared, ManifestFromVerified, Verify, RecordBytes, RECORD_PATH;
    GenuineManifest(c.env, c.bundle);
  }

  lemma UnlockStep(c: Call, s: Store, outcome: Outcome)
    ensures Next(c, At(s, Unlocking(outcome))) == At(s.(locks := s.locks - {c.bundle.subject}), Finished(outcome))
  {
  }

  /** A root that holds the bundle and its record verifies, and the lock is dropped. */
  lemma VerifiesRoot(c: Call, s: Store, purpose: Purpose)
    requires Genuine(c.env, c.bundle) && Portable(c.bundle) && c.bundle.subject in s.roots
    requires HoldsBundle(c.env, s.roots[c.bundle.subject], c.bundle, c.publisher)
    ensures Gets(c, At(s, RootInspect(purpose)),
                 At(s.(locks := s.locks - {c.bundle.subject}), Finished(Installed(!purpose.AfterPromotion?))))
  {
    hide Gets, Next, Genuine, Portable, Complete, Serves, RecordBytes, RECORD_PATH, InspectTree, OwnCandidates,
         WellFormed, ReadDeclared, ExactTree, Expect;
    var t, record := s.roots[c.bundle.subject], RecordBytes(c.env, c.bundle, c.publisher).value;
    RecordFits(c, record);
    var a := At(s, RootInspect(purpose));
    CompleteTreePasses(c.env, c.bundle, t, record);
    CompleteTreeServes(c.env, c.bundle, t, record);
    Step1(c, a);
    RootInspectStep(c, s, purpose);
    ReadsRoot(c, s, purpose, 0);
    Then(c, a, At(s, RootReading(purpose, OwnCandidates(c.bundle, 0))), At(s, RecordCompare(purpose)));
    RecordCompareStep(c, s, purpose, record);
    ThenStep(c, a, At(s, RecordCompare(purpose)));
    UnlockStep(c, s, Installed(!purpose.AfterPromotion?));
    ThenStep(c, a, At(s, Unlocking(Installed(!purpose.AfterPromotion?))));
  }

  // ----- main results

  /**
   Undisturbed, installing a portable bundle into a store without its root
   publishes exactly that bundle and its record, leaves locks and quarantine as
   they were, and reports a fresh installation.
   */
  lemma FreshInstallSucceeds(c: Call, s: Store, attempt: nat) returns (root: Tree)
    requires Genuine(c.env, c.bundle) && Portable(c.bundle) && PublisherFits(c)
    requires RecordBytes(c.env, c.bundle, c.publisher).Success?
    requires c.bundle.subject !in s.locks && c.bundle.subject !in s.roots && FirstFree(c, s, attempt)
    ensures HoldsBundle(c.env, root, c.bundle, c.publisher) && Recorded(c.env, root, c.bundle, c.publisher)
    ensures Gets(c, At(s, Requested), At(Published(c, s, root), Finished(Installed(false))))
  {
    hide Gets, Next, Genuine, Complete, RecordBytes, Laid, HasReservedPath, PublisherFits, BundleNodes, Split,
         LowerCase, IsAncestor;
    var record := RecordBytes(c.env, c.bundle, c.publisher).value;
    var l, a := Locking(c, s), At(s, Requested);
    GenuineFacts(c.env, c.bundle);
    TakesLock(c, s);
    FoundNoRoot(c, l);
    ThenStep(c, a, At(l, Locked));
    FindsSlot(c, l, 0, attempt);
    Then(c, a, At(l, StagingAttempt(0)), At(Staged(c, l, attempt, map[]), StagingMade(attempt)));
    hide Portable, FirstFree;
    var t := Materialises(c, l, attempt);
    Then(c, a, At(Staged(c, l, attempt, map[]), StagingMade(attempt)),
         At(Staged(c, l, attempt, t), StageInspect(attempt)));
    root := Promotes(c, l, attempt, t, record);
    HeldIsRecorded(c.env, root, c.bundle, c.publisher);
    hide Recorded;
    var published := Published(c, l, root);
    Then(c, a, At(Staged(c, l, attempt, t), StageInspect(attempt)),
         At(published, RootInspect(AfterPromotion(attempt))));
    VerifiesRoot(c, published, AfterPromotion(attempt));
    assert s.locks + {c.bundle.subject} - {c.bundle.subject} == s.locks;
    Then(c, a, At(published, RootInspect(AfterPromotion(attempt))),
         At(Published(c, s, root), Finished(Installed(false))));
  }

  lemma FoundNoRoot(c: Call, s: Store)
    requires c.bundle.subject !in s.roots
    ensures Next(c, At(s, Locked)) == At(s, StagingAttempt(0))
  {
  }

  lemma FoundRoot(c: Call, s: Store)
    requires c.bundle.subject in s.roots
    ensures Next(c, At(s, Locked)) == At(s, RootInspect(Reuse))
  {
  }

  /** Undisturbed, installing again what a root already holds changes nothing and reports reuse. */
  lemma ReinstallReuses(c: Call, s: Store)
    requires Genuine(c.env, c.bundle) && Portable(c.bundle) && PublisherFits(c) && c.bundle.subject !in s.locks
    requires c.bundle.subject in s.roots && HoldsBundle(c.env, s.roots[c.bundle.subject], c.bundle, c.publisher)
    ensures Gets(c, At(s, Requested), At(s, Finished(Installed(true))))
  {
    hide Gets, Next, Genuine, HoldsBundle, HasReservedPath, PublisherFits, BundleNodes, Split, LowerCase, IsAncestor;
    var l, a := Locking(c, s), At(s, Requested);
    TakesLock(c, s);
    FoundRoot(c, l);
    ThenStep(c, a, At(l, Locked));
    hide Portable;
    VerifiesRoot(c, l, Reuse);
    assert s.locks + {c.bundle.subject} - {c.bundle.subject} == s.locks;
    Then(c, a, At(l, RootInspect(Reuse)), At(s, Finished(Installed(true))));
  }

  function Cleaned(c: Call, s: Store, attempt: nat): Store {
    s.(staging := s.staging - {Slot(c.bundle.subject, attempt)})
  }

  function NodesLeft(c: Call, s: Store, attempt: nat): nat {
    var slot := Slot(c.bundle.subject, attempt);
    if slot in s.staging then |s.staging[slot]| else 0
  }

  /** One step of the removal either completes it or leaves fewer nodes. */
  lemma CleanStep(c: Call, s: Store, attempt: nat, outcome: Outcome, choice: Choice)
    requires Smooth(c, At(s, Cleaning(attempt, Return(outcome))), choice)
    ensures var b := Move(c, At(s, Cleaning(attempt, Return(outcome))), choice);
            || b == At(Cleaned(c, s, attempt), Unlocking(outcome))
            || (b.phase == Cleaning(attempt, Return(outcome)) && Cleaned(c, b.store, attempt) == Cleaned(c, s, attempt)
                && NodesLeft(c, b.store, attempt) < NodesLeft(c, s, attempt))
  {
    var slot := Slot(c.bundle.subject, attempt);
    if slot in s.staging && choice.Keep? {
      FewerNodes(s.staging[slot], choice.nodes);
      var left := map p | p in s.staging[slot] && p in choice.nodes :: s.staging[slot][p];
      assert s.staging[slot := left] - {slot} == s.staging - {slot};
    } else if slot !in s.staging {
      assert s.staging - {slot} == s.staging;
    }
  }

  lemma FewerNodes(t: Tree, nodes: set<Text>)
    requires !(t.Keys <= nodes)
    ensures |map p | p in t && p in nodes :: t[p]| < |t|
  {
    var left := map p | p in t && p in nodes :: t[p];
    var gone :| gone in t.Keys && gone !in nodes;
    var removed := t.Keys - left.Keys;
    assert t.Keys == left.Keys + removed && gone in removed;
    assert |t.Keys| == |t| && |left.Keys| == |left|;
  }

  /** However the removal is split, it ends with the quarantine directory gone. */
  lemma {:induction false} Cleans(c: Call, s: Store, attempt: nat, outcome: Outcome)
    ensures Surely(c, At(s, Cleaning(attempt, Return(outcome))), At(Cleaned(c, s, attempt), Unlocking(outcome)),
                   NodesLeft(c, s, attempt) + 1)
    decreases NodesLeft(c, s, attempt)
  {
    hide Move, Smooth, Cleaned, NodesLeft;
    var a, z := At(s, Cleaning(attempt, Return(outcome))), At(Cleaned(c, s, attempt), Unlocking(outcome));
    forall choice | Smooth(c, a, choice)
      ensures Surely(c, Move(c, a, choice), z, NodesLeft(c, s, attempt))
    {
      CleanStep(c, s, attempt, outcome, choice);
      var b := Move(c, a, choice);
      if b != z {
        Cleans(c, b.store, attempt, outcome);
        Longer(c, b, z, NodesLeft(c, b.store, attempt) + 1, NodesLeft(c, s, attempt));
      }
    }
  }

  /** The call holds a quarantine path it is going to clean if anything goes wrong. */
  predicate Guarded(phase: Phase) {
    || (InQuarantine(phase) && !phase.StagingMade?)
    || ((phase.RootInspect? || phase.RootReading? || phase.RecordCompare?) && !phase.purpose.Reuse?)
  }

  function HeldAttempt(phase: Phase): nat
    requires Guarded(phase)
  {
    if InQuarantine(phase) then phase.attempt else phase.purpose.attempt
  }

  /** Still holding the path, ending in a receipt, or turning to cleaning with the store as it was. */
  ghost predicate Turns(s: Store, attempt: nat, e: Effect) {
    || (Guarded(e.phase) && HeldAttempt(e.phase) == attempt)
    || (e.phase.Unlocking? && e.phase.outcome.Installed?)
    || (e.store == s && e.phase.Cleaning? && e.phase.attempt == attempt
        && !(e.phase.next.Return? && e.phase.next.outcome.Installed?))
  }

  /** An error that is about to be cleaned up after. */
  predicate IsAbandoned(e: Effect) {
    e.phase.Cleaning? && e.phase.next.Return?
  }

  lemma MaterializeTurns(s: Store, t: Tree, x: Installer, choice: Choice)
    requires x.phase.Parents? || x.phase.Creating? || x.phase.Writing?
    ensures Turns(s, x.phase.attempt, MaterializeStep(s, t, x, choice))
    ensures choice.IoFailure? ==> IsAbandoned(MaterializeStep(s, t, x, choice))
  {
  }

  lemma StageTurns(env: Env, s: Store, t: Tree, x: Installer, choice: Choice)
    requires x.phase.StageInspect? || x.phase.StageReading? || x.phase.RecordCreate? || x.phase.RecordWriting?
             || x.phase.RecordCheck? || x.phase.Promote?
    ensures Turns(s, x.phase.attempt, StageStep(env, s, t, x, choice))
    ensures choice.IoFailure? ==>
              var e := StageStep(env, s, t, x, choice);
              e.phase.Cleaning? && (IsAbandoned(e) <==> !(x.phase.Promote? && x.bundle.subject in s.roots))
  {
    hide InspectTree, ReadDeclared, Verify, ManifestFromVerified, RecordBytes;
  }

  lemma RootTurns(env: Env, s: Store, x: Installer, choice: Choice)
    requires x.phase.RootInspect? || x.phase.RootReading? || x.phase.RecordCompare?
    requires !x.phase.purpose.Reuse?
    ensures Turns(s, x.phase.purpose.attempt, RootStep(env, s, x, choice))
    ensures choice.IoFailure? ==> IsAbandoned(RootStep(env, s, x, choice))
  {
    hide InspectTree, ReadDeclared, Verify, ManifestFromVerified, RecordBytes;
  }

  /**
   While a quarantine path is held a call goes on holding it, or ends in a
   receipt, or turns to cleaning that path with the store as it was. A failed
   operation turns it to cleaning, with an error unless the rename found a root.
   */
  lemma FailureTurnsToCleaning(c: Call, s: Store, phase: Phase, choice: Choice)
    requires Guarded(phase) && !choice.Crash?
    ensures var b := Move(c, At(s, phase), choice);
            && ((Guarded(b.phase) && HeldAttempt(b.phase) == HeldAttempt(phase))
                || (b.phase.Unlocking? && b.phase.outcome.Installed?)
                || (b.store == s && b.phase.Cleaning? && b.phase.attempt == HeldAttempt(phase)
                    && !(b.phase.next.Return? && b.phase.next.outcome.Installed?)))
            && (choice.IoFailure? ==>
                  b.phase.Cleaning? && (b.phase.next.VerifyRace? <==>
                    phase.Promote? && c.bundle.subject in s.roots
                    && Slot(c.bundle.subject, phase.attempt) in s.staging))
  {
    hide MaterializeStep, StageStep, RootStep;
    var x := Installer(c.bundle, c.publisher, phase);
    if InQuarantine(phase) {
      var slot := Slot(c.bundle.subject, phase.attempt);
      if slot in s.staging {
        if phase.Parents? || phase.Creating? || phase.Writing? {
          MaterializeTurns(s, s.staging[slot], x, choice);
        } else {
          StageTurns(c.env, s, s.staging[slot], x, choice);
        }
      }
    } else {
      RootTurns(c.env, s, x, choice);
    }
  }

  /**
   Once a step has turned a call to cleaning with an error, whatever the error,
   its undisturbed rest removes the quarantine directory, drops the lock, keeps
   every root and reports the error.
   */
  lemma FailureCleansUp(c: Call, s: Store, phase: Phase, choice: Choice, attempt: nat, error: StoreError)
    requires !phase.Cleaning? && Move(c, At(s, phase), choice).phase == Cleaning(attempt, Return(Failed(error)))
    ensures Gets(c, Move(c, At(s, phase), choice),
                 At(Store(s.locks - {c.bundle.subject}, s.staging - {Slot(c.bundle.subject, attempt)}, s.roots),
                    Finished(Failed(error))))
  {
    hide Surely, Next;
    TurningKeepsStore(c, s, phase, choice);
    hide Move;
    var cleaned := Cleaned(c, s, attempt);
    Cleans(c, s, attempt, Failed(error));
    UnlockStep(c, cleaned, Failed(error));
    ThenStep(c, At(s, Cleaning(attempt, Return(Failed(error)))), At(cleaned, Unlocking(Failed(error))));
  }

  lemma EarlyNeverCleans(env: Env, s: Store, x: Installer, choice: Choice)
    requires x.phase.Requested? || x.phase.LockMade? || x.phase.Locked? || x.phase.StagingAttempt?
    ensures !EarlyStep(env, s, x, choice).phase.Cleaning?
  {
    hide HasReservedPath;
  }

  lemma RootMismatchKeepsStore(env: Env, s: Store, x: Installer, choice: Choice)
    requires x.phase.RootInspect? || x.phase.RootReading? || x.phase.RecordCompare?
    ensures RootStep(env, s, x, choice).store == s
  {
    hide InspectTree, ReadDeclared, Verify, ManifestFromVerified, RecordBytes;
  }

  lemma TurningKeepsStore(c: Call, s: Store, phase: Phase, choice: Choice)
    requires !phase.Cleaning? && Move(c, At(s, phase), choice).phase.Cleaning?
    ensures Move(c, At(s, phase), choice).store == s
  {
    hide EarlyStep, StageStep, RootStep;
    var x := Installer(c.bundle, c.publisher, phase);
    if Guarded(phase) && !choice.Crash? {
      FailureTurnsToCleaning(c, s, phase, choice);
    } else if phase.RootInspect? || phase.RootReading? || phase.RecordCompare? {
      RootMismatchKeepsStore(c.env, s, x, choice);
    } else if phase.Requested? || phase.LockMade? || phase.Locked? || phase.StagingAttempt? {
      EarlyNeverCleans(c.env, s, x, choice);
    }
  }

  /** A failure right after the quarantine directory was made is the exception: the directory stays. */
  lemma CreationFailureLeavesDirectory(c: Call, s: Store, attempt: nat)
    requires Slot(c.bundle.subject, attempt) in s.staging
    ensures var e := StepOf(c.env, s, Installer(c.bundle, c.publisher, StagingMade(attempt)), IoFailure);
            Gets(c, At(e.store, e.phase), At(s.(locks := s.locks - {c.bundle.subject}), Finished(Failed(Io))))
  {
    UnlockStep(c, s, Failed(Io));
    Step1(c, At(s, Unlocking(Failed(Io))));
    hide Gets, Next;
  }

  // ----- such runs are histories

  /** Installer `pid` of this call is at `a`, in the state after a history. */
  ghost predicate IsAt(env: Env, history: seq<Action>, pid: nat, c: Call, a: At) {
    && IsHistory(env, history) && c.env == env
    && After(env, history).store == a.store
    && pid in After(env, history).installers
    && After(env, history).installers[pid] == Installer(c.bundle, c.publisher, a.phase)
  }

  lemma OneMoreStep(env: Env, history: seq<Action>, pid: nat, c: Call, a: At)
    requires IsAt(env, history, pid, c, a)
    ensures IsAt(env, history + [Step(pid, Proceed)], pid, c, Next(c, a))
  {
    hide StepOf;
    var longer := history + [Step(pid, Proceed)];
    assert longer[..|longer| - 1] == history;
    assert After(env, longer) == Perform(env, After(env, history), Step(pid, Proceed));
  }

  lemma {:induction false} Follows(env: Env, history: seq<Action>, pid: nat, c: Call, a: At, z: At, k: nat)
    returns (longer: seq<Action>)
    requires IsAt(env, history, pid, c, a) && Surely(c, a, z, k)
    ensures IsAt(env, longer, pid, c, z) && history <= longer
    decreases k
  {
    hide IsAt, Move;
    if a == z {
      longer := history;
    } else {
      OneMoreStep(env, history, pid, c, a);
      assert Smooth(c, a, Proceed);
      longer := Follows(env, history + [Step(pid, Proceed)], pid, c, Next(c, a), z, k - 1);
    }
  }

  lemma Begins(env: Env, c: Call, pid: nat)
    requires Genuine(env, c.bundle) && c.env == env
    ensures IsAt(env, [Begin(pid, c.bundle, c.publisher)], pid, c, At(EMPTY_WORLD.store, Requested))
  {
    hide Genuine;
    var first := [Begin(pid, c.bundle, c.publisher)];
    assert first[..0] == [];
    assert IsHistory(env, first[..0]) && After(env, first[..0]) == EMPTY_WORLD;
  }

  /** Every portable bundle is installed by some history of an empty store, with a receipt and a recorded root. */
  lemma SomeHistoryInstalls(c: Call, pid: nat) returns (history: seq<Action>)
    requires Genuine(c.env, c.bundle) && Portable(c.bundle) && PublisherFits(c)
    requires RecordBytes(c.env, c.bundle, c.publisher).Success?
    ensures IsHistory(c.env, history)
    ensures var w := After(c.env, history);
            && pid in w.installers && w.installers[pid] == Installer(c.bundle, c.publisher, Finished(Installed(false)))
            && w.store.locks == {} && w.store.staging == map[] && w.store.roots.Keys == {c.bundle.subject}
            && Recorded(c.env, w.store.roots[c.bundle.subject], c.bundle, c.publisher)
  {
    hide Genuine, Portable, RecordBytes, Surely, Recorded, HoldsBundle;
    var a := At(EMPTY_WORLD.store, Requested);
    Begins(c.env, c, pid);
    assert FirstFree(c, EMPTY_WORLD.store, 0);
    var root := FreshInstallSucceeds(c, EMPTY_WORLD.store, 0);
    var z := At(Published(c, EMPTY_WORLD.store, root), Finished(Installed(false)));
    var k: nat :| Surely(c, a, z, k);
    history := Follows(c.env, [Begin(pid, c.bundle, c.publisher)], pid, c, a, z, k);
  }

  // ----- such bundles exist

  function SingleFile(env: Env, subject: Text, path: Text, bytes: Text): VerifiedBundle {
    VerifiedBundle(subject, path, [VerifiedFile(path, bytes, env.hash(bytes))])
  }

  lemma OneRecord(env: Env, subject: Text, path: Text, bytes: Text)
    requires |bytes| <= MAX_BUNDLE_FILE_BYTES && ValidPath(path)
    ensures Genuine(env, SingleFile(env, subject, path, bytes))
    ensures Paths(ManifestOf(SingleFile(env, subject, path, bytes))) == {path}
  {
    hide ValidPath;
    var b := SingleFile(env, subject, path, bytes);
    var records := RecordsOf(b);
    assert records == [BundleFile(path, |bytes|, env.hash(bytes))];
    assert records[1..] == [];
    forall p
      ensures p in FilePaths(records) <==> p == path
    {
      assert records[0].path == path;
    }
    assert TotalLength(records) == |bytes|;
    hide Normalize;
    NormalizeIsIdempotent(ManifestOf(b), DEFAULT_LIMITS);
  }

  /** Every bundle of one plainly named file is genuine and portable. */
  lemma SingleFileIsPortable(env: Env, subject: Text, path: Text, bytes: Text)
    requires |bytes| <= MAX_BUNDLE_FILE_BYTES && ValidPath(path) && SLASH !in path && !IsReserved(path)
    ensures Genuine(env, SingleFile(env, subject, path, bytes)) && Portable(SingleFile(env, subject, path, bytes))
  {
    hide ValidPath, Genuine, IsReserved, LowerCase;
    var b := SingleFile(env, subject, path, bytes);
    OneRecord(env, subject, path, bytes);
    SplitWithoutSlash(path);
    assert Ancestors(path) == {};
    assert AncestorsOfAll({path}) == {};
    assert BundleNodes(b) == {path};
    hide Split;
  }
}
