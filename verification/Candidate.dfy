/** Exact verification of candidate files against a bundle manifest. */
module Candidate {
  import opened Bytes
  import opened Sorting
  import opened Distribution

  datatype CandidateFile = CandidateFile(path: Text, bytes: Text)

  datatype VerifiedFile = VerifiedFile(path: Text, bytes: Text, digest: Text)

  datatype VerifiedBundle = VerifiedBundle(subject: Text, entryPoint: Text, files: seq<VerifiedFile>)

  datatype CandidateError =
    | SubjectMismatch
    | TooManyCandidates
    | CandidateTooLarge(path: Text)
    | CandidatesTooLarge
    | DuplicateCandidate(path: Text)
    | MissingFile(path: Text)
    | UndeclaredFile(path: Text)
    | LengthMismatch(path: Text, expected: nat, actual: nat)
    | DigestMismatch(path: Text)

  /** The content digest, SHA-256 in lower-case hexadecimal; any deterministic function will do. */
  type Digester = Text -> Text

  /** What `CandidateFile::new` lets through. */
  ghost predicate ValidCandidates(cs: seq<CandidateFile>) {
    forall c :: c in cs ==> |c.bytes| <= MAX_BUNDLE_FILE_BYTES
  }

  function CandidatePath(c: CandidateFile): seq<int> {
    c.path
  }

  /** The manifest record a candidate file would match. */
  function Describe(c: CandidateFile, hash: Digester): BundleFile {
    BundleFile(c.path, |c.bytes|, hash(c.bytes))
  }

  function DescribeAll(cs: seq<CandidateFile>, hash: Digester): (d: seq<BundleFile>)
    ensures |d| == |cs|
    ensures forall i :: 0 <= i < |cs| ==> d[i] == Describe(cs[i], hash)
  {
    seq(|cs|, i requires 0 <= i < |cs| => Describe(cs[i], hash))
  }

  function TotalBytes(cs: seq<CandidateFile>): nat {
    if cs == [] then 0 else |cs[0].bytes| + TotalBytes(cs[1..])
  }

  // ----- the algorithm, as functions

  function SizeFailure(cs: seq<CandidateFile>, aggregate: nat): Option<CandidateError> {
    if cs == [] then None
    else if |cs[0].bytes| > MAX_BUNDLE_FILE_BYTES then Some(CandidateTooLarge(cs[0].path))
    else if aggregate + |cs[0].bytes| > MAX_BUNDLE_EXPANDED_BYTES then Some(CandidatesTooLarge)
    else SizeFailure(cs[1..], aggregate + |cs[0].bytes|)
  }

  /** The first path of a key listing that its right neighbour repeats. */
  function FirstRepeat(keys: seq<seq<int>>): Option<nat> {
    if |keys| < 2 then None
    else if keys[0] == keys[1] then Some(0)
    else match FirstRepeat(keys[1..]) case None => None case Some(i) => Some(i + 1)
  }

  lemma {:induction false} FirstRepeatFinds(keys: seq<seq<int>>)
    ensures match FirstRepeat(keys)
            case None => forall i :: 0 <= i < |keys| - 1 ==> keys[i] != keys[i + 1]
            case Some(k) =>
              && k < |keys| - 1 && keys[k] == keys[k + 1]
              && forall i :: 0 <= i < k ==> keys[i] != keys[i + 1]
  {
    if |keys| >= 2 && keys[0] != keys[1] {
      FirstRepeatFinds(keys[1..]);
      var rest := keys[1..];
      match FirstRepeat(rest)
      case None =>
        forall i | 0 <= i < |keys| - 1
          ensures keys[i] != keys[i + 1]
        {
          if i > 0 {
            assert rest[i - 1] != rest[i];
          }
        }
      case Some(k) =>
        forall i | 0 <= i < k + 1
          ensures keys[i] != keys[i + 1]
        {
          if i > 0 {
            assert rest[i - 1] != rest[i];
          }
        }
    }
  }

  /** The lock-step walk over the manifest and the sorted candidates. */
  function Merge(declared: seq<BundleFile>, candidates: seq<BundleFile>): Option<CandidateError>
    decreases |declared| + |candidates|
  {
    if declared == [] then
      if candidates == [] then None else Some(UndeclaredFile(candidates[0].path))
    else if candidates == [] then Some(MissingFile(declared[0].path))
    else if Before(candidates[0].path, declared[0].path) then Some(UndeclaredFile(candidates[0].path))
    else if candidates[0].path != declared[0].path then Some(MissingFile(declared[0].path))
    else if candidates[0].byteLength != declared[0].byteLength then
      Some(LengthMismatch(declared[0].path, declared[0].byteLength, candidates[0].byteLength))
    else if candidates[0].digest != declared[0].digest then Some(DigestMismatch(declared[0].path))
    else Merge(declared[1..], candidates[1..])
  }

  function Seal(declared: seq<BundleFile>, cs: seq<CandidateFile>): (v: seq<VerifiedFile>)
    requires |declared| == |cs|
    ensures |v| == |cs|
    ensures forall i :: 0 <= i < |v| ==> v[i] == VerifiedFile(cs[i].path, cs[i].bytes, declared[i].digest)
  {
    seq(|cs|, i requires 0 <= i < |cs| => VerifiedFile(cs[i].path, cs[i].bytes, declared[i].digest))
  }

  lemma {:induction false} MergeNoneMeansEqual(declared: seq<BundleFile>, candidates: seq<BundleFile>)
    ensures Merge(declared, candidates).None? <==> declared == candidates
    decreases |declared| + |candidates|
  {
    if declared != [] && candidates != [] {
      BeforeIrreflexive(declared[0].path);
      assert declared == [declared[0]] + declared[1..] && candidates == [candidates[0]] + candidates[1..];
      MergeNoneMeansEqual(declared[1..], candidates[1..]);
    }
  }

  function Verify(hash: Digester, m: BundleManifest, manifestSubject: Text, expectedSubject: Text,
                  cs: seq<CandidateFile>): Result<VerifiedBundle, CandidateError>
  {
    var sorted := SortBy(cs, CandidatePath);
    var repeat := FirstRepeat(Keys(sorted, CandidatePath));
    var difference := Merge(m.files, DescribeAll(sorted, hash));
    if manifestSubject != expectedSubject then Failure(SubjectMismatch)
    else if |cs| > MAX_BUNDLE_FILES then Failure(TooManyCandidates)
    else if SizeFailure(cs, 0).Some? then Failure(SizeFailure(cs, 0).value)
    else if repeat.Some? then
      FirstRepeatFinds(Keys(sorted, CandidatePath));
      Failure(DuplicateCandidate(sorted[repeat.value].path))
    else if difference.Some? then Failure(difference.value)
    else
      MergeNoneMeansEqual(m.files, DescribeAll(sorted, hash));
      Success(VerifiedBundle(manifestSubject, m.entryPoint, Seal(m.files, sorted)))
  }

  // ----- the imperative form

  /** The checked running total over the candidates as delivered. */
  method MeasureCandidates(candidates: seq<CandidateFile>) returns (failure: Option<CandidateError>)
    ensures failure == SizeFailure(candidates, 0)
  {
    var aggregate: nat := 0;
    var i := 0;
    while i < |candidates|
      invariant 0 <= i <= |candidates| && aggregate <= MAX_BUNDLE_EXPANDED_BYTES
      invariant SizeFailure(candidates, 0) == SizeFailure(candidates[i..], aggregate)
    {
      var byteLength := |candidates[i].bytes|;
      if byteLength > MAX_BUNDLE_FILE_BYTES {
        return Some(CandidateTooLarge(candidates[i].path));
      }
      // The checked addition cannot leave the 64-bit range here.
      assert aggregate + byteLength <= U64_MAX;
      aggregate := aggregate + byteLength;
      if aggregate > MAX_BUNDLE_EXPANDED_BYTES {
        return Some(CandidatesTooLarge);
      }
      i := i + 1;
    }
    assert candidates[i..] == [];
    return None;
  }

  /** The adjacent-pair scan over the sorted candidates. */
  method FindDuplicate(sorted: seq<CandidateFile>) returns (index: Option<nat>)
    ensures index == FirstRepeat(Keys(sorted, CandidatePath))
  {
    ghost var keys := Keys(sorted, CandidatePath);
    FirstRepeatFinds(keys);
    var w := 0;
    while w + 1 < |sorted|
      invariant 0 <= w <= |sorted|
      invariant forall j :: 0 <= j < w && j + 1 < |sorted| ==> keys[j] != keys[j + 1]
    {
      if sorted[w].path == sorted[w + 1].path {
        return Some(w);
      }
      w := w + 1;
    }
    return None;
  }

  /** The two-index walk; the indices move together, so both lists end together or one is short. */
  method CompareRecords(hash: Digester, declared: seq<BundleFile>, candidates: seq<CandidateFile>)
    returns (failure: Option<CandidateError>)
    ensures failure == Merge(declared, DescribeAll(candidates, hash))
  {
    ghost var described := DescribeAll(candidates, hash);
    var manifestIndex, candidateIndex := 0, 0;
    while manifestIndex < |declared| && candidateIndex < |candidates|
      invariant 0 <= manifestIndex == candidateIndex
      invariant manifestIndex <= |declared| && candidateIndex <= |candidates|
      invariant Merge(declared, described) == Merge(declared[manifestIndex..], described[candidateIndex..])
    {
      var expected, candidate := declared[manifestIndex], candidates[candidateIndex];
      assert described[candidateIndex] == Describe(candidate, hash);
      if Before(candidate.path, expected.path) {
        return Some(UndeclaredFile(candidate.path));
      } else if candidate.path != expected.path {
        return Some(MissingFile(expected.path));
      }
      var actualLength := |candidate.bytes|;
      if actualLength != expected.byteLength {
        return Some(LengthMismatch(expected.path, expected.byteLength, actualLength));
      }
      if hash(candidate.bytes) != expected.digest {
        return Some(DigestMismatch(expected.path));
      }
      manifestIndex := manifestIndex + 1;
      candidateIndex := candidateIndex + 1;
    }
    if manifestIndex < |declared| {
      return Some(MissingFile(declared[manifestIndex].path));
    }
    if candidateIndex < |candidates| {
      return Some(UndeclaredFile(candidates[candidateIndex].path));
    }
    return None;
  }

  /** `verify_candidate`: measure, sort in place, scan for duplicates, walk, and seal. */
  method VerifyCandidate(hash: Digester, m: BundleManifest, manifestSubject: Text, expectedSubject: Text,
                         files: seq<CandidateFile>) returns (r: Result<VerifiedBundle, CandidateError>)
    ensures r == Verify(hash, m, manifestSubject, expectedSubject, files)
  {
    var candidates := files;
    if manifestSubject != expectedSubject {
      return Failure(SubjectMismatch);
    }
    if |candidates| > MAX_BUNDLE_FILES {
      return Failure(TooManyCandidates);
    }
    var size := MeasureCandidates(candidates);
    if size.Some? {
      return Failure(size.value);
    }
    candidates := SortBy(candidates, CandidatePath);
    var repeat := FindDuplicate(candidates);
    FirstRepeatFinds(Keys(candidates, CandidatePath));
    if repeat.Some? {
      return Failure(DuplicateCandidate(candidates[repeat.value].path));
    }
    var difference := CompareRecords(hash, m.files, candidates);
    MergeNoneMeansEqual(m.files, DescribeAll(candidates, hash));
    if difference.Some? {
      return Failure(difference.value);
    }
    var verified: seq<VerifiedFile> := [];
    for k := 0 to |candidates|
      invariant verified == Seal(m.files, candidates)[..k]
    {
      verified := verified + [VerifiedFile(candidates[k].path, candidates[k].bytes, m.files[k].digest)];
    }
    assert verified == Seal(m.files, candidates);
    return Success(VerifiedBundle(manifestSubject, m.entryPoint, verified));
  }

  // ----- what the outcome means

  /** Subjects agree and the candidate set is within the hard limits. */
  ghost predicate WithinLimits(manifestSubject: Text, expectedSubject: Text, cs: seq<CandidateFile>) {
    manifestSubject == expectedSubject && |cs| <= MAX_BUNDLE_FILES && TotalBytes(cs) <= MAX_BUNDLE_EXPANDED_BYTES
  }

  /** The candidate files are exactly the declared ones, in lengths and digests. */
  ghost predicate SameRecords(hash: Digester, m: BundleManifest, cs: seq<CandidateFile>) {
    forall f :: f in m.files <==> f in DescribeAll(cs, hash)
  }

  /** The two listings disagree about `p`: one has a record for it the other lacks. */
  ghost predicate DiffersAt(a: seq<BundleFile>, b: seq<BundleFile>, p: Text) {
    exists f: BundleFile :: f.path == p && (f in a) != (f in b)
  }

  /** `e` reports the disagreement at its path for the reason it states. */
  ghost predicate Reports(e: CandidateError, declared: seq<BundleFile>, candidates: seq<BundleFile>) {
    match e
    case MissingFile(p) => p in FilePaths(declared) && p !in FilePaths(candidates)
    case UndeclaredFile(p) => p !in FilePaths(declared) && p in FilePaths(candidates)
    case LengthMismatch(p, expected, actual) =>
      && expected != actual
      && (exists f :: f in declared && f.path == p && f.byteLength == expected)
      && (exists f :: f in candidates && f.path == p && f.byteLength == actual)
    case DigestMismatch(p) =>
      exists f, g :: f in declared && g in candidates && f.path == g.path == p
                     && f.byteLength == g.byteLength && f.digest != g.digest
    case _ => false
  }

  ghost predicate IsLeastDifference(p: Text, a: seq<BundleFile>, b: seq<BundleFile>) {
    DiffersAt(a, b, p) && forall q: Text :: Before(q, p) ==> !DiffersAt(a, b, q)
  }

  ghost predicate HasPath(e: CandidateError) {
    e.MissingFile? || e.UndeclaredFile? || e.LengthMismatch? || e.DigestMismatch?
  }

  lemma HeadIsLeast(s: seq<BundleFile>, q: Text)
    requires StrictlyOrdered(s, FilePath) && s != [] && q in FilePaths(s)
    ensures q == s[0].path || Before(s[0].path, q)
  {
    var i :| 0 <= i < |s| && s[i].path == q;
    if i > 0 {
      assert Before(FilePath(s[0]), FilePath(s[i]));
    }
  }

  lemma MemberPath(s: seq<BundleFile>, f: BundleFile)
    requires f in s
    ensures f.path in FilePaths(s)
  {
  }

  lemma PathMember(s: seq<BundleFile>, p: Text)
    requires p in FilePaths(s)
    ensures exists f :: f in s && f.path == p
  {
    var i :| 0 <= i < |s| && s[i].path == p;
    assert s[i] in s;
  }

  /** Below both heads the listings have nothing, so they cannot differ there. */
  lemma NothingBelow(a: seq<BundleFile>, b: seq<BundleFile>, q: Text)
    requires StrictlyOrdered(a, FilePath) && StrictlyOrdered(b, FilePath)
    requires a != [] ==> Before(q, a[0].path)
    requires b != [] ==> Before(q, b[0].path)
    ensures !DiffersAt(a, b, q)
  {
    if a != [] {
      BeforeAsymmetric(q, a[0].path);
    }
    if b != [] {
      BeforeAsymmetric(q, b[0].path);
    }
    forall f: BundleFile | f.path == q
      ensures f !in a && f !in b
    {
      if f in a {
        MemberPath(a, f);
        HeadIsLeast(a, q);
      }
      if f in b {
        MemberPath(b, f);
        HeadIsLeast(b, q);
      }
    }
  }

  /** The head of one listing that the other cannot contain is the least difference. */
  lemma OneSidedHead(a: seq<BundleFile>, b: seq<BundleFile>)
    requires StrictlyOrdered(a, FilePath) && StrictlyOrdered(b, FilePath)
    requires a != [] && (b != [] ==> Before(a[0].path, b[0].path))
    ensures a[0].path in FilePaths(a) && a[0].path !in FilePaths(b)
    ensures IsLeastDifference(a[0].path, a, b) && IsLeastDifference(a[0].path, b, a)
  {
    var p := a[0].path;
    if p in FilePaths(b) {
      HeadIsLeast(b, p);
      BeforeAsymmetric(p, b[0].path);
    }
    if a[0] in b {
      MemberPath(b, a[0]);
    }
    assert DiffersAt(a, b, p) && DiffersAt(b, a, p);
    forall q: Text | Before(q, p)
      ensures !DiffersAt(a, b, q) && !DiffersAt(b, a, q)
    {
      if b != [] {
        BeforeTransitive(q, p, b[0].path);
      }
      NothingBelow(a, b, q);
    }
  }

  lemma SharedHead(a: seq<BundleFile>, b: seq<BundleFile>)
    requires StrictlyOrdered(a, FilePath) && StrictlyOrdered(b, FilePath)
    requires a != [] && b != [] && a[0].path == b[0].path && a[0] != b[0]
    ensures IsLeastDifference(a[0].path, a, b)
  {
    var p := a[0].path;
    if a[0] in b {
      var i :| 0 <= i < |b| && b[i] == a[0];
      assert i > 0;
      BeforeAsymmetric(FilePath(b[0]), FilePath(b[i]));
    }
    assert DiffersAt(a, b, p);
    forall q: Text | Before(q, p)
      ensures !DiffersAt(a, b, q)
    {
      NothingBelow(a, b, q);
    }
  }

  lemma HeadIsApart(s: seq<BundleFile>)
    requires StrictlyOrdered(s, FilePath) && s != []
    ensures s[0] !in s[1..] && forall f: BundleFile :: f in s <==> f == s[0] || f in s[1..]
  {
    StrictIsDistinct(s, FilePath);
    assert s == [s[0]] + s[1..];
  }

  lemma EqualHead(a: seq<BundleFile>, b: seq<BundleFile>, q: Text)
    requires StrictlyOrdered(a, FilePath) && StrictlyOrdered(b, FilePath)
    requires a != [] && b != [] && a[0] == b[0]
    ensures DiffersAt(a, b, q) <==> DiffersAt(a[1..], b[1..], q)
    ensures a[0] !in a[1..] && b[0] !in b[1..]
  {
    HeadIsApart(a);
    HeadIsApart(b);
    hide StrictlyOrdered;
    if DiffersAt(a, b, q) {
      var f: BundleFile :| f.path == q && (f in a) != (f in b);
      assert (f in a[1..]) != (f in b[1..]);
    }
    if DiffersAt(a[1..], b[1..], q) {
      var f: BundleFile :| f.path == q && (f in a[1..]) != (f in b[1..]);
      assert (f in a) != (f in b);
    }
  }

  lemma TailPaths(s: seq<BundleFile>, p: Text)
    requires StrictlyOrdered(s, FilePath) && s != [] && p != s[0].path
    ensures p in FilePaths(s) <==> p in FilePaths(s[1..])
  {
    if p in FilePaths(s) {
      var i :| 0 <= i < |s| && s[i].path == p;
      assert s[1..][i - 1].path == p;
    }
    if p in FilePaths(s[1..]) {
      var i :| 0 <= i < |s[1..]| && s[1..][i].path == p;
      assert s[i + 1].path == p;
    }
  }

  /** The walk stops at the least path the two listings disagree about, with the right reason. */
  lemma {:induction false} MergeReportsLeast(a: seq<BundleFile>, b: seq<BundleFile>)
    requires StrictlyOrdered(a, FilePath) && StrictlyOrdered(b, FilePath)
    ensures Merge(a, b).Some? ==>
              var e := Merge(a, b).value;
              HasPath(e) && Reports(e, a, b) && IsLeastDifference(e.path, a, b)
    decreases |a| + |b|
  {
    if a == [] {
      if b != [] {
        OneSidedHead(b, a);
      }
    } else if b == [] {
      OneSidedHead(a, b);
    } else if Before(b[0].path, a[0].path) {
      OneSidedHead(b, a);
    } else if b[0].path != a[0].path {
      BeforeTotal(a[0].path, b[0].path);
      OneSidedHead(a, b);
    } else if a[0] != b[0] {
      assert a[0] in a && b[0] in b;
      SharedHead(a, b);
    } else {
      MergeReportsLeast(a[1..], b[1..]);
      if Merge(a, b).Some? {
        var e := Merge(a, b).value;
        forall q
          ensures DiffersAt(a, b, q) <==> DiffersAt(a[1..], b[1..], q)
        {
          EqualHead(a, b, q);
        }
        DifferenceIsInTail(a, b, e.path);
        TailPaths(a, e.path);
        TailPaths(b, e.path);
        TailMembers(a);
        TailMembers(b);
      }
    }
  }

  lemma DifferenceIsInTail(a: seq<BundleFile>, b: seq<BundleFile>, path: Text)
    requires StrictlyOrdered(a, FilePath) && StrictlyOrdered(b, FilePath) && a != [] && b != [] && a[0] == b[0]
    requires DiffersAt(a[1..], b[1..], path)
    ensures path != a[0].path
  {
    var f: BundleFile :| f.path == path && (f in a[1..]) != (f in b[1..]);
    StrictIsDistinct(a, FilePath);
    StrictIsDistinct(b, FilePath);
    if f in a[1..] {
      var i :| 0 <= i < |a[1..]| && a[1..][i] == f;
      assert FilePath(a[0]) != FilePath(a[i + 1]);
    } else {
      var i :| 0 <= i < |b[1..]| && b[1..][i] == f;
      assert FilePath(b[0]) != FilePath(b[i + 1]);
    }
  }

  lemma TailMembers(s: seq<BundleFile>)
    requires s != []
    ensures forall f :: f in s[1..] ==> f in s
  {
  }

  lemma {:induction false} CandidateSizesFit(cs: seq<CandidateFile>, aggregate: nat)
    requires ValidCandidates(cs) && aggregate <= MAX_BUNDLE_EXPANDED_BYTES
    ensures SizeFailure(cs, aggregate) ==
            if aggregate + TotalBytes(cs) <= MAX_BUNDLE_EXPANDED_BYTES then None else Some(CandidatesTooLarge)
  {
    if cs != [] {
      assert cs[0] in cs;
      if aggregate + |cs[0].bytes| <= MAX_BUNDLE_EXPANDED_BYTES {
        CandidateSizesFit(cs[1..], aggregate + |cs[0].bytes|);
      }
    }
  }

  lemma {:induction false} BytesOfConcat(a: seq<CandidateFile>, b: seq<CandidateFile>)
    ensures TotalBytes(a + b) == TotalBytes(a) + TotalBytes(b)
  {
    if a == [] {
      assert a + b == b;
    } else {
      assert (a + b)[1..] == a[1..] + b;
      BytesOfConcat(a[1..], b);
    }
  }

  lemma {:induction false} BytesPermute(a: seq<CandidateFile>, b: seq<CandidateFile>)
    requires multiset(a) == multiset(b)
    ensures TotalBytes(a) == TotalBytes(b)
  {
    SameLength(a, b);
    if a != [] {
      var k := MatchHead(a, b);
      BytesPermute(a[1..], b[..k] + b[k + 1..]);
      BytesOfConcat(b[..k], b[k + 1..]);
      BytesOfConcat(b[..k], [a[0]] + b[k + 1..]);
      assert b == b[..k] + ([a[0]] + b[k + 1..]);
    }
  }

  lemma RepeatMeansDuplicate(cs: seq<CandidateFile>)
    ensures FirstRepeat(Keys(SortBy(cs, CandidatePath), CandidatePath)).None? <==> DistinctKeys(cs, CandidatePath)
    ensures FirstRepeat(Keys(SortBy(cs, CandidatePath), CandidatePath)).None? ==>
              StrictlyOrdered(SortBy(cs, CandidatePath), CandidatePath)
    ensures |SortBy(cs, CandidatePath)| == |cs|
  {
    var sorted := SortBy(cs, CandidatePath);
    SortPermutes(cs, CandidatePath);
    SortOrders(cs, CandidatePath);
    FirstRepeatFinds(Keys(sorted, CandidatePath));
    if FirstRepeat(Keys(sorted, CandidatePath)).None? {
      forall i | 0 <= i < |sorted| - 1
        ensures CandidatePath(sorted[i]) != CandidatePath(sorted[i + 1])
      {
        assert Keys(sorted, CandidatePath)[i] != Keys(sorted, CandidatePath)[i + 1];
      }
      AdjacentTestSuffices(sorted, CandidatePath);
      StrictIsDistinct(sorted, CandidatePath);
      DistinctPermutes(sorted, cs, CandidatePath);
    } else if DistinctKeys(cs, CandidatePath) {
      DistinctPermutes(cs, sorted, CandidatePath);
      assert false;
    }
  }

  lemma SortedRecords(hash: Digester, m: BundleManifest, cs: seq<CandidateFile>)
    requires StrictlyOrdered(m.files, FilePath) && DistinctKeys(cs, CandidatePath)
    ensures StrictlyOrdered(DescribeAll(SortBy(cs, CandidatePath), hash), FilePath)
    ensures m.files == DescribeAll(SortBy(cs, CandidatePath), hash) <==> SameRecords(hash, m, cs)
  {
    var sorted := SortBy(cs, CandidatePath);
    var d := DescribeAll(sorted, hash);
    SortStrict(cs, CandidatePath);
    SortPermutes(cs, CandidatePath);
    SameElements(cs, sorted);
    forall i, j | 0 <= i < j < |d|
      ensures Before(FilePath(d[i]), FilePath(d[j]))
    {
      assert Before(CandidatePath(sorted[i]), CandidatePath(sorted[j]));
    }
    DescribePermutes(cs, sorted, hash);
    if SameRecords(hash, m, cs) {
      StrictListingUnique(m.files, d, FilePath);
    }
  }

  lemma DescribePermutes(a: seq<CandidateFile>, b: seq<CandidateFile>, hash: Digester)
    requires forall x :: x in a <==> x in b
    ensures forall f :: f in DescribeAll(a, hash) <==> f in DescribeAll(b, hash)
  {
    forall f
      ensures f in DescribeAll(a, hash) <==> f in DescribeAll(b, hash)
    {
      if f in DescribeAll(a, hash) {
        var i :| 0 <= i < |a| && DescribeAll(a, hash)[i] == f;
        assert a[i] in b;
        var j :| 0 <= j < |b| && b[j] == a[i];
        assert DescribeAll(b, hash)[j] == f;
      }
      if f in DescribeAll(b, hash) {
        var i :| 0 <= i < |b| && DescribeAll(b, hash)[i] == f;
        assert b[i] in a;
        var j :| 0 <= j < |a| && a[j] == b[i];
        assert DescribeAll(a, hash)[j] == f;
      }
    }
  }

  /**
   Acceptance is exactly: subjects agree, limits hold, no path twice, and the
   candidate records are the manifest's records.
   */
  lemma VerifyAcceptsExactly(hash: Digester, m: BundleManifest, ms: Text, es: Text, cs: seq<CandidateFile>)
    requires StrictlyOrdered(m.files, FilePath) && ValidCandidates(cs)
    ensures Verify(hash, m, ms, es, cs).Success? <==>
            WithinLimits(ms, es, cs) && DistinctKeys(cs, CandidatePath) && SameRecords(hash, m, cs)
    ensures Verify(hash, m, ms, es, cs).Success? ==>
              var b := Verify(hash, m, ms, es, cs).value;
              && b.subject == ms && b.entryPoint == m.entryPoint
              && |b.files| == |m.files|
              && forall i :: 0 <= i < |b.files| ==>
                   && CandidateFile(b.files[i].path, b.files[i].bytes) in cs
                   && m.files[i] == BundleFile(b.files[i].path, |b.files[i].bytes|, b.files[i].digest)
                   && b.files[i].digest == hash(b.files[i].bytes)
  {
    var sorted := SortBy(cs, CandidatePath);
    var d := DescribeAll(sorted, hash);
    CandidateSizesFit(cs, 0);
    RepeatMeansDuplicate(cs);
    FirstRepeatFinds(Keys(sorted, CandidatePath));
    if DistinctKeys(cs, CandidatePath) {
      SortedRecords(hash, m, cs);
      MergeNoneMeansEqual(m.files, d);
      SortPermutes(cs, CandidatePath);
      SameElements(cs, sorted);
      if m.files == d {
        forall i | 0 <= i < |sorted|
          ensures sorted[i] in cs && m.files[i] == Describe(sorted[i], hash)
        {
          assert sorted[i] in sorted;
        }
      }
    }
  }

  /**
   Once subjects and limits agree and paths are distinct, any failure names the
   least path where the candidate records differ from the manifest's.
   */
  lemma VerifyNamesLeastDifference(hash: Digester, m: BundleManifest, ms: Text, es: Text, cs: seq<CandidateFile>)
    requires StrictlyOrdered(m.files, FilePath) && ValidCandidates(cs)
    requires WithinLimits(ms, es, cs) && DistinctKeys(cs, CandidatePath)
    ensures Verify(hash, m, ms, es, cs).Failure? ==>
              var e := Verify(hash, m, ms, es, cs).error;
              && HasPath(e)
              && Reports(e, m.files, DescribeAll(cs, hash))
              && IsLeastDifference(e.path, m.files, DescribeAll(cs, hash))
  {
    var sorted := SortBy(cs, CandidatePath);
    var d, given := DescribeAll(sorted, hash), DescribeAll(cs, hash);
    CandidateSizesFit(cs, 0);
    RepeatMeansDuplicate(cs);
    SortedRecords(hash, m, cs);
    MergeNoneMeansEqual(m.files, d);
    MergeReportsLeast(m.files, d);
    SortPermutes(cs, CandidatePath);
    SameElements(cs, sorted);
    DescribePermutes(cs, sorted, hash);
    PathsFollowMembers(d, given);
    if Verify(hash, m, ms, es, cs).Failure? {
      var e := Verify(hash, m, ms, es, cs).error;
      assert Merge(m.files, d) == Some(e);
      forall q
        ensures DiffersAt(m.files, d, q) <==> DiffersAt(m.files, given, q)
      {
        if DiffersAt(m.files, d, q) {
          DifferenceFollowsMembers(m.files, d, given, q);
        } else if DiffersAt(m.files, given, q) {
          DifferenceFollowsMembers(m.files, given, d, q);
        }
      }
    }
  }

  lemma DifferenceFollowsMembers(a: seq<BundleFile>, b: seq<BundleFile>, c: seq<BundleFile>, q: Text)
    requires forall f :: f in b <==> f in c
    requires DiffersAt(a, b, q)
    ensures DiffersAt(a, c, q)
  {
    var f: BundleFile :| f.path == q && (f in a) != (f in b);
    assert (f in a) != (f in c);
  }

  lemma PathsFollowMembers(a: seq<BundleFile>, b: seq<BundleFile>)
    requires forall f :: f in a <==> f in b
    ensures FilePaths(a) == FilePaths(b)
  {
    forall p
      ensures p in FilePaths(a) <==> p in FilePaths(b)
    {
      if p in FilePaths(a) {
        PathMember(a, p);
      }
      if p in FilePaths(b) {
        PathMember(b, p);
      }
    }
  }

  /** The order an adapter delivers candidates in never shows, in success or in any failure. */
  lemma VerifyIgnoresOrder(hash: Digester, m: BundleManifest, ms: Text, es: Text,
                           a: seq<CandidateFile>, b: seq<CandidateFile>)
    requires ValidCandidates(a) && multiset(a) == multiset(b)
    ensures Verify(hash, m, ms, es, a) == Verify(hash, m, ms, es, b)
  {
    SameElements(a, b);
    BytesPermute(a, b);
    CandidateSizesFit(a, 0);
    CandidateSizesFit(b, 0);
    assert |multiset(a)| == |a| && |multiset(b)| == |b|;
    RepeatMeansDuplicate(a);
    RepeatMeansDuplicate(b);
    SortedKeysCanonical(a, b, CandidatePath);
    var sa, sb := SortBy(a, CandidatePath), SortBy(b, CandidatePath);
    if DistinctKeys(a, CandidatePath) {
      SortCanonical(a, b, CandidatePath);
    } else {
      FirstRepeatFinds(Keys(sa, CandidatePath));
      var k := FirstRepeat(Keys(sa, CandidatePath)).value;
      assert Keys(sa, CandidatePath)[k] == Keys(sb, CandidatePath)[k];
      assert sa[k].path == sb[k].path;
    }
  }

  // ----- rebuilding the manifest from what was verified

  function RecordsOf(b: VerifiedBundle): (d: seq<BundleFile>)
    ensures |d| == |b.files|
    ensures forall i :: 0 <= i < |d| ==> d[i] == BundleFile(b.files[i].path, |b.files[i].bytes|, b.files[i].digest)
  {
    seq(|b.files|, i requires 0 <= i < |b.files| =>
      BundleFile(b.files[i].path, |b.files[i].bytes|, b.files[i].digest))
  }

  function ManifestFromVerified(b: VerifiedBundle): Result<BundleManifest, DistributionError> {
    Normalize(BUNDLE_FORMAT, SHA256_ALGORITHM, b.entryPoint, RecordsOf(b), DEFAULT_LIMITS)
  }

  /** A verified bundle carries its manifest back out unchanged. */
  lemma VerifiedBundleKeepsManifest(hash: Digester, m: BundleManifest, ms: Text, es: Text, cs: seq<CandidateFile>)
    requires ValidManifest(m, DEFAULT_LIMITS) && ValidCandidates(cs)
    requires Verify(hash, m, ms, es, cs).Success?
    ensures ManifestFromVerified(Verify(hash, m, ms, es, cs).value) == Success(m)
  {
    VerifyAcceptsExactly(hash, m, ms, es, cs);
    var b := Verify(hash, m, ms, es, cs).value;
    assert RecordsOf(b) == m.files;
    NormalizeIsIdempotent(m, DEFAULT_LIMITS);
  }
}
