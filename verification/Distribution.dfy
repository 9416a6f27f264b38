/** Bundle paths, digests and the normalised bundle manifest. */
module Distribution {
  import opened Bytes
  import opened Sorting

  const MAX_BUNDLE_FILES: nat := 512
  const MAX_BUNDLE_FILE_BYTES: nat := 1_048_576
  const MAX_BUNDLE_EXPANDED_BYTES: nat := 33_554_432
  const MAX_BUNDLE_PATH_BYTES: nat := 1_024

  const BUNDLE_FORMAT := Ascii("invokrum.pack-bundle/v1")
  const SHA256_ALGORITHM := Ascii("sha256")

  predicate IsControl(b: Byte) {
    b < 32 || b == 127
  }

  const DOT: Text := [46]
  const DOT_DOT: Text := [46, 46]

  /** `str::split('/')`: one more segment than separators. */
  function Split(t: Text): (segments: seq<Text>)
    ensures segments != []
  {
    if t == [] then [[]]
    else
      var rest := Split(t[1..]);
      if t[0] == SLASH then [[]] + rest else [[t[0]] + rest[0]] + rest[1..]
  }

  predicate ValidSegment(s: Text) {
    s != [] && s != DOT && s != DOT_DOT
  }

  /** What `BundlePath::parse` accepts. */
  predicate ValidPath(p: Text) {
    && p != []
    && |p| <= MAX_BUNDLE_PATH_BYTES
    && (forall b :: b in p ==> b < 128 && !IsControl(b) && b != 92 && b != 58)
    && p[0] != SLASH
    && p[|p| - 1] != SLASH
    && forall s :: s in Split(p) ==> ValidSegment(s)
  }

  predicate IsLowerHex(b: Byte) {
    48 <= b <= 57 || 97 <= b <= 102
  }

  /** What `Sha256Digest::parse` accepts. */
  predicate ValidDigest(d: Text) {
    |d| == 64 && forall b :: b in d ==> IsLowerHex(b)
  }

  // ----- ancestor directories

  /** `a` is a proper directory prefix of `p`: everything before one of its separators. */
  predicate IsAncestor(a: Text, p: Text) {
    |a| < |p| && p[|a|] == SLASH && p[..|a|] == a
  }

  function Ancestors(p: Text): (s: set<Text>)
    ensures forall a :: a in s <==> IsAncestor(a, p)
  {
    var s := set k | 0 <= k < |p| && p[k] == SLASH :: p[..k];
    assert forall a :: IsAncestor(a, p) ==> a == p[..|a|];
    s
  }

  function AncestorsOfAll(paths: set<Text>): (s: set<Text>)
    ensures forall a: Text :: a in s <==> exists p :: p in paths && a in Ancestors(p)
  {
    set p, a | p in paths && a in Ancestors(p) :: a
  }

  lemma AncestorsGrow(paths: set<Text>, p: Text)
    ensures AncestorsOfAll(paths + {p}) == AncestorsOfAll(paths) + Ancestors(p)
  {
    forall a: Text
      ensures a in AncestorsOfAll(paths + {p}) <==> a in AncestorsOfAll(paths) + Ancestors(p)
    {
      if a in AncestorsOfAll(paths + {p}) {
        var f :| f in paths + {p} && a in Ancestors(f);
      }
      if a in AncestorsOfAll(paths) {
        var f :| f in paths && a in Ancestors(f);
        assert f in paths + {p};
      }
      if a in Ancestors(p) {
        assert p in paths + {p};
      }
    }
  }

  lemma AncestorTransitive(a: Text, b: Text, c: Text)
    requires IsAncestor(a, b) && IsAncestor(b, c)
    ensures IsAncestor(a, c)
  {
    assert c[..|a|] == c[..|b|][..|a|];
  }

  lemma AncestorsAreChained(a: Text, b: Text, c: Text)
    requires IsAncestor(a, c) && IsAncestor(b, c) && |a| < |b|
    ensures IsAncestor(a, b)
  {
    assert b[..|a|] == c[..|a|];
  }

  lemma {:induction false} SplitAtSlash(a: Text, b: Text)
    ensures Split(a + [SLASH] + b) == Split(a) + Split(b)
  {
    var t := a + [SLASH] + b;
    if a == [] {
      assert t[1..] == b;
    } else {
      assert t[1..] == a[1..] + [SLASH] + b;
      SplitAtSlash(a[1..], b);
    }
  }

  /** The directories above an accepted path are accepted paths themselves. */
  lemma AncestorIsValidPath(a: Text, p: Text)
    requires ValidPath(p) && IsAncestor(a, p)
    ensures ValidPath(a)
  {
    var b := p[|a| + 1..];
    assert p == a + [SLASH] + b;
    SplitAtSlash(a, b);
    assert forall s :: s in Split(a) ==> s in Split(p);
    assert a != [] by {
      assert Split([])[0] == [];
    }
    assert forall x :: x in a ==> x in p;
    if a[|a| - 1] == SLASH {
      TrailingSlash(a);
    }
  }

  lemma TrailingSlash(a: Text)
    requires a != [] && a[|a| - 1] == SLASH
    ensures [] in Split(a)
  {
    var c := a[..|a| - 1];
    assert a == c + [SLASH] + [];
    SplitAtSlash(c, []);
    assert [] in Split([]);
  }

  // ----- manifests

  datatype BundleFile = BundleFile(path: Text, byteLength: nat, digest: Text)

  datatype BundleManifest = BundleManifest(entryPoint: Text, files: seq<BundleFile>)

  function FilePath(f: BundleFile): seq<int> {
    f.path
  }

  function FilePaths(files: seq<BundleFile>): set<Text> {
    set i | 0 <= i < |files| :: files[i].path
  }

  function Paths(m: BundleManifest): set<Text> {
    FilePaths(m.files)
  }

  function TotalLength(files: seq<BundleFile>): nat {
    if files == [] then 0 else files[0].byteLength + TotalLength(files[1..])
  }

  /** Host limits; `BundleLimits::new` clamps each one to the format maximum. */
  datatype BundleLimits = BundleLimits(maximumFiles: nat, maximumFileBytes: nat, maximumExpandedBytes: nat)

  function Clamp(value: nat, maximum: nat): nat {
    if value > maximum then maximum else value
  }

  function NewLimits(files: nat, fileBytes: nat, expandedBytes: nat): (l: BundleLimits)
    ensures l.maximumFiles <= MAX_BUNDLE_FILES
    ensures l.maximumFileBytes <= MAX_BUNDLE_FILE_BYTES
    ensures l.maximumExpandedBytes <= MAX_BUNDLE_EXPANDED_BYTES
    ensures l.maximumFiles <= files && l.maximumFileBytes <= fileBytes && l.maximumExpandedBytes <= expandedBytes
  {
    BundleLimits(Clamp(files, MAX_BUNDLE_FILES), Clamp(fileBytes, MAX_BUNDLE_FILE_BYTES),
                 Clamp(expandedBytes, MAX_BUNDLE_EXPANDED_BYTES))
  }

  const DEFAULT_LIMITS := NewLimits(MAX_BUNDLE_FILES, MAX_BUNDLE_FILE_BYTES, MAX_BUNDLE_EXPANDED_BYTES)

  ghost predicate ClampedLimits(l: BundleLimits) {
    && l.maximumFiles <= MAX_BUNDLE_FILES
    && l.maximumFileBytes <= MAX_BUNDLE_FILE_BYTES
    && l.maximumExpandedBytes <= MAX_BUNDLE_EXPANDED_BYTES
  }

  datatype DistributionError =
    | UnsupportedBundleFormat
    | UnsupportedDigestAlgorithm
    | EmptyBundle
    | TooManyFiles
    | DuplicatePath
    | FileTooLarge
    | BundleTooLarge
    | EntryPointMissing

  /** The invariant of every constructed manifest. */
  ghost predicate ValidManifest(m: BundleManifest, limits: BundleLimits) {
    && 0 < |m.files| <= limits.maximumFiles
    && StrictlyOrdered(m.files, FilePath)
    && (forall f :: f in m.files ==> f.byteLength <= limits.maximumFileBytes)
    && TotalLength(m.files) <= limits.maximumExpandedBytes
    && m.entryPoint in Paths(m)
  }

  /** A manifest file list the constructor can accept, said of the list as given. */
  ghost predicate AcceptableFiles(entryPoint: Text, files: seq<BundleFile>, limits: BundleLimits) {
    && 0 < |files| <= limits.maximumFiles
    && DistinctKeys(files, FilePath)
    && (forall f :: f in files ==> f.byteLength <= limits.maximumFileBytes)
    && TotalLength(files) <= limits.maximumExpandedBytes
    && entryPoint in FilePaths(files)
  }

  /** The size error the accumulation loop stops at, if any. */
  function SizeError(files: seq<BundleFile>, expanded: nat, limits: BundleLimits): Option<DistributionError> {
    if files == [] then None
    else if files[0].byteLength > limits.maximumFileBytes then Some(FileTooLarge)
    else if expanded + files[0].byteLength > limits.maximumExpandedBytes then Some(BundleTooLarge)
    else SizeError(files[1..], expanded + files[0].byteLength, limits)
  }

  function HasAdjacentDuplicate(files: seq<BundleFile>): bool {
    exists i :: 0 <= i < |files| - 1 && files[i].path == files[i + 1].path
  }

  /** What the constructor returns, as one expression. */
  function Normalize(format: Text, algorithm: Text, entryPoint: Text, files: seq<BundleFile>, limits: BundleLimits)
    : Result<BundleManifest, DistributionError>
  {
    var sorted := SortBy(files, FilePath);
    if format != BUNDLE_FORMAT then Failure(UnsupportedBundleFormat)
    else if algorithm != SHA256_ALGORITHM then Failure(UnsupportedDigestAlgorithm)
    else if files == [] then Failure(EmptyBundle)
    else if |files| > limits.maximumFiles then Failure(TooManyFiles)
    else if HasAdjacentDuplicate(sorted) then Failure(DuplicatePath)
    else if SizeError(sorted, 0, limits).Some? then Failure(SizeError(sorted, 0, limits).value)
    else if entryPoint !in FilePaths(sorted) then Failure(EntryPointMissing)
    else Success(BundleManifest(entryPoint, sorted))
  }

  /** `BundleManifest::new`: the sort, the adjacent test and the checked running total. */
  method NewManifest(format: Text, algorithm: Text, entryPoint: Text, files: seq<BundleFile>, limits: BundleLimits)
    returns (r: Result<BundleManifest, DistributionError>)
    requires ClampedLimits(limits)
    ensures r == Normalize(format, algorithm, entryPoint, files, limits)
  {
    if format != BUNDLE_FORMAT {
      return Failure(UnsupportedBundleFormat);
    }
    if algorithm != SHA256_ALGORITHM {
      return Failure(UnsupportedDigestAlgorithm);
    }
    if files == [] {
      return Failure(EmptyBundle);
    }
    if |files| > limits.maximumFiles {
      return Failure(TooManyFiles);
    }
    var sorted := SortBy(files, FilePath);
    if HasAdjacentDuplicate(sorted) {
      return Failure(DuplicatePath);
    }
    var expanded: nat := 0;
    var i := 0;
    while i < |sorted|
      invariant 0 <= i <= |sorted|
      invariant expanded <= limits.maximumExpandedBytes
      invariant SizeError(sorted, 0, limits) == SizeError(sorted[i..], expanded, limits)
    {
      if sorted[i].byteLength > limits.maximumFileBytes {
        return Failure(FileTooLarge);
      }
      // The checked addition: it cannot leave the 64-bit range here.
      assert expanded + sorted[i].byteLength <= U64_MAX;
      expanded := expanded + sorted[i].byteLength;
      if expanded > limits.maximumExpandedBytes {
        return Failure(BundleTooLarge);
      }
      i := i + 1;
    }
    assert sorted[i..] == [];
    if entryPoint !in FilePaths(sorted) {
      return Failure(EntryPointMissing);
    }
    return Success(BundleManifest(entryPoint, sorted));
  }

  lemma {:induction false} TotalOfConcat(a: seq<BundleFile>, b: seq<BundleFile>)
    ensures TotalLength(a + b) == TotalLength(a) + TotalLength(b)
  {
    if a == [] {
      assert a + b == b;
    } else {
      assert (a + b)[1..] == a[1..] + b;
      TotalOfConcat(a[1..], b);
    }
  }

  lemma {:induction false} TotalPermutes(a: seq<BundleFile>, b: seq<BundleFile>)
    requires multiset(a) == multiset(b)
    ensures TotalLength(a) == TotalLength(b)
  {
    SameLength(a, b);
    if a != [] {
      var k := MatchHead(a, b);
      TotalPermutes(a[1..], b[..k] + b[k + 1..]);
      TotalOfConcat(b[..k], b[k + 1..]);
      TotalOfConcat(b[..k], [a[0]] + b[k + 1..]);
      assert b == b[..k] + ([a[0]] + b[k + 1..]);
    }
  }

  lemma {:induction false} SizesFit(files: seq<BundleFile>, expanded: nat, limits: BundleLimits)
    requires expanded <= limits.maximumExpandedBytes
    ensures SizeError(files, expanded, limits).None? <==>
            && (forall f :: f in files ==> f.byteLength <= limits.maximumFileBytes)
            && expanded + TotalLength(files) <= limits.maximumExpandedBytes
  {
    if files != [] {
      var f := files[0];
      assert files == [f] + files[1..];
      if f.byteLength <= limits.maximumFileBytes && expanded + f.byteLength <= limits.maximumExpandedBytes {
        SizesFit(files[1..], expanded + f.byteLength, limits);
      }
    }
  }

  /** Construction succeeds exactly on acceptable lists, and then keeps every file, in path order. */
  lemma NormalizeAccepts(format: Text, algorithm: Text, entryPoint: Text, files: seq<BundleFile>, limits: BundleLimits)
    ensures Normalize(format, algorithm, entryPoint, files, limits).Success? <==>
            format == BUNDLE_FORMAT && algorithm == SHA256_ALGORITHM && AcceptableFiles(entryPoint, files, limits)
    ensures Normalize(format, algorithm, entryPoint, files, limits).Success? ==>
              var m := Normalize(format, algorithm, entryPoint, files, limits).value;
              ValidManifest(m, limits) && multiset(m.files) == multiset(files) && m.entryPoint == entryPoint
  {
    hide SortBy, DistinctKeys, Ordered, StrictlyOrdered;
    var sorted := SortBy(files, FilePath);
    SortPermutes(files, FilePath);
    SortOrders(files, FilePath);
    SameElements(files, sorted);
    TotalPermutes(files, sorted);
    SizesFit(sorted, 0, limits);
    PathsPermute(files, sorted);
    AdjacentTestDecides(files);
  }

  /** After the sort, looking at neighbours finds every repeated path. */
  lemma AdjacentTestDecides(files: seq<BundleFile>)
    ensures HasAdjacentDuplicate(SortBy(files, FilePath)) <==> !DistinctKeys(files, FilePath)
    ensures DistinctKeys(files, FilePath) ==> StrictlyOrdered(SortBy(files, FilePath), FilePath)
  {
    hide SortBy, DistinctKeys, Ordered, StrictlyOrdered;
    var sorted := SortBy(files, FilePath);
    SortPermutes(files, FilePath);
    SortOrders(files, FilePath);
    if HasAdjacentDuplicate(sorted) {
      if DistinctKeys(files, FilePath) {
        SortStrict(files, FilePath);
        StrictIsDistinct(sorted, FilePath);
        assert false;
      }
    } else {
      AdjacentTestSuffices(sorted, FilePath);
      StrictIsDistinct(sorted, FilePath);
      DistinctPermutes(sorted, files, FilePath);
    }
  }

  lemma PathsPermute(a: seq<BundleFile>, b: seq<BundleFile>)
    requires multiset(a) == multiset(b)
    ensures FilePaths(a) == FilePaths(b)
  {
    SameElements(a, b);
    forall p
      ensures p in FilePaths(a) <==> p in FilePaths(b)
    {
      if p in FilePaths(a) {
        var i :| 0 <= i < |a| && a[i].path == p;
        assert a[i] in b;
      }
      if p in FilePaths(b) {
        var i :| 0 <= i < |b| && b[i].path == p;
        assert b[i] in a;
      }
    }
  }

  /** Declaration order is forgotten: permuted lists give the same manifest or the same error. */
  lemma NormalizeIsCanonical(format: Text, algorithm: Text, entryPoint: Text, a: seq<BundleFile>, b: seq<BundleFile>,
                             limits: BundleLimits)
    requires multiset(a) == multiset(b)
    ensures Normalize(format, algorithm, entryPoint, a, limits) == Normalize(format, algorithm, entryPoint, b, limits)
  {
    hide SortBy, DistinctKeys, HasAdjacentDuplicate, StrictlyOrdered;
    SameLength(a, b);
    AdjacentTestDecides(a);
    AdjacentTestDecides(b);
    if DistinctKeys(a, FilePath) {
      DistinctPermutes(a, b, FilePath);
      SortCanonical(a, b, FilePath);
    } else if DistinctKeys(b, FilePath) {
      DistinctPermutes(b, a, FilePath);
    }
  }

  /** A manifest is a fixed point of its own constructor. */
  lemma NormalizeIsIdempotent(m: BundleManifest, limits: BundleLimits)
    requires ValidManifest(m, limits)
    ensures Normalize(BUNDLE_FORMAT, SHA256_ALGORITHM, m.entryPoint, m.files, limits) == Success(m)
  {
    StrictIsDistinct(m.files, FilePath);
    SortIdempotent(m.files, FilePath);
    NormalizeAccepts(BUNDLE_FORMAT, SHA256_ALGORITHM, m.entryPoint, m.files, limits);
  }
}
