/** The bounded ustar archive: entries one after another, then the whole file. */
module Ustar {
  import opened Bytes
  import opened Sorting
  import opened Distribution
  import opened Candidate
  import opened UstarHeader

  const MAX_USTAR_ENTRIES: nat := 1_024
  const MAX_USTAR_NESTING: nat := 64
  const MAX_USTAR_METADATA_BYTES: nat := (MAX_USTAR_ENTRIES + 2) * BLOCK
  const MAX_USTAR_ARCHIVE_BYTES: nat := 34_603_008

  datatype ParserLimits = ParserLimits(entries: nat, metadataBytes: nat, expandedBytes: nat, nesting: nat)

  const DEFAULT_PARSER_LIMITS :=
    ParserLimits(MAX_USTAR_ENTRIES, MAX_USTAR_METADATA_BYTES, MAX_BUNDLE_EXPANDED_BYTES, MAX_USTAR_NESTING)

  /** The archive layout depends on headers only through this reader. */
  type HeaderReader = Text -> Result<ParsedHeader, ArchiveError>

  predicate IsZero(t: Text) {
    forall b :: b in t ==> b == 0
  }

  // ----- the manifest's tree

  datatype ArchiveTree = ArchiveTree(files: set<Text>, directories: set<Text>)

  predicate Contains(e: ArchiveTree, path: Text, kind: EntryKind) {
    match kind case FileEntry => path in e.files case DirectoryEntry => path in e.directories
  }

  function LastSlash(p: Text): (i: Option<nat>)
    ensures i.None? ==> forall k :: 0 <= k < |p| ==> p[k] != SLASH
    ensures i.Some? ==> i.value < |p| && p[i.value] == SLASH && forall k :: i.value < k < |p| ==> p[k] != SLASH
  {
    if p == [] then None
    else if p[|p| - 1] == SLASH then Some(|p| - 1)
    else LastSlash(p[..|p| - 1])
  }

  lemma ParentIsNearest(p: Text, parent: Text)
    requires LastSlash(p).Some? && parent == p[..LastSlash(p).value]
    ensures IsAncestor(parent, p)
    ensures forall a: Text :: IsAncestor(a, p) ==> a == parent || IsAncestor(a, parent)
  {
    forall a: Text | IsAncestor(a, p)
      ensures a == parent || IsAncestor(a, parent)
    {
      if |a| < |parent| {
        AncestorsAreChained(a, parent, p);
      }
    }
  }

  lemma CutsAreAncestors(p: Text, parent: Text)
    requires IsAncestor(parent, p) && forall a: Text :: IsAncestor(a, p) ==> a == parent || IsAncestor(a, parent)
    ensures Ancestors(p) == {parent} + Ancestors(parent)
  {
    forall a: Text
      ensures a in Ancestors(p) <==> a in {parent} + Ancestors(parent)
    {
      if a in Ancestors(parent) {
        AncestorTransitive(a, parent, p);
      }
    }
  }

  /** What repeatedly cutting at the last separator reaches. */
  function CutDirectories(p: Text): (s: set<Text>)
    ensures s == Ancestors(p)
    decreases |p|
  {
    match LastSlash(p)
    case None => {}
    case Some(k) =>
      ParentIsNearest(p, p[..k]);
      CutsAreAncestors(p, p[..k]);
      {p[..k]} + CutDirectories(p[..k])
  }

  /** The first path of the listing whose ASCII-lower-case key an earlier one took. */
  function FirstCollision(paths: seq<Text>, keys: set<Text>): Option<Text> {
    if paths == [] then None
    else if LowerCase(paths[0]) in keys then Some(paths[0])
    else FirstCollision(paths[1..], keys + {LowerCase(paths[0])})
  }

  function DirectoriesOf(paths: set<Text>): (s: set<Text>)
    ensures s == AncestorsOfAll(paths)
  {
    var s := set p, a | p in paths && a in CutDirectories(p) :: a;
    assert s == AncestorsOfAll(paths) by {
      forall a | a in AncestorsOfAll(paths)
        ensures a in s
      {
        var p :| p in paths && a in Ancestors(p);
        assert a in CutDirectories(p);
      }
    }
    s
  }

  function TreeOf(m: BundleManifest): ArchiveTree {
    ArchiveTree(Paths(m), DirectoriesOf(Paths(m)))
  }

  function ExpectedTree(m: BundleManifest): Result<ArchiveTree, ArchiveError> {
    var e := TreeOf(m);
    match FirstCollision(Listing(e.files) + Listing(e.directories), {})
    case None => Success(e)
    case Some(p) => Failure(PathCollision(p))
  }

  ghost predicate ValidPaths(m: BundleManifest) {
    forall f :: f in m.files ==> ValidPath(f.path)
  }

  /** Repeatedly cutting at the last separator reaches exactly the ancestor directories, all acceptable paths. */
  method ParentDirectories(p: Text) returns (directories: set<Text>)
    requires ValidPath(p)
    ensures directories == Ancestors(p)
    ensures forall a :: a in directories ==> ValidPath(a)
  {
    directories := {};
    var candidate := p;
    var cut := LastSlash(candidate);
    while cut.Some?
      invariant candidate == p || IsAncestor(candidate, p)
      invariant directories <= Ancestors(p) && forall a :: a in directories ==> ValidPath(a)
      invariant forall a: Text :: IsAncestor(a, p) ==> a in directories || IsAncestor(a, candidate)
      invariant cut == LastSlash(candidate)
      decreases |candidate|
    {
      var parent := candidate[..cut.value];
      ParentIsNearest(candidate, parent);
      if candidate != p {
        AncestorTransitive(parent, candidate, p);
      }
      AncestorIsValidPath(parent, p);
      directories := directories + {parent};
      candidate := parent;
      cut := LastSlash(candidate);
    }
  }

  // ----- entries

  /** The mutable variables of the parsing loop, apart from the cursor. */
  datatype Progress = Progress(keys: set<Text>, observed: set<Text>, candidates: seq<CandidateFile>,
                               entries: nat, metadata: nat, expanded: nat)

  const START := Progress({}, {}, [], 0, 0, 0)

  function Nesting(path: Text): nat {
    if path == [] then 0 else Nesting(path[1..]) + if path[0] == SLASH then 1 else 0
  }

  lemma BlocksAreAligned(blocks: nat)
    ensures blocks * 512 % 512 == 0
  {
  }

  function Padded(size: nat): (n: nat)
    ensures size <= n < size + BLOCK && n % BLOCK == 0
  {
    var blocks := (size + BLOCK - 1) / BLOCK;
    BlocksAreAligned(blocks);
    blocks * BLOCK
  }

  /** Admission of a parsed header against the counters, the collision keys and the manifest tree. */
  function AdmitHeader(h: ParsedHeader, e: ArchiveTree, limits: ParserLimits, p: Progress)
    : Result<Progress, ArchiveError>
  {
    if Nesting(h.path) > limits.nesting then Failure(NestingLimitExceeded(h.path))
    else if LowerCase(h.path) in p.keys then Failure(PathCollision(h.path))
    else if !Contains(e, h.path, h.kind) then Failure(Undeclared(h.path))
    else if h.kind.DirectoryEntry? && h.size != 0 then Failure(UnsupportedMetadata)
    else if h.kind.FileEntry? && h.size > MAX_BUNDLE_FILE_BYTES then Failure(EntryTooLarge(h.path))
    else if h.kind.FileEntry? && p.expanded + h.size > limits.expandedBytes then Failure(ExpandedBytesLimitExceeded)
    else Success(Progress(p.keys + {LowerCase(h.path)}, p.observed, p.candidates, p.entries + 1, p.metadata + BLOCK,
                          p.expanded + if h.kind.FileEntry? then h.size else 0))
  }

  /** One turn of the loop at the front of `rest`: bytes consumed and the new counters. */
  function ReadEntry(read: HeaderReader, rest: Text, e: ArchiveTree, limits: ParserLimits, p: Progress)
    : (r: Result<(nat, Progress), ArchiveError>)
    requires |rest| >= BLOCK
    ensures r.Success? ==> BLOCK <= r.value.0 <= |rest| && r.value.0 % BLOCK == 0
  {
    if p.entries + 1 > limits.entries then Failure(TooManyEntries)
    else if p.metadata + BLOCK > limits.metadataBytes then Failure(MetadataLimitExceeded)
    else
      var h :- read(rest[..BLOCK]);
      var next :- AdmitHeader(h, e, limits, p);
      if h.kind.DirectoryEntry? then Success((BLOCK, next))
      else if BLOCK + h.size > |rest| || BLOCK + Padded(h.size) > |rest| then Failure(TruncatedArchive)
      else if !IsZero(rest[BLOCK + h.size..BLOCK + Padded(h.size)]) then Failure(UnsupportedMetadata)
      else
        var candidate := CandidateFile(h.path, rest[BLOCK..BLOCK + h.size]);
        Success((BLOCK + Padded(h.size),
                 next.(observed := p.observed + {h.path}, candidates := p.candidates + [candidate])))
  }

  function CheckEnd(rest: Text, limits: ParserLimits, p: Progress): Result<Progress, ArchiveError>
    requires |rest| >= BLOCK
  {
    if |rest| < 2 * BLOCK then Failure(TruncatedArchive)
    else if !IsZero(rest[BLOCK..2 * BLOCK]) then Failure(MalformedHeader)
    else if p.metadata + 2 * BLOCK > limits.metadataBytes then Failure(MetadataLimitExceeded)
    else if !IsZero(rest[2 * BLOCK..]) then Failure(TrailingData)
    else Success(p.(metadata := p.metadata + 2 * BLOCK))
  }

  function ParseRest(read: HeaderReader, rest: Text, e: ArchiveTree, limits: ParserLimits, p: Progress)
    : Result<Progress, ArchiveError>
    decreases |rest|
  {
    if |rest| < BLOCK then Failure(TruncatedArchive)
    else if IsZero(rest[..BLOCK]) then CheckEnd(rest, limits, p)
    else
      var (used, next) :- ReadEntry(read, rest, e, limits, p);
      ParseRest(read, rest[used..], e, limits, next)
  }

  function FirstUnobserved(files: seq<BundleFile>, observed: set<Text>): Option<Text> {
    if files == [] then None
    else if files[0].path !in observed then Some(files[0].path)
    else FirstUnobserved(files[1..], observed)
  }

  function ParseWith(read: HeaderReader, archive: Text, m: BundleManifest, limits: ParserLimits)
    : Result<seq<CandidateFile>, ArchiveError>
  {
    if |archive| < BLOCK * 2 || |archive| % BLOCK != 0 then Failure(TruncatedArchive)
    else
      var e :- ExpectedTree(m);
      var p :- ParseRest(read, archive, e, limits, START);
      match FirstUnobserved(m.files, p.observed)
      case Some(missing) => Failure(MissingDeclared(missing))
      case None => Success(p.candidates)
  }

  /** `UstarCandidateSource::load`. */
  function Parse(archive: Text, m: BundleManifest): Result<seq<CandidateFile>, ArchiveError> {
    ParseWith(ParseHeader, archive, m, DEFAULT_PARSER_LIMITS)
  }

  // ----- the cursor loop

  method CollectTree(m: BundleManifest) returns (r: Result<ArchiveTree, ArchiveError>)
    requires ValidPaths(m)
    ensures r == ExpectedTree(m)
  {
    var directories: set<Text> := {};
    for i := 0 to |m.files|
      invariant forall a :: a in directories <==> exists j :: 0 <= j < i && a in Ancestors(m.files[j].path)
    {
      assert m.files[i] in m.files;
      var parents := ParentDirectories(m.files[i].path);
      directories := directories + parents;
    }
    assert directories == DirectoriesOf(Paths(m));
    var rest := Listing(Paths(m)) + Listing(directories);
    var keys: set<Text> := {};
    while rest != []
      invariant FirstCollision(Listing(Paths(m)) + Listing(directories), {}) == FirstCollision(rest, keys)
      decreases |rest|
    {
      if LowerCase(rest[0]) in keys {
        return Failure(PathCollision(rest[0]));
      }
      keys := keys + {LowerCase(rest[0])};
      rest := rest[1..];
    }
    return Success(ArchiveTree(Paths(m), directories));
  }

  lemma AlignedSum(a: nat, b: nat)
    requires a % BLOCK == 0 && b % BLOCK == 0
    ensures (a + b) % BLOCK == 0
  {
  }

  method CountNesting(path: Text) returns (nesting: nat)
    ensures nesting == Nesting(path)
  {
    nesting := 0;
    var rest := path;
    while rest != []
      invariant nesting + Nesting(rest) == Nesting(path)
      decreases |rest|
    {
      if rest[0] == '/' as int {
        nesting := nesting + 1;
      }
      rest := rest[1..];
    }
  }

  method IsZeroBlock(t: Text) returns (zero: bool)
    ensures zero == IsZero(t)
  {
    for i := 0 to |t|
      invariant forall k :: 0 <= k < i ==> t[k] == 0
    {
      if t[i] != 0 {
        assert t[i] in t;
        return false;
      }
    }
    return true;
  }

  /** `archive_terminated`, once a zero block has been met. */
  method Terminate(rest: Text, limits: ParserLimits, p: Progress) returns (r: Result<Progress, ArchiveError>)
    requires |rest| >= BLOCK
    ensures r == CheckEnd(rest, limits, p)
  {
    if |rest| < 2 * BLOCK {
      return Failure(TruncatedArchive);
    }
    var second := IsZeroBlock(rest[BLOCK..2 * BLOCK]);
    if !second {
      return Failure(MalformedHeader);
    }
    var metadata := p.metadata + 2 * BLOCK;
    if metadata > limits.metadataBytes {
      return Failure(MetadataLimitExceeded);
    }
    var tail := IsZeroBlock(rest[2 * BLOCK..]);
    return if tail then Success(p.(metadata := metadata)) else Failure(TrailingData);
  }

  /** The checks of a parsed header, one after another. */
  method Admission(h: ParsedHeader, e: ArchiveTree, limits: ParserLimits, p: Progress)
    returns (r: Result<Progress, ArchiveError>)
    ensures r == AdmitHeader(h, e, limits, p)
  {
    hide Nesting;
    var nesting := CountNesting(h.path);
    if nesting > limits.nesting {
      return Failure(NestingLimitExceeded(h.path));
    }
    var key := LowerCase(h.path);
    if key in p.keys {
      return Failure(PathCollision(h.path));
    }
    if (h.kind == FileEntry && h.path !in e.files) || (h.kind == DirectoryEntry && h.path !in e.directories) {
      return Failure(Undeclared(h.path));
    }
    var counted := p.(keys := p.keys + {key}, entries := p.entries + 1, metadata := p.metadata + BLOCK);
    if h.kind == DirectoryEntry {
      return if h.size != 0 then Failure(UnsupportedMetadata) else Success(counted);
    }
    if h.size > MAX_BUNDLE_FILE_BYTES {
      return Failure(EntryTooLarge(h.path));
    }
    var expanded := p.expanded + h.size;
    return if expanded > limits.expandedBytes then Failure(ExpandedBytesLimitExceeded)
           else Success(counted.(expanded := expanded));
  }

  /** One turn of the loop. */
  method TakeEntry(read: HeaderReader, rest: Text, e: ArchiveTree, limits: ParserLimits, p: Progress)
    returns (r: Result<(nat, Progress), ArchiveError>)
    requires |rest| >= BLOCK
    ensures r == ReadEntry(read, rest, e, limits, p)
  {
    hide AdmitHeader, IsZero;
    if p.entries + 1 > limits.entries {
      return Failure(TooManyEntries);
    }
    if p.metadata + BLOCK > limits.metadataBytes {
      return Failure(MetadataLimitExceeded);
    }
    var header := read(rest[..BLOCK]);
    if header.Failure? {
      return Failure(header.error);
    }
    var h := header.value;
    var admitted := Admission(h, e, limits, p);
    if admitted.Failure? {
      return Failure(admitted.error);
    }
    if h.kind == DirectoryEntry {
      return Success((BLOCK, admitted.value));
    }
    var dataEnd, paddedEnd := BLOCK + h.size, BLOCK + Padded(h.size);
    if dataEnd > |rest| || paddedEnd > |rest| {
      return Failure(TruncatedArchive);
    }
    var clean := IsZeroBlock(rest[dataEnd..paddedEnd]);
    if !clean {
      return Failure(UnsupportedMetadata);
    }
    var candidate := CandidateFile(h.path, rest[BLOCK..dataEnd]);
    return Success((paddedEnd, admitted.value.(observed := p.observed + {h.path},
                                               candidates := p.candidates + [candidate])));
  }

  /** The loop of `parse_ustar`: a strictly growing block-aligned cursor over the caller's bytes. */
  method ScanEntries(read: HeaderReader, archive: Text, e: ArchiveTree, limits: ParserLimits)
    returns (r: Result<Progress, ArchiveError>)
    requires |archive| % BLOCK == 0
    ensures r == ParseRest(read, archive, e, limits, START)
  {
    hide ReadEntry, CheckEnd, IsZero;
    var cursor: nat := 0;
    var progress := START;
    assert archive[0..] == archive;
    while cursor + BLOCK <= |archive|
      invariant cursor <= |archive| && cursor % BLOCK == 0
      invariant ParseRest(read, archive, e, limits, START) == ParseRest(read, archive[cursor..], e, limits, progress)
      decreases |archive| - cursor
    {
      var rest := archive[cursor..];
      var zero := IsZeroBlock(rest[..BLOCK]);
      if zero {
        r := Terminate(rest, limits, progress);
        return;
      }
      var entry := TakeEntry(read, rest, e, limits, progress);
      if entry.Failure? {
        return Failure(entry.error);
      }
      var used := entry.value.0;
      assert rest[used..] == archive[cursor + used..];
      AlignedSum(cursor, used);
      cursor, progress := cursor + used, entry.value.1;
    }
    return Failure(TruncatedArchive);
  }

  method FindUnobserved(files: seq<BundleFile>, observed: set<Text>) returns (missing: Option<Text>)
    ensures missing == FirstUnobserved(files, observed)
  {
    var rest := files;
    while rest != []
      invariant FirstUnobserved(files, observed) == FirstUnobserved(rest, observed)
      decreases |rest|
    {
      if rest[0].path !in observed {
        return Some(rest[0].path);
      }
      rest := rest[1..];
    }
    return None;
  }

  /** `parse_ustar`: the shape check, the manifest tree, the entry loop, then the presence check. */
  method ParseUstar(read: HeaderReader, archive: Text, m: BundleManifest, limits: ParserLimits)
    returns (r: Result<seq<CandidateFile>, ArchiveError>)
    requires ValidPaths(m)
    ensures r == ParseWith(read, archive, m, limits)
  {
    if |archive| < BLOCK * 2 || |archive| % BLOCK != 0 {
      return Failure(TruncatedArchive);
    }
    var tree := CollectTree(m);
    if tree.Failure? {
      return Failure(tree.error);
    }
    var end := ScanEntries(read, archive, tree.value, limits);
    if end.Failure? {
      return Failure(end.error);
    }
    var missing := FindUnobserved(m.files, end.value.observed);
    if missing.Some? {
      return Failure(MissingDeclared(missing.value));
    }
    return Success(end.value.candidates);
  }

  // ----- the envelope test

  predicate LooksCompressed(t: Text) {
    || (|t| >= 2 && t[..2] == [0x1f, 0x8b])
    || (|t| >= 3 && t[..3] == [66, 90, 104])
    || (|t| >= 6 && t[..6] == [0xfd, 55, 122, 88, 90, 0])
    || (|t| >= 4 && t[..4] == [0x28, 0xb5, 0x2f, 0xfd])
  }

  /** `UstarCandidateSource::new`. */
  function NewSource(archive: Text): Result<Text, ArchiveError> {
    if LooksCompressed(archive) && !(|archive| >= BLOCK && ParseHeader(archive[..BLOCK]).Success?) then
      Failure(CompressedArchiveUnsupported)
    else if |archive| > MAX_USTAR_ARCHIVE_BYTES then Failure(ArchiveTooLarge)
    else Success(archive)
  }

  ghost predicate StartsWith(t: Text, magic: Text) {
    magic <= t
  }

  /** Which archives are taken, and what the others are called. */
  lemma SourceDecides(archive: Text)
    ensures var compressed := StartsWith(archive, [0x1f, 0x8b]) || StartsWith(archive, Ascii("BZh"))
                              || StartsWith(archive, [0xfd] + Ascii("7zXZ") + [0])
                              || StartsWith(archive, [0x28, 0xb5, 0x2f, 0xfd]);
            var excused := |archive| >= 512 && ParseHeader(archive[..512]).Success?;
            && (NewSource(archive) == Success(archive) <==> (!compressed || excused) && |archive| <= 34_603_008)
            && (NewSource(archive) == Failure(CompressedArchiveUnsupported) <==> compressed && !excused)
            && (NewSource(archive) == Failure(ArchiveTooLarge) <==>
                  (!compressed || excused) && |archive| > 34_603_008)
  {
    hide ParseHeader;
    assert Ascii("BZh") == [66, 90, 104];
    assert [0xfd] + Ascii("7zXZ") + [0] == [0xfd, 55, 122, 88, 90, 0];
  }
}
