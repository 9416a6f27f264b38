/**
 What the ustar reader accepts, said of whole archives: header blocks, file data
 and zero padding laid end to end, two zero blocks and a zero tail.
 */
module UstarLayout {
  import opened Bytes
  import opened Sorting
  import opened Distribution
  import opened Candidate
  import opened UstarHeader
  import opened Ustar

  /** One archive member as it lies in the file. */
  datatype Member = Member(header: Text, data: Text)

  function Tile(m: Member): (t: Text) {
    m.header + m.data + Zeros(Padded(|m.data|) - |m.data|)
  }

  function TileAll(ms: seq<Member>): Text {
    if ms == [] then [] else Tile(ms[0]) + TileAll(ms[1..])
  }

  /** The block is a readable header and the data has the length it states. */
  ghost predicate ReadsAs(read: HeaderReader, m: Member) {
    && |m.header| == BLOCK
    && read(m.header).Success?
    && |m.data| == read(m.header).value.size
  }

  ghost predicate Readable(read: HeaderReader, ms: seq<Member>) {
    forall i :: 0 <= i < |ms| ==> ReadsAs(read, ms[i])
  }

  /** A reader that refuses the all-zero block, so a header is never mistaken for the end mark. */
  ghost predicate RefusesZeroBlock(read: HeaderReader) {
    forall b :: |b| == BLOCK && IsZero(b) ==> read(b).Failure?
  }

  /** Admission of one member: header checks, then the file is recorded. */
  function Admit(read: HeaderReader, m: Member, e: ArchiveTree, limits: ParserLimits, p: Progress)
    : Result<Progress, ArchiveError>
    requires read(m.header).Success?
  {
    var h := read(m.header).value;
    if p.entries + 1 > limits.entries then Failure(TooManyEntries)
    else if p.metadata + BLOCK > limits.metadataBytes then Failure(MetadataLimitExceeded)
    else
      var next :- AdmitHeader(h, e, limits, p);
      if h.kind.DirectoryEntry? then Success(next)
      else Success(next.(observed := p.observed + {h.path},
                         candidates := p.candidates + [CandidateFile(h.path, m.data)]))
  }

  function AdmitAll(read: HeaderReader, ms: seq<Member>, e: ArchiveTree, limits: ParserLimits, p: Progress)
    : Result<Progress, ArchiveError>
    requires Readable(read, ms)
  {
    if ms == [] then
      if p.metadata + 2 * BLOCK > limits.metadataBytes then Failure(MetadataLimitExceeded)
      else Success(p.(metadata := p.metadata + 2 * BLOCK))
    else
      assert ReadsAs(read, ms[0]);
      var next :- Admit(read, ms[0], e, limits, p);
      AdmitAll(read, ms[1..], e, limits, next)
  }

  lemma ZeroIsZeros(t: Text)
    requires IsZero(t)
    ensures t == Zeros(|t|)
  {
    forall i | 0 <= i < |t|
      ensures t[i] == 0
    {
      assert t[i] in t;
    }
  }

  lemma ZerosIsZero(n: nat)
    ensures IsZero(Zeros(n))
  {
  }

  ghost predicate Lays(rest: Text, ms: seq<Member>, tail: nat) {
    2 * BLOCK <= tail && rest == TileAll(ms) + Zeros(tail)
  }

  // ----- soundness: whatever is accepted is tiled

  lemma EntryIsTile(read: HeaderReader, rest: Text, e: ArchiveTree, limits: ParserLimits, p: Progress)
    returns (m: Member)
    requires |rest| >= BLOCK && ReadEntry(read, rest, e, limits, p).Success?
    ensures ReadsAs(read, m)
    ensures var used := ReadEntry(read, rest, e, limits, p).value.0;
            && rest[..used] == Tile(m)
            && Admit(read, m, e, limits, p) == Success(ReadEntry(read, rest, e, limits, p).value.1)
  {
    hide IsZero;
    var h := read(rest[..BLOCK]).value;
    if h.kind.DirectoryEntry? {
      m := Member(rest[..BLOCK], []);
      assert Padded(0) == 0;
      assert Zeros(0) == [];
    } else {
      m := Member(rest[..BLOCK], rest[BLOCK..BLOCK + h.size]);
      ZeroIsZeros(rest[BLOCK + h.size..BLOCK + Padded(h.size)]);
      ThreeSlices(rest, BLOCK, BLOCK + h.size, BLOCK + Padded(h.size));
    }
  }

  lemma ThreeSlices(t: Text, i: nat, j: nat, k: nat)
    requires i <= j <= k <= |t|
    ensures t[..k] == t[..i] + t[i..j] + t[j..k]
  {
  }

  ghost predicate AcceptedLayout(read: HeaderReader, rest: Text, e: ArchiveTree, limits: ParserLimits, p: Progress,
                                 r: Progress, ms: seq<Member>, tail: nat)
  {
    Readable(read, ms) && Lays(rest, ms, tail) && AdmitAll(read, ms, e, limits, p) == Success(r)
  }

  lemma EndIsTail(rest: Text, limits: ParserLimits, p: Progress)
    requires |rest| >= BLOCK && IsZero(rest[..BLOCK]) && CheckEnd(rest, limits, p).Success?
    ensures 2 * BLOCK <= |rest| && rest == Zeros(|rest|)
    ensures p.metadata + 2 * BLOCK <= limits.metadataBytes
    ensures CheckEnd(rest, limits, p).value == p.(metadata := p.metadata + 2 * BLOCK)
  {
    ZeroIsZeros(rest[..BLOCK]);
    ZeroIsZeros(rest[BLOCK..2 * BLOCK]);
    ZeroIsZeros(rest[2 * BLOCK..]);
    assert rest == rest[..BLOCK] + rest[BLOCK..2 * BLOCK] + rest[2 * BLOCK..];
  }

  lemma {:induction false} AcceptedIsTiled(read: HeaderReader, rest: Text, e: ArchiveTree, limits: ParserLimits,
                                           p: Progress)
    returns (ms: seq<Member>, tail: nat)
    requires ParseRest(read, rest, e, limits, p).Success?
    ensures AcceptedLayout(read, rest, e, limits, p, ParseRest(read, rest, e, limits, p).value, ms, tail)
    decreases |rest|
  {
    hide ReadEntry, Admit, Tile, ReadsAs, AcceptedLayout, IsZero, CheckEnd, AdmitAll, TileAll;
    if IsZero(rest[..BLOCK]) {
      EmptyLayout(read, rest, e, limits, p);
      ms, tail := [], |rest|;
    } else {
      var m := EntryIsTile(read, rest, e, limits, p);
      var (used, next) := ReadEntry(read, rest, e, limits, p).value;
      var more, zeros := AcceptedIsTiled(read, rest[used..], e, limits, next);
      ms, tail := [m] + more, zeros;
      assert rest == rest[..used] + rest[used..];
      LayoutExtends(read, m, rest[used..], e, limits, p, next, ParseRest(read, rest, e, limits, p).value, more, tail);
    }
  }

  lemma EmptyLayout(read: HeaderReader, rest: Text, e: ArchiveTree, limits: ParserLimits, p: Progress)
    requires |rest| >= BLOCK && IsZero(rest[..BLOCK]) && CheckEnd(rest, limits, p).Success?
    ensures AcceptedLayout(read, rest, e, limits, p, CheckEnd(rest, limits, p).value, [], |rest|)
  {
    hide CheckEnd;
    EndIsTail(rest, limits, p);
    assert rest == [] + Zeros(|rest|);
  }

  lemma LayoutExtends(read: HeaderReader, m: Member, rest: Text, e: ArchiveTree, limits: ParserLimits, p: Progress,
                      next: Progress, r: Progress, more: seq<Member>, tail: nat)
    requires ReadsAs(read, m) && Admit(read, m, e, limits, p) == Success(next)
    requires AcceptedLayout(read, rest, e, limits, next, r, more, tail)
    ensures AcceptedLayout(read, Tile(m) + rest, e, limits, p, r, [m] + more, tail)
  {
    hide Admit, Tile;
    var ms := [m] + more;
    assert ms[0] == m && ms[1..] == more;
    assert Tile(m) + (TileAll(more) + Zeros(tail)) == (Tile(m) + TileAll(more)) + Zeros(tail);
    forall i | 0 <= i < |ms|
      ensures ReadsAs(read, ms[i])
    {
      if i > 0 {
        assert ms[i] == more[i - 1];
      }
    }
  }

  // ----- completeness: whatever is tiled and admitted is accepted

  lemma TileReads(read: HeaderReader, m: Member, rest: Text, e: ArchiveTree, limits: ParserLimits, p: Progress)
    requires ReadsAs(read, m)
    requires Admit(read, m, e, limits, p).Success?
    ensures ReadEntry(read, Tile(m) + rest, e, limits, p) == Success((|Tile(m)|, Admit(read, m, e, limits, p).value))
    ensures (Tile(m) + rest)[..BLOCK] == m.header
    ensures (Tile(m) + rest)[|Tile(m)|..] == rest
  {
    var t := Tile(m) + rest;
    assert t[..BLOCK] == m.header;
    assert |t| >= BLOCK;
    var h := read(m.header).value;
    if h.kind.DirectoryEntry? {
      assert m.data == [] && Padded(0) == 0;
    } else {
      assert t[BLOCK..BLOCK + h.size] == m.data;
      assert t[BLOCK + h.size..BLOCK + Padded(h.size)] == Zeros(Padded(h.size) - h.size);
      ZerosIsZero(Padded(h.size) - h.size);
    }
  }

  lemma {:induction false} TiledIsAccepted(read: HeaderReader, rest: Text, ms: seq<Member>, tail: nat, e: ArchiveTree,
                                           limits: ParserLimits, p: Progress)
    requires RefusesZeroBlock(read) && Readable(read, ms) && Lays(rest, ms, tail)
    requires AdmitAll(read, ms, e, limits, p).Success?
    ensures ParseRest(read, rest, e, limits, p) == AdmitAll(read, ms, e, limits, p)
  {
    if ms == [] {
      assert rest == Zeros(tail);
      assert IsZero(rest[..BLOCK]) && IsZero(rest[BLOCK..2 * BLOCK]) && IsZero(rest[2 * BLOCK..]);
    } else {
      assert ReadsAs(read, ms[0]);
      var more := TileAll(ms[1..]) + Zeros(tail);
      assert rest == Tile(ms[0]) + more;
      TileReads(read, ms[0], more, e, limits, p);
      assert !IsZero(rest[..BLOCK]);
      TiledIsAccepted(read, more, ms[1..], tail, e, limits, Admit(read, ms[0], e, limits, p).value);
    }
  }

  // ----- admission, said without the loop

  function HeaderOf(read: HeaderReader, m: Member): ParsedHeader
    requires read(m.header).Success?
  {
    read(m.header).value
  }

  ghost predicate FitsTree(read: HeaderReader, m: Member, e: ArchiveTree, limits: ParserLimits)
    requires read(m.header).Success?
  {
    var h := HeaderOf(read, m);
    && Nesting(h.path) <= limits.nesting
    && Contains(e, h.path, h.kind)
    && (h.kind.DirectoryEntry? ==> h.size == 0)
    && (h.kind.FileEntry? ==> h.size <= MAX_BUNDLE_FILE_BYTES)
  }

  function KeyOf(read: HeaderReader, m: Member): Text
    requires read(m.header).Success?
  {
    LowerCase(HeaderOf(read, m).path)
  }

  /** Bytes of file data over all members. */
  function Payload(read: HeaderReader, ms: seq<Member>): nat
    requires Readable(read, ms)
  {
    if ms == [] then 0
    else
      assert ReadsAs(read, ms[0]);
      (if HeaderOf(read, ms[0]).kind.FileEntry? then |ms[0].data| else 0) + Payload(read, ms[1..])
  }

  /** The file members in archive order, as candidates. */
  function FilesOf(read: HeaderReader, ms: seq<Member>): seq<CandidateFile>
    requires Readable(read, ms)
  {
    if ms == [] then []
    else
      assert ReadsAs(read, ms[0]);
      var h := HeaderOf(read, ms[0]);
      (if h.kind.FileEntry? then [CandidateFile(h.path, ms[0].data)] else []) + FilesOf(read, ms[1..])
  }

  ghost predicate Admissible(read: HeaderReader, ms: seq<Member>, e: ArchiveTree, limits: ParserLimits, p: Progress)
    requires Readable(read, ms)
  {
    && p.entries + |ms| <= limits.entries
    && p.metadata + BLOCK * (|ms| + 2) <= limits.metadataBytes
    && p.expanded + Payload(read, ms) <= limits.expandedBytes
    && (forall i :: 0 <= i < |ms| ==> ReadsAs(read, ms[i]) && FitsTree(read, ms[i], e, limits)
                                      && KeyOf(read, ms[i]) !in p.keys)
    && (forall i, j :: 0 <= i < j < |ms| ==> ReadsAs(read, ms[i]) && ReadsAs(read, ms[j])
                                             && KeyOf(read, ms[i]) != KeyOf(read, ms[j]))
  }

  function CandidatePaths(cs: seq<CandidateFile>): set<Text> {
    set i | 0 <= i < |cs| :: cs[i].path
  }

  lemma PathsOfConcat(a: seq<CandidateFile>, b: seq<CandidateFile>)
    ensures CandidatePaths(a + b) == CandidatePaths(a) + CandidatePaths(b)
  {
    forall p
      ensures p in CandidatePaths(a + b) <==> p in CandidatePaths(a) + CandidatePaths(b)
    {
      if p in CandidatePaths(a) {
        var i :| 0 <= i < |a| && a[i].path == p;
        assert (a + b)[i].path == p;
      }
      if p in CandidatePaths(b) {
        var i :| 0 <= i < |b| && b[i].path == p;
        assert (a + b)[|a| + i].path == p;
      }
    }
  }

  ghost predicate Advanced(read: HeaderReader, ms: seq<Member>, p: Progress, r: Progress)
    requires Readable(read, ms)
  {
    && r.candidates == p.candidates + FilesOf(read, ms)
    && r.observed == p.observed + CandidatePaths(FilesOf(read, ms))
    && r.entries == p.entries + |ms|
    && r.metadata == p.metadata + BLOCK * (|ms| + 2)
    && r.expanded == p.expanded + Payload(read, ms)
  }

  lemma AdmittedCounters(read: HeaderReader, m: Member, e: ArchiveTree, limits: ParserLimits, p: Progress)
    requires ReadsAs(read, m) && Admit(read, m, e, limits, p).Success?
    ensures var next := Admit(read, m, e, limits, p).value;
            && p.entries + 1 <= limits.entries && p.metadata + BLOCK <= limits.metadataBytes
            && FitsTree(read, m, e, limits) && KeyOf(read, m) !in p.keys
            && next.keys == p.keys + {KeyOf(read, m)}
            && next.entries == p.entries + 1 && next.metadata == p.metadata + BLOCK
            && next.expanded == p.expanded + (if HeaderOf(read, m).kind.FileEntry? then |m.data| else 0)
  {
  }

  lemma FirstMember(read: HeaderReader, ms: seq<Member>, e: ArchiveTree, limits: ParserLimits, p: Progress)
    requires Readable(read, ms) && ms != []
    requires ReadsAs(read, ms[0]) && Admit(read, ms[0], e, limits, p).Success?
    ensures Admissible(read, ms, e, limits, p) <==>
            Admissible(read, ms[1..], e, limits, Admit(read, ms[0], e, limits, p).value)
            && FitsTree(read, ms[0], e, limits)
  {
    var next := Admit(read, ms[0], e, limits, p).value;
    AdmittedCounters(read, ms[0], e, limits, p);
    hide Admit, FitsTree;
    var rest := ms[1..];
    if Admissible(read, ms, e, limits, p) {
      forall i | 0 <= i < |rest|
        ensures ReadsAs(read, rest[i]) && FitsTree(read, rest[i], e, limits) && KeyOf(read, rest[i]) !in next.keys
      {
        assert rest[i] == ms[i + 1];
        assert KeyOf(read, ms[0]) != KeyOf(read, ms[i + 1]);
      }
      forall i, j | 0 <= i < j < |rest|
        ensures ReadsAs(read, rest[i]) && ReadsAs(read, rest[j]) && KeyOf(read, rest[i]) != KeyOf(read, rest[j])
      {
        assert rest[i] == ms[i + 1] && rest[j] == ms[j + 1];
      }
    }
    if Admissible(read, rest, e, limits, next) && FitsTree(read, ms[0], e, limits) {
      forall i | 0 <= i < |ms|
        ensures ReadsAs(read, ms[i]) && FitsTree(read, ms[i], e, limits) && KeyOf(read, ms[i]) !in p.keys
      {
        if i > 0 {
          assert ms[i] == rest[i - 1];
        }
      }
      forall i, j | 0 <= i < j < |ms|
        ensures ReadsAs(read, ms[i]) && ReadsAs(read, ms[j]) && KeyOf(read, ms[i]) != KeyOf(read, ms[j])
      {
        assert ms[j] == rest[j - 1];
        if i > 0 {
          assert ms[i] == rest[i - 1];
        }
      }
    }
  }

  /** The loop admits a member list exactly when it is admissible, and then advances by exactly its contents. */
  lemma {:induction false} AdmitAllExactly(read: HeaderReader, ms: seq<Member>, e: ArchiveTree, limits: ParserLimits,
                                           p: Progress)
    requires Readable(read, ms)
    requires p.entries <= limits.entries && p.expanded <= limits.expandedBytes
    ensures AdmitAll(read, ms, e, limits, p).Success? <==> Admissible(read, ms, e, limits, p)
    ensures AdmitAll(read, ms, e, limits, p).Success? ==>
              Advanced(read, ms, p, AdmitAll(read, ms, e, limits, p).value)
  {
    hide Admit, FitsTree, KeyOf, ReadsAs;
    if ms == [] {
      assert p.candidates + [] == p.candidates;
    } else {
      ReadableHead(read, ms);
      var first := Admit(read, ms[0], e, limits, p);
      hide Admissible, Advanced, FilesOf;
      if first.Success? {
        FirstMemberFits(read, ms, e, limits, p);
        AdmitAllExactly(read, ms[1..], e, limits, first.value);
        FirstMember(read, ms, e, limits, p);
        if AdmitAll(read, ms, e, limits, p).Success? {
          AdvancedExtends(read, ms, e, limits, p, AdmitAll(read, ms, e, limits, p).value);
        }
      } else {
        RefusedMember(read, ms, e, limits, p);
      }
    }
  }

  lemma ReadableHead(read: HeaderReader, ms: seq<Member>)
    requires Readable(read, ms) && ms != []
    ensures ReadsAs(read, ms[0]) && read(ms[0].header).Success? && Readable(read, ms[1..])
  {
  }

  lemma FirstMemberFits(read: HeaderReader, ms: seq<Member>, e: ArchiveTree, limits: ParserLimits, p: Progress)
    requires Readable(read, ms) && ms != [] && ReadsAs(read, ms[0]) && Admit(read, ms[0], e, limits, p).Success?
    requires p.expanded <= limits.expandedBytes
    ensures FitsTree(read, ms[0], e, limits)
    ensures var next := Admit(read, ms[0], e, limits, p).value;
            next.entries <= limits.entries && next.expanded <= limits.expandedBytes
  {
  }

  lemma RefusedMember(read: HeaderReader, ms: seq<Member>, e: ArchiveTree, limits: ParserLimits, p: Progress)
    requires Readable(read, ms) && ms != [] && ReadsAs(read, ms[0]) && Admit(read, ms[0], e, limits, p).Failure?
    requires p.expanded <= limits.expandedBytes
    ensures !Admissible(read, ms, e, limits, p)
  {
  }

  /** What one admitted member adds to the counters. */
  lemma AdvancedExtends(read: HeaderReader, ms: seq<Member>, e: ArchiveTree, limits: ParserLimits, p: Progress,
                        r: Progress)
    requires Readable(read, ms) && ms != [] && ReadsAs(read, ms[0]) && Admit(read, ms[0], e, limits, p).Success?
    requires Advanced(read, ms[1..], Admit(read, ms[0], e, limits, p).value, r)
    ensures Advanced(read, ms, p, r)
  {
    AdmittedCounters(read, ms[0], e, limits, p);
    AdmittedFile(read, ms[0], e, limits, p);
    hide Admit, FitsTree, KeyOf, CandidatePaths;
    var next := Admit(read, ms[0], e, limits, p).value;
    var own := if HeaderOf(read, ms[0]).kind.FileEntry?
               then [CandidateFile(HeaderOf(read, ms[0]).path, ms[0].data)] else [];
    var more := FilesOf(read, ms[1..]);
    assert FilesOf(read, ms) == own + more;
    assert next.candidates == p.candidates + own;
    assert p.candidates + own + more == p.candidates + (own + more);
    PathsOfConcat(own, more);
  }

  lemma AdmittedFile(read: HeaderReader, m: Member, e: ArchiveTree, limits: ParserLimits, p: Progress)
    requires ReadsAs(read, m) && Admit(read, m, e, limits, p).Success?
    ensures var next := Admit(read, m, e, limits, p).value;
            var h := HeaderOf(read, m);
            var own := if h.kind.FileEntry? then [CandidateFile(h.path, m.data)] else [];
            && next.candidates == p.candidates + own
            && next.observed == p.observed + CandidatePaths(own)
  {
    hide FitsTree, KeyOf, LowerCase, Contains;
    var h := HeaderOf(read, m);
    assert p.candidates + [] == p.candidates;
    assert CandidatePaths([CandidateFile(h.path, m.data)]) == {h.path} by {
      assert [CandidateFile(h.path, m.data)][0].path == h.path;
    }
    assert p.observed + CandidatePaths([]) == p.observed;
  }

  // ----- the whole archive

  /** The bytes are exactly these members and a tail of at least two zero blocks, and the tree fits the manifest. */
  ghost predicate IsArchiveOf(read: HeaderReader, archive: Text, ms: seq<Member>, m: BundleManifest,
                              limits: ParserLimits)
  {
    && Readable(read, ms)
    && ExpectedTree(m).Success?
    && |TileAll(ms)| + 2 * BLOCK <= |archive|
    && |archive| % BLOCK == 0
    && archive == TileAll(ms) + Zeros(|archive| - |TileAll(ms)|)
    && Admissible(read, ms, TreeOf(m), limits, START)
    && Paths(m) <= CandidatePaths(FilesOf(read, ms))
  }

  lemma {:induction false} FirstUnobservedFinds(files: seq<BundleFile>, observed: set<Text>)
    ensures FirstUnobserved(files, observed).None? <==> FilePaths(files) <= observed
  {
    if files != [] {
      FirstUnobservedFinds(files[1..], observed);
      assert FilePaths(files) == {files[0].path} + FilePaths(files[1..]) by {
        forall p
          ensures p in FilePaths(files) <==> p == files[0].path || p in FilePaths(files[1..])
        {
          if p in FilePaths(files) && p != files[0].path {
            var i :| 0 <= i < |files| && files[i].path == p;
            assert files[1..][i - 1].path == p;
          }
          if p in FilePaths(files[1..]) {
            var i :| 0 <= i < |files[1..]| && files[1..][i].path == p;
            assert files[i + 1].path == p;
          }
        }
      }
    }
  }

  /** Acceptance implies the tiling. */
  lemma ParseImpliesArchive(read: HeaderReader, archive: Text, m: BundleManifest, limits: ParserLimits)
    returns (ms: seq<Member>)
    requires ParseWith(read, archive, m, limits).Success?
    ensures IsArchiveOf(read, archive, ms, m, limits)
    ensures ParseWith(read, archive, m, limits).value == FilesOf(read, ms)
  {
    hide AdmitAll, Admissible, Tile, TileAll, FilesOf, ReadsAs, Readable, ParseRest, FirstUnobserved;
    var e := TreeOf(m);
    var tail;
    ms, tail := AcceptedIsTiled(read, archive, e, limits, START);
    AdmitAllExactly(read, ms, e, limits, START);
    FirstUnobservedFinds(m.files, AdmitAll(read, ms, e, limits, START).value.observed);
    assert [] + FilesOf(read, ms) == FilesOf(read, ms);
    assert tail == |archive| - |TileAll(ms)|;
  }

  /** The tiling implies acceptance. */
  lemma ArchiveImpliesParse(read: HeaderReader, archive: Text, ms: seq<Member>, m: BundleManifest, limits: ParserLimits)
    requires RefusesZeroBlock(read) && IsArchiveOf(read, archive, ms, m, limits)
    ensures ParseWith(read, archive, m, limits) == Success(FilesOf(read, ms))
  {
    hide AdmitAll, Admissible, Tile, TileAll, FilesOf, Readable, ParseRest, FirstUnobserved;
    AdmittedFromStart(read, ms, TreeOf(m), limits);
    TiledIsAccepted(read, archive, ms, |archive| - |TileAll(ms)|, TreeOf(m), limits, START);
    FirstUnobservedFinds(m.files, CandidatePaths(FilesOf(read, ms)));
  }

  lemma AdmittedFromStart(read: HeaderReader, ms: seq<Member>, e: ArchiveTree, limits: ParserLimits)
    requires Readable(read, ms) && Admissible(read, ms, e, limits, START)
    ensures AdmitAll(read, ms, e, limits, START).Success?
    ensures var r := AdmitAll(read, ms, e, limits, START).value;
            r.candidates == FilesOf(read, ms) && r.observed == CandidatePaths(FilesOf(read, ms))
  {
    AdmitAllExactly(read, ms, e, limits, START);
    assert [] + FilesOf(read, ms) == FilesOf(read, ms);
  }

  /**
   Exactly the well-tiled archives of the manifest's tree are accepted, and what
   comes back is their file members in archive order.
   */
  lemma ParseAcceptsExactlyArchives(read: HeaderReader, archive: Text, m: BundleManifest, limits: ParserLimits,
                                    cs: seq<CandidateFile>)
    requires RefusesZeroBlock(read)
    ensures ParseWith(read, archive, m, limits) == Success(cs) <==>
            exists ms :: IsArchiveOf(read, archive, ms, m, limits) && cs == FilesOf(read, ms)
  {
    if ParseWith(read, archive, m, limits) == Success(cs) {
      var ms := ParseImpliesArchive(read, archive, m, limits);
    }
    if exists ms :: IsArchiveOf(read, archive, ms, m, limits) && cs == FilesOf(read, ms) {
      var ms :| IsArchiveOf(read, archive, ms, m, limits) && cs == FilesOf(read, ms);
      ArchiveImpliesParse(read, archive, ms, m, limits);
    }
  }

  ghost predicate FromMember(read: HeaderReader, c: CandidateFile, m: Member) {
    ReadsAs(read, m) && read(m.header).value == ParsedHeader(c.path, |c.bytes|, FileEntry) && c.bytes == m.data
  }

  lemma {:induction false} FilesComeFromMembers(read: HeaderReader, ms: seq<Member>, i: nat)
    requires Readable(read, ms) && i < |FilesOf(read, ms)|
    ensures exists k :: 0 <= k < |ms| && FromMember(read, FilesOf(read, ms)[i], ms[k])
  {
    assert ReadsAs(read, ms[0]);
    var own := if HeaderOf(read, ms[0]).kind.FileEntry? then 1 else 0;
    if i >= own {
      FilesComeFromMembers(read, ms[1..], i - own);
      var k :| 0 <= k < |ms[1..]| && FromMember(read, FilesOf(read, ms[1..])[i - own], ms[1..][k]);
      assert FromMember(read, FilesOf(read, ms)[i], ms[k + 1]);
    } else {
      assert FromMember(read, FilesOf(read, ms)[i], ms[0]);
    }
  }

  lemma {:induction false} FilePathsDistinct(read: HeaderReader, ms: seq<Member>, e: ArchiveTree, limits: ParserLimits,
                                             p: Progress)
    requires Readable(read, ms) && Admissible(read, ms, e, limits, p)
    ensures DistinctKeys(FilesOf(read, ms), CandidatePath)
  {
    if ms != [] {
      AdmissibleHead(read, ms, e, limits, p);
      FirstMember(read, ms, e, limits, p);
      FilePathsDistinct(read, ms[1..], e, limits, Admit(read, ms[0], e, limits, p).value);
      var files, more := FilesOf(read, ms), FilesOf(read, ms[1..]);
      if HeaderOf(read, ms[0]).kind.FileEntry? {
        forall i, j | 0 <= i < j < |files|
          ensures CandidatePath(files[i]) != CandidatePath(files[j])
        {
          assert files[j] == more[j - 1];
          if i == 0 {
            LaterFileDiffers(read, ms, e, limits, p, j - 1);
          } else {
            assert files[i] == more[i - 1];
          }
        }
      }
    }
  }

  lemma AdmissibleHead(read: HeaderReader, ms: seq<Member>, e: ArchiveTree, limits: ParserLimits, p: Progress)
    requires Readable(read, ms) && Admissible(read, ms, e, limits, p) && ms != []
    ensures ReadsAs(read, ms[0]) && FitsTree(read, ms[0], e, limits) && Admit(read, ms[0], e, limits, p).Success?
  {
  }

  lemma LaterFileDiffers(read: HeaderReader, ms: seq<Member>, e: ArchiveTree, limits: ParserLimits, p: Progress, j: nat)
    requires Readable(read, ms) && Admissible(read, ms, e, limits, p) && ms != [] && read(ms[0].header).Success?
    requires j < |FilesOf(read, ms[1..])|
    ensures HeaderOf(read, ms[0]).path != FilesOf(read, ms[1..])[j].path
  {
    FilesComeFromMembers(read, ms[1..], j);
    hide FilesOf;
    var k :| 0 <= k < |ms[1..]| && FromMember(read, FilesOf(read, ms[1..])[j], ms[1..][k]);
    assert ms[1..][k] == ms[k + 1];
    assert KeyOf(read, ms[0]) != KeyOf(read, ms[k + 1]);
  }

  /** The returned paths are the manifest's paths, once each, within the per-file bound. */
  lemma ParsedPathsAreDeclared(read: HeaderReader, archive: Text, m: BundleManifest, limits: ParserLimits)
    requires ParseWith(read, archive, m, limits).Success?
    ensures var cs := ParseWith(read, archive, m, limits).value;
            && CandidatePaths(cs) == Paths(m)
            && DistinctKeys(cs, CandidatePath)
            && ValidCandidates(cs)
  {
    var ms := ParseImpliesArchive(read, archive, m, limits);
    var cs := FilesOf(read, ms);
    FilePathsDistinct(read, ms, TreeOf(m), limits, START);
    forall i | 0 <= i < |cs|
      ensures cs[i].path in Paths(m) && |cs[i].bytes| <= MAX_BUNDLE_FILE_BYTES
    {
      FilesComeFromMembers(read, ms, i);
      var k :| 0 <= k < |ms| && FromMember(read, cs[i], ms[k]);
      assert FitsTree(read, ms[k], TreeOf(m), limits);
    }
  }

  // ----- resource bounds

  lemma TileLength(m: Member)
    requires |m.header| == BLOCK
    ensures |Tile(m)| == BLOCK + Padded(|m.data|) && |Tile(m)| % BLOCK == 0 && Padded(0) == 0
  {
  }

  lemma {:induction false} TiledLength(read: HeaderReader, ms: seq<Member>, e: ArchiveTree, limits: ParserLimits,
                                       p: Progress)
    requires Readable(read, ms) && Admissible(read, ms, e, limits, p)
    ensures |TileAll(ms)| <= |ms| * BLOCK + Payload(read, ms) + |ms| * (BLOCK - 1)
    ensures |TileAll(ms)| % BLOCK == 0
  {
    if ms != [] {
      AdmissibleHead(read, ms, e, limits, p);
      FirstMember(read, ms, e, limits, p);
      hide Admissible, Admit;
      TiledLength(read, ms[1..], e, limits, Admit(read, ms[0], e, limits, p).value);
      TileLength(ms[0]);
      hide Tile, Padded;
      AlignedSum(|Tile(ms[0])|, |TileAll(ms[1..])|);
    }
  }

  /** Every archive within the entry and payload limits, with a minimal end mark, fits the input bound. */
  lemma LimitsFitInputBound(read: HeaderReader, archive: Text, ms: seq<Member>, m: BundleManifest)
    requires IsArchiveOf(read, archive, ms, m, DEFAULT_PARSER_LIMITS)
    requires |archive| == |TileAll(ms)| + 2 * BLOCK
    ensures |archive| <= MAX_USTAR_ARCHIVE_BYTES
  {
    TiledLength(read, ms, TreeOf(m), DEFAULT_PARSER_LIMITS, START);
  }

  /** Under the default limits the entry bound always fires first: the metadata bound cannot. */
  lemma {:induction false} MetadataLimitIsSlack(read: HeaderReader, rest: Text, e: ArchiveTree, p: Progress)
    requires forall block :: read(block) != Failure(MetadataLimitExceeded)
    requires p.entries <= MAX_USTAR_ENTRIES && p.metadata == BLOCK * p.entries
    ensures ParseRest(read, rest, e, DEFAULT_PARSER_LIMITS, p) != Failure(MetadataLimitExceeded)
    decreases |rest|
  {
    if |rest| >= BLOCK && !IsZero(rest[..BLOCK]) {
      var r := ReadEntry(read, rest, e, DEFAULT_PARSER_LIMITS, p);
      if r.Success? {
        MetadataLimitIsSlack(read, rest[r.value.0..], e, r.value.1);
      }
    }
  }
}
