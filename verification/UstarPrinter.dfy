/** The canonical ustar writer and the round trip through the reader. */
module UstarPrinter {
  import opened Bytes
  import opened Distribution
  import opened Candidate
  import opened UstarHeader
  import opened Ustar
  import opened UstarLayout

  // ----- octal

  function OctalDigits(v: nat, width: nat): (t: Text)
    ensures |t| == width
    ensures forall i :: 0 <= i < width ==> 48 <= t[i] <= 55
  {
    if width == 0 then [] else OctalDigits(v / 8, width - 1) + [48 + v % 8]
  }

  lemma {:induction false} OctalRoundTrip(v: nat, width: nat)
    requires v < Pow8(width) && width <= 21
    ensures CheckedOctal(OctalDigits(v, width)) == Some(v)
  {
    if width > 0 {
      OctalRoundTrip(v / 8, width - 1);
      var t := OctalDigits(v, width);
      assert t[..|t| - 1] == OctalDigits(v / 8, width - 1);
      Pow8Monotone(width, 21);
      Pow8Of21();
    }
  }

  /** Zero-filled digits with trailing padding read back as the value written. */
  lemma FieldRoundTrip(v: nat, width: nat, tail: Text, allowEmpty: bool)
    requires 0 < width <= 21 && v < Pow8(width)
    requires forall i :: 0 <= i < |tail| ==> IsPad(tail[i])
    ensures ParseOctal(OctalDigits(v, width) + tail, allowEmpty) == Success(v)
  {
    hide CheckedOctal, OctalDigits, FirstDigit, AfterLastDigit;
    var digits := OctalDigits(v, width);
    var field := digits + tail;
    OctalRoundTrip(v, width);
    assert field[0] == digits[0] && field[width - 1] == digits[width - 1];
    assert forall i :: width <= i < |field| ==> field[i] == tail[i - width];
    assert FirstDigit(field) == 0 && AfterLastDigit(field) == width;
    assert field[0..width] == digits;
  }

  // ----- header blocks

  function OctalField(v: nat, width: nat): (t: Text)
    ensures |t| == width + 1
  {
    OctalDigits(v, width) + [0]
  }

  function At(t: Text, i: int): Byte {
    if 0 <= i < |t| then t[i] else 0
  }

  /** A header byte before the checksum is known; the checksum field holds spaces. */
  function BlankHeaderByte(name: Text, kind: Byte, size: nat, i: nat): Byte {
    if i < 100 then At(name, i)
    else if i < 108 then At(OctalField(0x1A4, 7), i - 100)
    else if i < 116 then At(OctalField(0, 7), i - 108)
    else if i < 124 then At(OctalField(0, 7), i - 116)
    else if i < 136 then At(OctalField(size, 11), i - 124)
    else if i < 148 then At(OctalField(0, 11), i - 136)
    else if i < 156 then 32
    else if i == 156 then kind
    else if i < 257 then 0
    else if i < 263 then At(USTAR_MAGIC, i - 257)
    else if i < 265 then At(USTAR_VERSION, i - 263)
    else if i < 329 then 0
    else if i < 337 then At(OctalField(0, 7), i - 329)
    else if i < 345 then At(OctalField(0, 7), i - 337)
    else 0
  }

  function BlankHeader(name: Text, kind: Byte, size: nat): (t: Text)
    ensures |t| == BLOCK
    ensures forall i :: 0 <= i < BLOCK ==> t[i] == BlankHeaderByte(name, kind, size, i)
  {
    seq(BLOCK, i requires 0 <= i < BLOCK => BlankHeaderByte(name, kind, size, i))
  }

  function ChecksumField(sum: nat): (t: Text)
    ensures |t| == 8
  {
    OctalDigits(sum, 6) + [0, 32]
  }

  function Header(name: Text, kind: Byte, size: nat): (t: Text)
    ensures |t| == BLOCK
  {
    var blank := BlankHeader(name, kind, size);
    blank[..148] + ChecksumField(SumBytes(blank)) + blank[156..]
  }

  /** Writing the checksum does not change what the checksum covers, and it fits its six digits. */
  lemma ChecksumRoundTrip(name: Text, kind: Byte, size: nat)
    ensures var block := Header(name, kind, size);
            && SumBytes(Blanked(block)) < Pow8(6)
            && ParseOctal(block[148..156], false) == Success(SumBytes(Blanked(block)))
  {
    var blank := BlankHeader(name, kind, size);
    var block := Header(name, kind, size);
    assert Blanked(block) == blank;
    SumIsBounded(blank);
    Pow8Of21();
    assert block[148..156] == OctalDigits(SumBytes(blank), 6) + [0, 32];
    FieldRoundTrip(SumBytes(blank), 6, [0, 32], false);
  }

  lemma HeaderField(name: Text, kind: Byte, size: nat, lo: nat, hi: nat, field: Text)
    requires lo <= hi <= BLOCK && (hi <= 148 || 156 <= lo) && |field| == hi - lo
    requires forall i :: lo <= i < hi ==> BlankHeaderByte(name, kind, size, i) == field[i - lo]
    ensures Header(name, kind, size)[lo..hi] == field
  {
    var blank := BlankHeader(name, kind, size);
    var block := Header(name, kind, size);
    forall i | lo <= i < hi
      ensures block[i] == field[i - lo]
    {
      assert block[i] == blank[i];
    }
  }

  lemma ZeroFieldReadsEmpty(n: nat)
    ensures ParseTextField(Zeros(n)) == Success([])
  {
    assert FirstZero(Zeros(n)) == 0 || n == 0;
    assert Zeros(n)[..0] == [];
  }

  lemma TextRoundTrip(text: Text, n: nat)
    requires IsPlainText(text)
    ensures ParseTextField(text + Zeros(n)) == Success(text)
  {
    var field := text + Zeros(n);
    var end := FirstZero(field);
    forall i | 0 <= i < |text|
      ensures text[i] != 0
    {
      assert text[i] in text;
    }
    assert forall i :: 0 <= i < |text| ==> field[i] == text[i];
    assert n > 0 ==> field[|text|] == 0;
    assert end == |text|;
    assert field[..end] == text;
    assert field[end..] == Zeros(n);
  }

  lemma NumberFields(name: Text, kind: Byte, size: nat)
    ensures var block := Header(name, kind, size);
            && block[100..108] == OctalField(0x1A4, 7)
            && block[108..116] == OctalField(0, 7)
            && block[116..124] == OctalField(0, 7)
            && block[124..136] == OctalField(size, 11)
            && block[136..148] == OctalField(0, 11)
            && block[329..337] == OctalField(0, 7)
            && block[337..345] == OctalField(0, 7)
  {
    hide OctalDigits, Header;
    HeaderField(name, kind, size, 100, 108, OctalField(0x1A4, 7));
    HeaderField(name, kind, size, 108, 116, OctalField(0, 7));
    HeaderField(name, kind, size, 116, 124, OctalField(0, 7));
    HeaderField(name, kind, size, 124, 136, OctalField(size, 11));
    HeaderField(name, kind, size, 136, 148, OctalField(0, 11));
    HeaderField(name, kind, size, 329, 337, OctalField(0, 7));
    HeaderField(name, kind, size, 337, 345, OctalField(0, 7));
  }

  lemma EmptyFields(name: Text, kind: Byte, size: nat)
    ensures var block := Header(name, kind, size);
            && block[157..257] == Zeros(100)
            && block[265..297] == Zeros(32)
            && block[297..329] == Zeros(32)
            && block[500..] == Zeros(12)
  {
    HeaderField(name, kind, size, 157, 257, Zeros(100));
    HeaderField(name, kind, size, 265, 297, Zeros(32));
    HeaderField(name, kind, size, 297, 329, Zeros(32));
    HeaderField(name, kind, size, 500, 512, Zeros(12));
    var block := Header(name, kind, size);
    assert block[500..] == block[500..512];
  }

  lemma MetadataRoundTrip(name: Text, kind: Byte, size: nat)
    requires size < Pow8(11)
    ensures CheckMetadata(Header(name, kind, size)) == Success(size)
  {
    hide ParseOctal, ParseTextField, Header, OctalDigits;
    Pow8Of21();
    FieldRoundTrip(0x1A4, 7, [0], true);
    FieldRoundTrip(0, 7, [0], true);
    FieldRoundTrip(0, 11, [0], true);
    FieldRoundTrip(size, 11, [0], false);
    ZeroFieldReadsEmpty(32);
    ZeroFieldReadsEmpty(100);
    NumberFields(name, kind, size);
    EmptyFields(name, kind, size);
  }

  predicate IsFileKind(kind: Byte) {
    kind == 0 || kind == 48
  }

  function KindOf(kind: Byte): EntryKind {
    if IsFileKind(kind) then FileEntry else DirectoryEntry
  }

  /** The path a writer's member name denotes: one trailing slash of a directory name is dropped. */
  function NamedPath(name: Text, kind: Byte): Text {
    StripDirectorySlash(KindOf(kind), name)
  }

  ghost predicate Nameable(name: Text, kind: Byte) {
    0 < |name| <= NAME_BYTES && ValidPath(NamedPath(name, kind))
  }

  lemma NameIsPlain(name: Text, kind: Byte)
    requires Nameable(name, kind)
    ensures IsPlainText(name)
  {
    var path := NamedPath(name, kind);
    assert name == path || name == path + [SLASH];
    forall b | b in name
      ensures b < 128 && !IsControl(b)
    {
      assert b in path || b == SLASH;
    }
  }

  lemma PathRoundTrip(name: Text, kind: Byte, size: nat)
    requires Nameable(name, kind)
    ensures ParsePath(Header(name, kind, size), KindOf(kind)) == Success(NamedPath(name, kind))
  {
    var block := Header(name, kind, size);
    HeaderField(name, kind, size, 0, 100, name + Zeros(100 - |name|));
    HeaderField(name, kind, size, 345, 500, Zeros(155));
    assert block[..100] == block[0..100];
    NameIsPlain(name, kind);
    TextRoundTrip(name, 100 - |name|);
    ZeroFieldReadsEmpty(155);
  }

  /** Reading a written header gives back path, size and kind. */
  lemma HeaderRoundTrip(name: Text, kind: Byte, size: nat)
    requires Nameable(name, kind) && size < Pow8(11) && (IsFileKind(kind) || kind == 53)
    ensures ParseHeader(Header(name, kind, size)) == Success(ParsedHeader(NamedPath(name, kind), size, KindOf(kind)))
  {
    var block := Header(name, kind, size);
    ChecksumRoundTrip(name, kind, size);
    hide ParseOctal, CheckMetadata, ParsePath, SumBytes, Blanked, ValidPath, NamedPath;
    HeaderField(name, kind, size, 257, 263, USTAR_MAGIC);
    HeaderField(name, kind, size, 263, 265, USTAR_VERSION);
    HeaderField(name, kind, size, 156, 157, [kind]);
    assert block[156] == block[156..157][0];
    MetadataRoundTrip(name, kind, size);
    PathRoundTrip(name, kind, size);
  }

  // ----- facts about the real header reader the layout theorems ask for

  lemma HeaderReaderRefusesZeroBlock()
    ensures RefusesZeroBlock(ParseHeader)
  {
    forall b: Text | |b| == BLOCK && IsZero(b)
      ensures ParseHeader(b).Failure?
    {
      var field := b[148..156];
      assert forall i :: 0 <= i < 8 ==> field[i] == 0 by {
        forall i | 0 <= i < 8
          ensures field[i] == 0
        {
          assert field[i] == b[148 + i] && b[148 + i] in b;
        }
      }
      assert FirstDigit(field) == 8;
    }
  }

  lemma OctalReportsNoLimit(field: Text, allowEmpty: bool)
    ensures ParseOctal(field, allowEmpty) != Failure(MetadataLimitExceeded)
  {
    hide CheckedOctal, FirstDigit, AfterLastDigit;
  }

  lemma TextReportsNoLimit(field: Text)
    ensures ParseTextField(field) != Failure(MetadataLimitExceeded)
  {
    hide FirstZero, IsPlainText;
  }

  lemma SignatureReportsNoLimit(block: Text)
    requires |block| == BLOCK
    ensures CheckSignature(block) != Some(MetadataLimitExceeded)
  {
    hide ParseOctal, SumBytes, Blanked;
    OctalReportsNoLimit(block[148..156], false);
  }

  lemma MetadataReportsNoLimit(block: Text)
    requires |block| == BLOCK
    ensures CheckMetadata(block) != Failure(MetadataLimitExceeded)
  {
    hide ParseOctal, ParseTextField;
    OctalReportsNoLimit(block[100..108], true);
    OctalReportsNoLimit(block[108..116], true);
    OctalReportsNoLimit(block[116..124], true);
    OctalReportsNoLimit(block[136..148], true);
    OctalReportsNoLimit(block[124..136], false);
    OctalReportsNoLimit(block[329..337], true);
    OctalReportsNoLimit(block[337..345], true);
    TextReportsNoLimit(block[265..297]);
    TextReportsNoLimit(block[297..329]);
    TextReportsNoLimit(block[157..257]);
  }

  lemma PathReportsNoLimit(block: Text, kind: EntryKind)
    requires |block| == BLOCK
    ensures ParsePath(block, kind) != Failure(MetadataLimitExceeded)
  {
    hide ParseTextField, ValidPath, StripDirectorySlash;
    TextReportsNoLimit(block[..100]);
    TextReportsNoLimit(block[345..500]);
  }

  lemma HeaderReaderReportsNoLimit(block: Text)
    ensures ParseHeader(block) != Failure(MetadataLimitExceeded)
  {
    hide CheckSignature, CheckMetadata, ParsePath;
    if |block| == BLOCK {
      SignatureReportsNoLimit(block);
      MetadataReportsNoLimit(block);
      PathReportsNoLimit(block, FileEntry);
      PathReportsNoLimit(block, DirectoryEntry);
    }
  }

  // ----- whole archives

  /** One writer entry: member name, type byte and data. */
  datatype Entry = Entry(name: Text, kind: Byte, data: Text)

  function ToMember(e: Entry): Member {
    Member(Header(e.name, e.kind, |e.data|), e.data)
  }

  function Members(es: seq<Entry>): (ms: seq<Member>)
    ensures |ms| == |es|
    ensures forall i :: 0 <= i < |es| ==> ms[i] == ToMember(es[i])
  {
    seq(|es|, i requires 0 <= i < |es| => ToMember(es[i]))
  }

  /** `build_archive`: headers, data and padding in order, then two zero blocks. */
  method BuildArchive(es: seq<Entry>) returns (archive: Text)
    ensures archive == Build(es)
  {
    archive := [];
    assert TileAll(Members(es)[..0]) == [];
    for i := 0 to |es|
      invariant archive == TileAll(Members(es)[..i])
    {
      var data := es[i].data;
      ghost var before := archive;
      archive := archive + Header(es[i].name, es[i].kind, |data|);
      archive := archive + data;
      archive := archive + Zeros(Padded(|data|) - |data|);
      assert archive == before + Tile(Members(es)[i]);
      TileAllSnoc(Members(es)[..i], Members(es)[i]);
      assert Members(es)[..i] + [Members(es)[i]] == Members(es)[..i + 1];
    }
    assert Members(es)[..|es|] == Members(es);
    archive := archive + Zeros(2 * BLOCK);
  }

  function Build(es: seq<Entry>): Text {
    TileAll(Members(es)) + Zeros(2 * BLOCK)
  }

  lemma {:induction false} TileAllSnoc(ms: seq<Member>, m: Member)
    ensures TileAll(ms + [m]) == TileAll(ms) + Tile(m)
  {
    if ms == [] {
      assert ms + [m] == [m];
      assert TileAll([m][1..]) == [];
    } else {
      assert (ms + [m])[1..] == ms[1..] + [m];
      TileAllSnoc(ms[1..], m);
    }
  }

  function EntryPath(e: Entry): Text {
    NamedPath(e.name, e.kind)
  }

  function FileBytes(es: seq<Entry>): nat {
    if es == [] then 0 else (if IsFileKind(es[0].kind) then |es[0].data| else 0) + FileBytes(es[1..])
  }

  function FileEntries(es: seq<Entry>): seq<CandidateFile> {
    if es == [] then []
    else (if IsFileKind(es[0].kind) then [CandidateFile(EntryPath(es[0]), es[0].data)] else []) + FileEntries(es[1..])
  }

  ghost predicate WritableEntry(e: Entry) {
    && (IsFileKind(e.kind) || e.kind == 53)
    && Nameable(e.name, e.kind)
    && (e.kind == 53 ==> e.data == [])
    && |e.data| <= MAX_BUNDLE_FILE_BYTES
  }

  /**
   An entry list for manifest `m`: declared paths only, no ASCII-case collision, every
   file covered, within limits.
   */
  ghost predicate Writable(es: seq<Entry>, m: BundleManifest) {
    && ExpectedTree(m).Success?
    && |es| <= MAX_USTAR_ENTRIES
    && FileBytes(es) <= MAX_BUNDLE_EXPANDED_BYTES
    && (forall i :: 0 <= i < |es| ==>
          && WritableEntry(es[i])
          && Nesting(EntryPath(es[i])) <= MAX_USTAR_NESTING
          && Contains(TreeOf(m), EntryPath(es[i]), KindOf(es[i].kind)))
    && (forall i, j :: 0 <= i < j < |es| ==> LowerCase(EntryPath(es[i])) != LowerCase(EntryPath(es[j])))
    && Paths(m) <= CandidatePaths(FileEntries(es))
  }

  lemma EntryReads(e: Entry)
    requires WritableEntry(e)
    ensures ReadsAs(ParseHeader, ToMember(e))
    ensures ParseHeader(ToMember(e).header) == Success(ParsedHeader(EntryPath(e), |e.data|, KindOf(e.kind)))
  {
    Pow8Of21();
    HeaderRoundTrip(e.name, e.kind, |e.data|);
  }

  lemma {:induction false} EntriesRead(es: seq<Entry>)
    requires forall i :: 0 <= i < |es| ==> WritableEntry(es[i])
    ensures Readable(ParseHeader, Members(es))
    ensures FilesOf(ParseHeader, Members(es)) == FileEntries(es)
    ensures Payload(ParseHeader, Members(es)) == FileBytes(es)
  {
    forall i | 0 <= i < |es|
      ensures ReadsAs(ParseHeader, Members(es)[i])
    {
      EntryReads(es[i]);
    }
    if es != [] {
      EntryReads(es[0]);
      EntriesRead(es[1..]);
      assert Members(es)[1..] == Members(es[1..]);
    }
  }

  lemma BuiltIsArchive(es: seq<Entry>, m: BundleManifest)
    requires Writable(es, m)
    ensures IsArchiveOf(ParseHeader, Build(es), Members(es), m, DEFAULT_PARSER_LIMITS)
    ensures FilesOf(ParseHeader, Members(es)) == FileEntries(es)
    ensures |Build(es)| == |TileAll(Members(es))| + 2 * BLOCK
  {
    hide ParseHeader, Header, ValidPath, TileAll, Admissible, FilesOf, FileEntries, ExpectedTree, ToMember;
    var ms := Members(es);
    EntriesRead(es);
    BuiltIsAdmissible(es, m);
    TiledLength(ParseHeader, ms, TreeOf(m), DEFAULT_PARSER_LIMITS, START);
  }

  lemma BuiltIsAdmissible(es: seq<Entry>, m: BundleManifest)
    requires Writable(es, m) && Readable(ParseHeader, Members(es))
    requires Payload(ParseHeader, Members(es)) == FileBytes(es)
    ensures Admissible(ParseHeader, Members(es), TreeOf(m), DEFAULT_PARSER_LIMITS, START)
  {
    hide ParseHeader, ValidPath, FilesOf, FileEntries, ToMember, FitsTree, Nameable, TreeOf, Contains, LowerCase,
         EntryPath, Readable, Payload, FileBytes;
    var ms := Members(es);
    forall i | 0 <= i < |ms|
      ensures ReadsAs(ParseHeader, ms[i]) && FitsTree(ParseHeader, ms[i], TreeOf(m), DEFAULT_PARSER_LIMITS)
      ensures KeyOf(ParseHeader, ms[i]) == LowerCase(EntryPath(es[i]))
    {
      WritableFits(es[i], TreeOf(m));
    }
  }

  lemma WritableFits(e: Entry, tree: ArchiveTree)
    requires WritableEntry(e) && Nesting(EntryPath(e)) <= MAX_USTAR_NESTING
             && Contains(tree, EntryPath(e), KindOf(e.kind))
    ensures ReadsAs(ParseHeader, ToMember(e))
    ensures FitsTree(ParseHeader, ToMember(e), tree, DEFAULT_PARSER_LIMITS)
    ensures KeyOf(ParseHeader, ToMember(e)) == LowerCase(EntryPath(e))
  {
    hide ParseHeader, ToMember, EntryPath, Nameable;
    EntryReads(e);
  }

  lemma BuiltIsNotCompressed(es: seq<Entry>, m: BundleManifest)
    requires Writable(es, m)
    ensures NewSource(Build(es)) == Success(Build(es))
  {
    hide ParseHeader, Header, WritableEntry, Admissible, IsArchiveOf;
    BuiltIsArchive(es, m);
    LimitsFitInputBound(ParseHeader, Build(es), Members(es), m);
    if es == [] {
      assert Build(es)[0] == 0;
    } else {
      EntryReads(es[0]);
      FirstBlock(es);
    }
  }

  lemma FirstBlock(es: seq<Entry>)
    requires es != []
    ensures |Build(es)| >= BLOCK && Build(es)[..BLOCK] == ToMember(es[0]).header
  {
    hide Header;
    assert Tile(Members(es)[0])[..BLOCK] == ToMember(es[0]).header;
  }

  /** Every writable archive is taken for what it is and reads back as its file entries, in order, byte for byte. */
  lemma ArchiveRoundTrip(es: seq<Entry>, m: BundleManifest)
    requires Writable(es, m)
    ensures NewSource(Build(es)) == Success(Build(es))
    ensures Parse(Build(es), m) == Success(FileEntries(es))
  {
    hide ParseHeader, IsArchiveOf, Writable, ParseWith, Build, NewSource, FilesOf, FileEntries;
    BuiltIsArchive(es, m);
    BuiltIsNotCompressed(es, m);
    HeaderReaderRefusesZeroBlock();
    ArchiveImpliesParse(ParseHeader, Build(es), Members(es), m, DEFAULT_PARSER_LIMITS);
  }

  /** With the real header reader and the default limits, the metadata bound can never be the reported failure. */
  lemma ParseNeverReportsMetadataLimit(archive: Text, m: BundleManifest)
    ensures Parse(archive, m) != Failure(MetadataLimitExceeded)
  {
    hide ParseHeader, ParseRest, ExpectedTree;
    forall block
      ensures ParseHeader(block) != Failure(MetadataLimitExceeded)
    {
      HeaderReaderReportsNoLimit(block);
    }
    TreeReportsNoLimit(m);
    MetadataLimitIsSlack(ParseHeader, archive, TreeOf(m), START);
  }

  lemma TreeReportsNoLimit(m: BundleManifest)
    ensures ExpectedTree(m) != Failure(MetadataLimitExceeded)
    ensures ExpectedTree(m).Success? ==> ExpectedTree(m).value == TreeOf(m)
  {
  }
}
