/** The 512-byte ustar header: its fields and how strictly they are read. */
module UstarHeader {
  import opened Bytes
  import opened Distribution

  const BLOCK: nat := 512
  const NAME_BYTES: nat := 100
  datatype EntryKind = FileEntry | DirectoryEntry

  datatype ParsedHeader = ParsedHeader(path: Text, size: nat, kind: EntryKind)

  datatype ArchiveError =
    | ArchiveTooLarge
    | CompressedArchiveUnsupported
    | TruncatedArchive
    | TrailingData
    | MalformedHeader
    | HeaderChecksumMismatch
    | UnsupportedArchiveFormat
    | UnsupportedMetadata
    | UnsupportedEntryType
    | BadEntryName
    | PathCollision(path: Text)
    | Undeclared(path: Text)
    | MissingDeclared(path: Text)
    | EntryTooLarge(path: Text)
    | TooManyEntries
    | MetadataLimitExceeded
    | NestingLimitExceeded(path: Text)
    | ExpandedBytesLimitExceeded

  // ----- octal fields

  predicate IsPad(b: Byte) {
    b == 0 || b == 32
  }

  function FirstDigit(field: Text): (i: nat)
    ensures i <= |field| && (i < |field| ==> !IsPad(field[i])) && forall j :: 0 <= j < i ==> IsPad(field[j])
  {
    if field == [] || !IsPad(field[0]) then 0 else 1 + FirstDigit(field[1..])
  }

  function AfterLastDigit(field: Text): (i: nat)
    ensures i <= |field| && (i > 0 ==> !IsPad(field[i - 1])) && forall j :: i <= j < |field| ==> IsPad(field[j])
  {
    if field == [] || !IsPad(field[|field| - 1]) then |field| else AfterLastDigit(field[..|field| - 1])
  }

  function DigitValue(b: Byte): nat {
    if b < 48 then 0 else b - 48
  }

  /** The left fold with checked multiplication and addition. */
  function CheckedOctal(digits: Text): Option<nat> {
    if digits == [] then Some(0)
    else
      match CheckedOctal(digits[..|digits| - 1])
      case None => None
      case Some(v) =>
        var next := v * 8 + DigitValue(digits[|digits| - 1]);
        if v * 8 > U64_MAX || next > U64_MAX then None else Some(next)
  }

  function ParseOctal(field: Text, allowEmpty: bool): Result<nat, ArchiveError> {
    var start := FirstDigit(field);
    var end := if start == |field| then start else AfterLastDigit(field);
    if start >= end then
      if allowEmpty then Success(0) else Failure(MalformedHeader)
    else
      var digits := field[start..end];
      if exists d :: d in digits && !(48 <= d <= 55) then Failure(UnsupportedMetadata)
      else match CheckedOctal(digits) case None => Failure(UnsupportedMetadata) case Some(v) => Success(v)
  }

  function Pow8(n: nat): (p: nat)
    ensures p > 0
  {
    if n == 0 then 1 else 8 * Pow8(n - 1)
  }

  /** Fields of at most 21 digits cannot leave the 64-bit range, so the checks never fire on a header. */
  lemma {:induction false} OctalFits(digits: Text)
    requires |digits| <= 21 && forall i :: 0 <= i < |digits| ==> 48 <= digits[i] <= 55
    ensures CheckedOctal(digits).Some? && CheckedOctal(digits).value < Pow8(|digits|)
  {
    if digits != [] {
      var rest := digits[..|digits| - 1];
      OctalFits(rest);
      Pow8Monotone(|digits|, 21);
      assert Pow8(21) == 0x8000_0000_0000_0000 by {
        Pow8Of21();
      }
    }
  }

  lemma {:induction false} Pow8Monotone(a: nat, b: nat)
    requires a <= b
    ensures Pow8(a) <= Pow8(b)
    decreases b
  {
    if a < b {
      Pow8Monotone(a, b - 1);
    }
  }

  lemma Pow8Of21()
    ensures Pow8(6) == 262_144 && Pow8(7) == 2_097_152 && Pow8(11) == 8_589_934_592 && Pow8(21) == 0x8000_0000_0000_0000
  {
    assert Pow8(3) == 512;
    assert Pow8(6) == 262_144;
    assert Pow8(9) == 134_217_728;
    assert Pow8(12) == 68_719_476_736;
    assert Pow8(15) == 35_184_372_088_832;
    assert Pow8(18) == 18_014_398_509_481_984;
  }

  // ----- text fields

  function FirstZero(field: Text): (i: nat)
    ensures i <= |field| && (i < |field| ==> field[i] == 0) && forall j :: 0 <= j < i ==> field[j] != 0
  {
    if field == [] || field[0] == 0 then 0 else 1 + FirstZero(field[1..])
  }

  predicate IsPlainText(t: Text) {
    forall b :: b in t ==> b < 128 && !IsControl(b)
  }

  function ParseTextField(field: Text): Result<Text, ArchiveError> {
    var end := FirstZero(field);
    if exists b :: b in field[end..] && b != 0 then Failure(UnsupportedMetadata)
    else if !IsPlainText(field[..end]) then Failure(UnsupportedMetadata)
    else Success(field[..end])
  }

  // ----- headers

  function SumBytes(t: Text): nat {
    if t == [] then 0 else SumBytes(t[..|t| - 1]) + t[|t| - 1]
  }

  /** The header as the checksum sees it: its own field reads as spaces. */
  function Blanked(block: Text): (t: Text)
    ensures |t| == |block|
  {
    seq(|block|, i requires 0 <= i < |block| => if 148 <= i < 156 then 32 else block[i])
  }

  lemma {:induction false} SumIsBounded(t: Text)
    ensures SumBytes(t) <= 255 * |t|
  {
    if t != [] {
      SumIsBounded(t[..|t| - 1]);
    }
  }

  const USTAR_MAGIC: Text := [117, 115, 116, 97, 114, 0]
  const USTAR_VERSION: Text := [48, 48]

  function ParseKind(b: Byte): Result<EntryKind, ArchiveError> {
    if b == 0 || b == 48 then Success(FileEntry)
    else if b == 53 then Success(DirectoryEntry)
    else if b == 120 || b == 103 || b == 76 || b == 75 then Failure(UnsupportedMetadata)
    else Failure(UnsupportedEntryType)
  }

  /** The checks between the magic and the entry type. */
  function CheckMetadata(block: Text): Result<nat, ArchiveError>
    requires |block| == BLOCK
  {
    if exists b :: b in block[500..] && b != 0 then Failure(UnsupportedMetadata)
    else
      var _ :- ParseOctal(block[100..108], true);
      var _ :- ParseOctal(block[108..116], true);
      var _ :- ParseOctal(block[116..124], true);
      var _ :- ParseOctal(block[136..148], true);
      var size :- ParseOctal(block[124..136], false);
      var major :- ParseOctal(block[329..337], true);
      var minor :- ParseOctal(block[337..345], true);
      if major != 0 || minor != 0 then Failure(UnsupportedMetadata)
      else
        var _ :- ParseTextField(block[265..297]);
        var _ :- ParseTextField(block[297..329]);
        var linkName :- ParseTextField(block[157..257]);
        if linkName != [] then Failure(UnsupportedMetadata) else Success(size)
  }

  function JoinName(prefix: Text, name: Text): Text {
    if prefix == [] then name else prefix + [SLASH] + name
  }

  function StripDirectorySlash(kind: EntryKind, joined: Text): Text {
    if kind.DirectoryEntry? && joined != [] && joined[|joined| - 1] == SLASH then joined[..|joined| - 1] else joined
  }

  function ParsePath(block: Text, kind: EntryKind): (r: Result<Text, ArchiveError>)
    requires |block| == BLOCK
    ensures r.Success? ==> ValidPath(r.value)
  {
    var name :- ParseTextField(block[..100]);
    if name == [] then Failure(BadEntryName)
    else
      var prefix :- ParseTextField(block[345..500]);
      var path := StripDirectorySlash(kind, JoinName(prefix, name));
      if ValidPath(path) then Success(path) else Failure(BadEntryName)
  }

  /** The checksum and the format's signature. */
  function CheckSignature(block: Text): Option<ArchiveError>
    requires |block| == BLOCK
  {
    var expected := ParseOctal(block[148..156], false);
    if expected.Failure? then Some(expected.error)
    else if expected.value != SumBytes(Blanked(block)) then Some(HeaderChecksumMismatch)
    else if block[257..263] != USTAR_MAGIC || block[263..265] != USTAR_VERSION then Some(UnsupportedArchiveFormat)
    else None
  }

  function ParseHeader(block: Text): Result<ParsedHeader, ArchiveError> {
    if |block| != BLOCK then Failure(MalformedHeader)
    else
      var problem := CheckSignature(block);
      if problem.Some? then Failure(problem.value)
      else
        var size :- CheckMetadata(block);
        var kind :- ParseKind(block[156]);
        var path :- ParsePath(block, kind);
        Success(ParsedHeader(path, size, kind))
  }
}
