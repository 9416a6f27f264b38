/** What an accepted header block is, byte for byte, without reference to the reader. */
module UstarFormat {
  import opened Bytes
  import opened Distribution
  import opened UstarHeader
  import opened Ustar
  import opened UstarLayout

  // ----- numbers

  predicate AllPad(t: Text) {
    forall i :: 0 <= i < |t| ==> t[i] == 0 || t[i] == 32
  }

  predicate AllOctal(t: Text) {
    forall i :: 0 <= i < |t| ==> 48 <= t[i] <= 55
  }

  /** The value of octal digits, the first one the most significant. */
  function OctalNumber(digits: Text): nat
    requires AllOctal(digits)
  {
    if digits == [] then 0 else (digits[0] - 48) * Pow8(|digits| - 1) + OctalNumber(digits[1..])
  }

  lemma OctalFront(digits: Text)
    requires AllOctal(digits) && digits != []
    ensures OctalNumber(digits) == (digits[0] - 48) * Pow8(|digits| - 1) + OctalNumber(digits[1..])
  {
  }

  lemma EightTimes(d: int, n: nat)
    requires n > 0
    ensures d * Pow8(n) == 8 * (d * Pow8(n - 1))
  {
    assert Pow8(n) == 8 * Pow8(n - 1);
  }

  lemma {:induction false} OctalNumberSnoc(digits: Text)
    requires AllOctal(digits) && digits != []
    ensures OctalNumber(digits) == 8 * OctalNumber(digits[..|digits| - 1]) + digits[|digits| - 1] - 48
  {
    var n := |digits| - 1;
    if n == 0 {
      assert digits[..0] == [] && digits[1..] == [];
    } else {
      OctalFront(digits);
      OctalFront(digits[..n]);
      OctalNumberSnoc(digits[1..]);
      hide OctalNumber, Pow8;
      EightTimes(digits[0] - 48, n);
      assert digits[1..][..n - 1] == digits[..n][1..];
    }
  }

  /** The checked fold computes the number, or refuses it for leaving the 64-bit range. */
  lemma {:induction false} FoldIsNumber(digits: Text)
    requires AllOctal(digits)
    ensures CheckedOctal(digits) == if OctalNumber(digits) <= U64_MAX then Some(OctalNumber(digits)) else None
  {
    if digits != [] {
      FoldIsNumber(digits[..|digits| - 1]);
      OctalNumberSnoc(digits);
    }
  }

  /** Octal digits from `i` to `j`, and padding around them. */
  ghost predicate Frames(field: Text, i: nat, j: nat, v: nat) {
    && i < j <= |field|
    && AllPad(field[..i]) && AllOctal(field[i..j]) && AllPad(field[j..])
    && OctalNumber(field[i..j]) == v
  }

  ghost predicate NumberIn(field: Text, v: nat) {
    exists i: nat, j: nat :: Frames(field, i, j, v)
  }

  lemma FrameIsFound(field: Text, i: nat, j: nat, v: nat)
    requires Frames(field, i, j, v)
    ensures FirstDigit(field) == i && AfterLastDigit(field) == j
  {
    hide OctalNumber;
    assert field[i..j][0] == field[i] && field[i..j][j - i - 1] == field[j - 1];
    assert !IsPad(field[i]) && !IsPad(field[j - 1]);
    forall k | 0 <= k < i
      ensures IsPad(field[k])
    {
      assert field[..i][k] == field[k];
    }
    forall k | j <= k < |field|
      ensures IsPad(field[k])
    {
      assert field[j..][k - j] == field[k];
    }
  }

  lemma FoundIsFrame(field: Text)
    requires FirstDigit(field) < |field|
    ensures FirstDigit(field) < AfterLastDigit(field)
    ensures AllPad(field[..FirstDigit(field)]) && AllPad(field[AfterLastDigit(field)..])
  {
  }

  lemma AllPadHasNoDigit(field: Text)
    ensures AllPad(field) <==> FirstDigit(field) == |field|
  {
    var i := FirstDigit(field);
    if i < |field| {
      assert !IsPad(field[i]);
    }
  }

  /** A numeric field is read exactly as the octal number between its padding, or as nothing where it may be empty. */
  lemma OctalDecides(field: Text, allowEmpty: bool, v: nat)
    ensures ParseOctal(field, allowEmpty) == Success(v) <==>
            (NumberIn(field, v) && v <= U64_MAX) || (allowEmpty && AllPad(field) && v == 0)
  {
    hide CheckedOctal, OctalNumber;
    AllPadHasNoDigit(field);
    var i, j := FirstDigit(field), AfterLastDigit(field);
    if NumberIn(field, v) {
      var a: nat, b: nat :| Frames(field, a, b, v);
      FrameIsFound(field, a, b, v);
      FoldIsNumber(field[i..j]);
    }
    if i < |field| {
      FoundIsFrame(field);
      if AllOctal(field[i..j]) {
        FoldIsNumber(field[i..j]);
        assert Frames(field, i, j, OctalNumber(field[i..j]));
      }
    }
  }

  // ----- texts

  /** Printable ASCII from the start of the field, and zeros after it. */
  ghost predicate TextIn(field: Text, t: Text) {
    && |t| <= |field| && field[..|t|] == t
    && (forall i :: 0 <= i < |t| ==> 32 <= t[i] <= 126)
    && (forall i :: |t| <= i < |field| ==> field[i] == 0)
  }

  lemma TextEnds(field: Text, t: Text)
    requires TextIn(field, t)
    ensures FirstZero(field) == |t|
  {
    var end := FirstZero(field);
    assert forall i :: 0 <= i < |t| ==> field[i] == t[i];
    if |t| < |field| {
      assert field[|t|] == 0;
    }
  }

  lemma ReadTextIsThere(field: Text, t: Text)
    requires ParseTextField(field) == Success(t)
    ensures TextIn(field, t)
  {
    var end := FirstZero(field);
    forall i | end <= i < |field|
      ensures field[i] == 0
    {
      assert field[end..][i - end] == field[i] && field[i] in field[end..];
    }
    forall i | 0 <= i < |t|
      ensures 32 <= t[i] <= 126
    {
      assert t[i] in t;
    }
  }

  lemma ThereIsReadText(field: Text, t: Text)
    requires TextIn(field, t)
    ensures ParseTextField(field) == Success(t)
  {
    TextEnds(field, t);
    assert forall b :: b in field[|t|..] ==> b == 0;
    assert forall b :: b in t ==> b < 128 && !IsControl(b);
  }

  lemma TextDecides(field: Text, t: Text)
    ensures ParseTextField(field) == Success(t) <==> TextIn(field, t)
  {
    if TextIn(field, t) {
      ThereIsReadText(field, t);
    } else if ParseTextField(field) == Success(t) {
      ReadTextIsThere(field, t);
    }
  }

  // ----- the checksum

  function Total(t: Text): nat {
    if t == [] then 0 else t[0] + Total(t[1..])
  }

  /** What the checksum has to be: every byte outside its own field, and a space for each of its eight. */
  function Covered(block: Text): nat
    requires |block| == BLOCK
  {
    Total(block[..148]) + 8 * 32 + Total(block[156..])
  }

  lemma {:induction false} TotalConcat(a: Text, b: Text)
    ensures Total(a + b) == Total(a) + Total(b)
  {
    if a == [] {
      assert a + b == b;
    } else {
      assert (a + b)[1..] == a[1..] + b;
      TotalConcat(a[1..], b);
    }
  }

  lemma {:induction false} SumIsTotal(t: Text)
    ensures SumBytes(t) == Total(t)
  {
    if t != [] {
      var n := |t| - 1;
      SumIsTotal(t[..n]);
      TotalConcat(t[..n], [t[n]]);
      assert t == t[..n] + [t[n]];
      assert Total([t[n]]) == t[n];
    }
  }

  const SPACES: Text := [32, 32, 32, 32, 32, 32, 32, 32]

  lemma BlankedSum(block: Text)
    requires |block| == BLOCK
    ensures SumBytes(Blanked(block)) == Covered(block)
  {
    hide SumBytes, Total;
    var head, tail := block[..148], block[156..];
    assert Blanked(block) == head + SPACES + tail;
    SumIsTotal(Blanked(block));
    TotalConcat(head + SPACES, tail);
    TotalConcat(head, SPACES);
    SpacesTotal();
  }

  lemma SpacesTotal()
    ensures Total(SPACES) == 8 * 32
  {
    assert Total([32]) == 32;
    TotalConcat([32], [32]);
    TotalConcat([32, 32], [32, 32]);
    TotalConcat([32, 32, 32, 32], [32, 32, 32, 32]);
    assert [32] + [32] == [32, 32];
    assert [32, 32] + [32, 32] == [32, 32, 32, 32];
    assert [32, 32, 32, 32] + [32, 32, 32, 32] == SPACES;
  }

  // ----- the block

  ghost predicate OptionalNumberIn(field: Text, v: nat) {
    NumberIn(field, v) || (AllPad(field) && v == 0)
  }

  /** Mode, owners and time may be anything readable. */
  ghost predicate OwnersIn(block: Text)
    requires |block| == BLOCK
  {
    && (forall i :: 500 <= i < BLOCK ==> block[i] == 0)
    && (exists v: nat :: OptionalNumberIn(block[100..108], v))
    && (exists v: nat :: OptionalNumberIn(block[108..116], v))
    && (exists v: nat :: OptionalNumberIn(block[116..124], v))
    && (exists v: nat :: OptionalNumberIn(block[136..148], v))
  }

  /** Devices are zero, owner names are readable, and nothing is linked to. */
  ghost predicate OriginIn(block: Text)
    requires |block| == BLOCK
  {
    && OptionalNumberIn(block[329..337], 0) && OptionalNumberIn(block[337..345], 0)
    && (exists user :: TextIn(block[265..297], user)) && (exists group :: TextIn(block[297..329], group))
    && TextIn(block[157..257], [])
  }

  /** The name, after the prefix and a slash if there is one, less one trailing slash of a directory. */
  ghost predicate Names(block: Text, kind: EntryKind, path: Text, prefix: Text, name: Text)
    requires |block| == BLOCK
  {
    && TextIn(block[..100], name) && name != [] && TextIn(block[345..500], prefix)
    && ValidPath(path)
    && var joined := if prefix == [] then name else prefix + [SLASH] + name;
       if kind.DirectoryEntry? && joined[|joined| - 1] == SLASH then path + [SLASH] == joined else path == joined
  }

  /** A block that stands for `h`, said without the reader. */
  ghost predicate IsHeader(block: Text, h: ParsedHeader) {
    && |block| == 512
    && block[257..265] == Ascii("ustar") + [0] + Ascii("00")
    && NumberIn(block[148..156], Covered(block))
    && OwnersIn(block) && NumberIn(block[124..136], h.size) && OriginIn(block)
    && (block[156] == 0 || block[156] in Ascii("05"))
    && h.kind == (if block[156] == '5' as int then DirectoryEntry else FileEntry)
    && exists prefix, name :: Names(block, h.kind, h.path, prefix, name)
  }

  // ----- the reader against it

  lemma FieldDecides(field: Text, v: nat)
    requires |field| <= 21
    ensures ParseOctal(field, false) == Success(v) <==> NumberIn(field, v)
    ensures ParseOctal(field, true) == Success(v) <==> OptionalNumberIn(field, v)
  {
    hide ParseOctal, NumberIn, AllPad;
    OctalDecides(field, false, v);
    OctalDecides(field, true, v);
    if NumberIn(field, v) {
      NumberFits(field, v);
    }
  }

  lemma NumberFits(field: Text, v: nat)
    requires |field| <= 21 && NumberIn(field, v)
    ensures v <= U64_MAX
  {
    hide OctalNumber, CheckedOctal;
    var i: nat, j: nat :| Frames(field, i, j, v);
    OctalFits(field[i..j]);
    FoldIsNumber(field[i..j]);
  }

  /** A field holds one number at most. */
  lemma NumberIsUnique(field: Text, v: nat, w: nat)
    requires NumberIn(field, v) && NumberIn(field, w)
    ensures v == w
  {
    hide OctalNumber;
    var i: nat, j: nat :| Frames(field, i, j, v);
    var a: nat, b: nat :| Frames(field, a, b, w);
    FrameIsFound(field, i, j, v);
    FrameIsFound(field, a, b, w);
  }

  lemma ReadableDecides(field: Text)
    requires |field| <= 21
    ensures ParseOctal(field, true).Success? <==> exists v: nat :: OptionalNumberIn(field, v)
    ensures ParseOctal(field, true).Failure? ==> ParseOctal(field, true) == Failure(UnsupportedMetadata)
  {
    var r := ParseOctal(field, true);
    if r.Success? {
      FieldDecides(field, r.value);
    }
    if exists v: nat :: OptionalNumberIn(field, v) {
      var v: nat :| OptionalNumberIn(field, v);
      FieldDecides(field, v);
    }
  }

  lemma RequiredDecides(field: Text)
    requires |field| <= 21
    ensures ParseOctal(field, false).Success? <==> exists v: nat :: NumberIn(field, v)
    ensures ParseOctal(field, false).Failure? ==>
              ParseOctal(field, false).error == if AllPad(field) then MalformedHeader else UnsupportedMetadata
  {
    var r := ParseOctal(field, false);
    AllPadHasNoDigit(field);
    if FirstDigit(field) < |field| {
      FoundIsFrame(field);
    }
    if r.Success? {
      FieldDecides(field, r.value);
    }
    hide ParseOctal, NumberIn, AllPad;
    if exists v: nat :: NumberIn(field, v) {
      var v: nat :| NumberIn(field, v);
      FieldDecides(field, v);
    }
  }

  lemma ReadableText(field: Text)
    ensures ParseTextField(field).Success? <==> exists t :: TextIn(field, t)
    ensures ParseTextField(field).Failure? ==> ParseTextField(field) == Failure(UnsupportedMetadata)
  {
    var r := ParseTextField(field);
    if r.Success? {
      TextDecides(field, r.value);
    }
    if exists t :: TextIn(field, t) {
      var t :| TextIn(field, t);
      TextDecides(field, t);
    }
  }

  // ----- the reader against the block

  lemma OwnersDecide(block: Text)
    requires |block| == BLOCK
    ensures OwnersIn(block) <==>
            && !(exists b :: b in block[500..] && b != 0)
            && ParseOctal(block[100..108], true).Success? && ParseOctal(block[108..116], true).Success?
            && ParseOctal(block[116..124], true).Success? && ParseOctal(block[136..148], true).Success?
  {
    hide ParseOctal, OptionalNumberIn;
    ReadableDecides(block[100..108]);
    ReadableDecides(block[108..116]);
    ReadableDecides(block[116..124]);
    ReadableDecides(block[136..148]);
    ZeroTail(block);
  }

  lemma ZeroTail(block: Text)
    requires |block| == BLOCK
    ensures (forall i :: 500 <= i < BLOCK ==> block[i] == 0) <==> !(exists b :: b in block[500..] && b != 0)
  {
    forall i | 500 <= i < BLOCK
      ensures block[i] in block[500..]
    {
      assert block[500..][i - 500] == block[i];
    }
  }

  lemma OriginDecides(block: Text)
    requires |block| == BLOCK
    ensures OriginIn(block) <==>
            && ParseOctal(block[329..337], true) == Success(0) && ParseOctal(block[337..345], true) == Success(0)
            && ParseTextField(block[265..297]).Success? && ParseTextField(block[297..329]).Success?
            && ParseTextField(block[157..257]) == Success([])
  {
    hide ParseOctal, ParseTextField, OptionalNumberIn, TextIn;
    FieldDecides(block[329..337], 0);
    FieldDecides(block[337..345], 0);
    ReadableText(block[265..297]);
    ReadableText(block[297..329]);
    TextDecides(block[157..257], []);
  }

  /** The middle of a header is read exactly if it is in order. */
  lemma MetadataDecides(block: Text, size: nat)
    requires |block| == BLOCK
    ensures CheckMetadata(block) == Success(size) <==>
            OwnersIn(block) && NumberIn(block[124..136], size) && OriginIn(block)
  {
    hide ParseOctal, ParseTextField, OwnersIn, OriginIn, NumberIn, AllPad;
    OwnersDecide(block);
    OriginDecides(block);
    FieldDecides(block[124..136], size);
  }

  /** Only an empty size is called malformed. */
  lemma MetadataFailure(block: Text)
    requires |block| == BLOCK && CheckMetadata(block).Failure?
    ensures CheckMetadata(block).error
            == if OwnersIn(block) && AllPad(block[124..136]) then MalformedHeader else UnsupportedMetadata
  {
    hide ParseOctal, ParseTextField, OwnersIn, NumberIn, OptionalNumberIn, TextIn, AllPad;
    OwnersDecide(block);
    RequiredDecides(block[124..136]);
    if AllPad(block[124..136]) {
      EmptyIsNoNumber(block[124..136]);
    }
    ReadableDecides(block[100..108]);
    ReadableDecides(block[108..116]);
    ReadableDecides(block[116..124]);
    ReadableDecides(block[136..148]);
    ReadableDecides(block[329..337]);
    ReadableDecides(block[337..345]);
    ReadableText(block[265..297]);
    ReadableText(block[297..329]);
    ReadableText(block[157..257]);
  }

  lemma EmptyIsNoNumber(field: Text)
    requires |field| <= 21 && AllPad(field)
    ensures ParseOctal(field, false).Failure?
  {
    AllPadHasNoDigit(field);
  }

  lemma PathDecides(block: Text, kind: EntryKind, path: Text)
    requires |block| == BLOCK
    ensures ParsePath(block, kind) == Success(path) <==> exists prefix, name :: Names(block, kind, path, prefix, name)
  {
    hide ParseTextField, TextIn, ValidPath;
    var name, prefix := ParseTextField(block[..100]), ParseTextField(block[345..500]);
    if name.Success? && prefix.Success? {
      TextDecides(block[..100], name.value);
      TextDecides(block[345..500], prefix.value);
      if ParsePath(block, kind) == Success(path) {
        assert Names(block, kind, path, prefix.value, name.value);
      }
    }
    if exists prefix, name :: Names(block, kind, path, prefix, name) {
      var p, n :| Names(block, kind, path, p, n);
      TextDecides(block[..100], n);
      TextDecides(block[345..500], p);
      NameIsStripped(block, kind, path, p, n);
    }
  }

  lemma NameIsStripped(block: Text, kind: EntryKind, path: Text, prefix: Text, name: Text)
    requires |block| == BLOCK && Names(block, kind, path, prefix, name)
    ensures StripDirectorySlash(kind, JoinName(prefix, name)) == path
  {
    hide TextIn, ValidPath;
    var joined := if prefix == [] then name else prefix + [SLASH] + name;
    if kind.DirectoryEntry? && joined[|joined| - 1] == SLASH {
      assert path == joined[..|joined| - 1];
    }
  }

  /** What is wrong with the checksum or the magic. */
  ghost function SignatureError(block: Text): ArchiveError
    requires |block| == BLOCK
  {
    if AllPad(block[148..156]) then MalformedHeader
    else if !(exists v: nat :: NumberIn(block[148..156], v)) then UnsupportedMetadata
    else if !NumberIn(block[148..156], Covered(block)) then HeaderChecksumMismatch
    else UnsupportedArchiveFormat
  }

  lemma SignatureDecides(block: Text)
    requires |block| == BLOCK
    ensures CheckSignature(block).None? <==>
            NumberIn(block[148..156], Covered(block)) && block[257..265] == Ascii("ustar") + [0] + Ascii("00")
    ensures CheckSignature(block).Some? ==> CheckSignature(block).value == SignatureError(block)
  {
    hide ParseOctal, NumberIn, AllPad, SumBytes, Blanked, Covered;
    BlankedSum(block);
    FieldDecides(block[148..156], Covered(block));
    RequiredDecides(block[148..156]);
    if AllPad(block[148..156]) {
      EmptyIsNoNumber(block[148..156]);
    }
    MagicDecides(block);
  }

  lemma MagicDecides(block: Text)
    requires |block| == BLOCK
    ensures block[257..265] == Ascii("ustar") + [0] + Ascii("00") <==>
            block[257..263] == USTAR_MAGIC && block[263..265] == USTAR_VERSION
  {
    assert USTAR_MAGIC == Ascii("ustar") + [0] && USTAR_VERSION == Ascii("00");
    assert block[257..265] == block[257..263] + block[263..265];
    if block[257..265] == USTAR_MAGIC + USTAR_VERSION {
      assert block[257..263] == block[257..265][..6] && block[263..265] == block[257..265][6..];
    }
  }

  // ----- main results

  lemma KindDecides(b: Byte)
    ensures ParseKind(b).Success? <==> b == 0 || b in Ascii("05")
    ensures ParseKind(b).Success? ==> ParseKind(b).value == if b == '5' as int then DirectoryEntry else FileEntry
    ensures ParseKind(b).Failure? ==>
              ParseKind(b).error == if b in Ascii("xgLK") then UnsupportedMetadata else UnsupportedEntryType
    ensures b in Ascii("xgLK") ==> ParseKind(b).Failure?
  {
    assert Ascii("05") == [48, 53] && Ascii("xgLK") == [120, 103, 76, 75];
  }

  /** The reader accepts exactly the blocks that stand for an entry, and gives that entry. */
  lemma HeaderAcceptsExactly(block: Text, h: ParsedHeader)
    ensures ParseHeader(block) == Success(h) <==> IsHeader(block, h)
  {
    hide CheckSignature, CheckMetadata, ParsePath, ParseKind, NumberIn, OwnersIn, OriginIn, Names, Covered;
    if |block| == BLOCK {
      KindDecides(block[156]);
      SignatureDecides(block);
      MetadataDecides(block, h.size);
      PathDecides(block, h.kind, h.path);
    }
  }

  lemma {:induction false} TotalAt(t: Text, k: nat)
    requires k < |t|
    ensures Total(t) == Total(t[..k]) + t[k] + Total(t[k + 1..])
  {
    assert t == t[..k] + ([t[k]] + t[k + 1..]);
    TotalConcat(t[..k], [t[k]] + t[k + 1..]);
    TotalConcat([t[k]], t[k + 1..]);
    assert Total([t[k]]) == t[k];
  }

  lemma OneByteShows(a: Text, b: Text, k: nat)
    requires |a| == |b| && k < |a| && Total(a) == Total(b)
    requires forall i :: 0 <= i < |a| && i != k ==> a[i] == b[i]
    ensures a == b
  {
    TotalAt(a, k);
    TotalAt(b, k);
    assert a[..k] == b[..k] && a[k + 1..] == b[k + 1..];
  }

  lemma CoveredOf(block: Text)
    requires ParseHeader(block).Success?
    ensures |block| == BLOCK && NumberIn(block[148..156], Covered(block))
  {
    HeaderAcceptsExactly(block, ParseHeader(block).value);
  }

  lemma HeadByteShows(a: Text, b: Text, k: nat)
    requires |a| == |b| == BLOCK && k < 148 && Covered(a) == Covered(b)
    requires forall i :: 0 <= i < BLOCK && i != k ==> a[i] == b[i]
    ensures a == b
  {
    hide Total;
    assert a[156..] == b[156..];
    OneByteShows(a[..148], b[..148], k);
    assert a[k] == a[..148][k] && b[k] == b[..148][k];
  }

  lemma TailByteShows(a: Text, b: Text, k: nat)
    requires |a| == |b| == BLOCK && 156 <= k < BLOCK && Covered(a) == Covered(b)
    requires forall i :: 0 <= i < BLOCK && i != k ==> a[i] == b[i]
    ensures a == b
  {
    hide Total;
    assert a[..148] == b[..148];
    OneByteShows(a[156..], b[156..], k - 156);
    assert a[k] == a[156..][k - 156] && b[k] == b[156..][k - 156];
  }

  /** Changing any one byte outside the checksum of an accepted header gives a block that is not accepted. */
  lemma NoByteChangesUnnoticed(a: Text, b: Text, k: nat)
    requires ParseHeader(a).Success? && ParseHeader(b).Success? && |a| == |b|
    requires k < |a| && !(148 <= k < 156) && forall i :: 0 <= i < |a| && i != k ==> a[i] == b[i]
    ensures a == b
  {
    hide ParseHeader, NumberIn, Covered;
    CoveredOf(a);
    CoveredOf(b);
    assert a[148..156] == b[148..156];
    NumberIsUnique(a[148..156], Covered(a), Covered(b));
    if k < 148 {
      HeadByteShows(a, b, k);
    } else {
      TailByteShows(a, b, k);
    }
  }

  // ----- refusals

  ghost predicate Signed(block: Text)
    requires |block| == BLOCK
  {
    NumberIn(block[148..156], Covered(block)) && block[257..265] == Ascii("ustar") + [0] + Ascii("00")
  }

  ghost predicate Described(block: Text)
    requires |block| == BLOCK
  {
    OwnersIn(block) && OriginIn(block) && exists v: nat :: NumberIn(block[124..136], v)
  }

  ghost function PathError(block: Text): ArchiveError
    requires |block| == BLOCK
  {
    if !(exists name :: TextIn(block[..100], name)) then UnsupportedMetadata
    else if TextIn(block[..100], []) then BadEntryName
    else if !(exists prefix :: TextIn(block[345..500], prefix)) then UnsupportedMetadata
    else BadEntryName
  }

  /** What a block that is no header is reported as: the first thing wrong with it. */
  ghost function HeaderError(block: Text): ArchiveError {
    if |block| != BLOCK then MalformedHeader
    else if !Signed(block) then SignatureError(block)
    else if !Described(block) then
      if OwnersIn(block) && AllPad(block[124..136]) then MalformedHeader else UnsupportedMetadata
    else if block[156] in Ascii("xgLK") then UnsupportedMetadata
    else if block[156] != 0 && block[156] !in Ascii("05") then UnsupportedEntryType
    else PathError(block)
  }

  lemma PathFailure(block: Text, kind: EntryKind)
    requires |block| == BLOCK && ParsePath(block, kind).Failure?
    ensures ParsePath(block, kind).error == PathError(block)
  {
    hide ParseTextField, TextIn, ValidPath, StripDirectorySlash;
    ReadableText(block[..100]);
    ReadableText(block[345..500]);
    TextDecides(block[..100], []);
  }

  lemma MetadataIsDescribed(block: Text)
    requires |block| == BLOCK
    ensures CheckMetadata(block).Success? <==> Described(block)
  {
    hide CheckMetadata, NumberIn, OwnersIn, OriginIn;
    var r := CheckMetadata(block);
    if r.Success? {
      MetadataDecides(block, r.value);
    }
    if Described(block) {
      var v: nat :| NumberIn(block[124..136], v);
      MetadataDecides(block, v);
    }
  }

  /** Every refusal names the first check that fails, and the checks come in this order. */
  lemma HeaderErrors(block: Text)
    ensures ParseHeader(block).Failure? ==> ParseHeader(block).error == HeaderError(block)
  {
    hide CheckSignature, CheckMetadata, ParsePath, ParseKind, SignatureError, NumberIn, OwnersIn, OriginIn, PathError,
         Described, AllPad;
    if |block| == BLOCK {
      SignatureDecides(block);
      MetadataIsDescribed(block);
      KindDecides(block[156]);
      var kind := ParseKind(block[156]);
      if CheckMetadata(block).Failure? {
        MetadataFailure(block);
      } else if kind.Success? && ParsePath(block, kind.value).Failure? {
        PathFailure(block, kind.value);
      }
    }
  }

  /** An accepted archive consists of blocks that are headers, each with as much data as it says. */
  lemma ArchiveHeadersAreValid(archive: Text, m: BundleManifest, limits: ParserLimits)
    returns (ms: seq<Member>, hs: seq<ParsedHeader>)
    requires ParseWith(ParseHeader, archive, m, limits).Success?
    ensures IsArchiveOf(ParseHeader, archive, ms, m, limits)
    ensures Heads(ms, hs)
  {
    ms := ParseImpliesArchive(ParseHeader, archive, m, limits);
    hide ParseHeader, IsHeader, Admissible, ParseWith, TileAll;
    hs := HeadersOf(ms);
  }

  /** Each member's block stands for the header of the same place. */
  ghost predicate Heads(ms: seq<Member>, hs: seq<ParsedHeader>) {
    |hs| == |ms| && forall i :: 0 <= i < |ms| ==> IsHeader(ms[i].header, hs[i]) && |ms[i].data| == hs[i].size
  }

  lemma {:induction false} HeadersOf(ms: seq<Member>) returns (hs: seq<ParsedHeader>)
    requires Readable(ParseHeader, ms)
    ensures Heads(ms, hs)
  {
    hide ParseHeader, IsHeader;
    if ms == [] {
      hs := [];
    } else {
      var rest := HeadersOf(ms[1..]);
      assert ReadsAs(ParseHeader, ms[0]);
      var h := ParseHeader(ms[0].header).value;
      HeaderAcceptsExactly(ms[0].header, h);
      hs := [h] + rest;
    }
  }
}
