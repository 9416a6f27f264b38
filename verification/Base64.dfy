/** Canonical base64 as section 4 of RFC 4648 defines it, encoder and strict decoder. */
module Base64 {
  import opened Bytes

  const PAD: Byte := 61

  datatype Base64Error =
    | LengthNotMultipleOfFour
    | InvalidPadding
    | PaddingBeforeEnd
    | InvalidCharacter
    | TrailingBits

  type Sextet = v: int | 0 <= v < 64

  /** `A-Z a-z 0-9 + /`. */
  function Symbol(v: Sextet): Byte {
    if v < 26 then 65 + v
    else if v < 52 then 97 + (v - 26)
    else if v < 62 then 48 + (v - 52)
    else if v == 62 then 43
    else 47
  }

  function DecodeCharacter(c: Byte): Result<Sextet, Base64Error> {
    if 65 <= c <= 90 then Success(c - 65)
    else if 97 <= c <= 122 then Success(c - 97 + 26)
    else if 48 <= c <= 57 then Success(c - 48 + 52)
    else if c == 43 then Success(62)
    else if c == 47 then Success(63)
    else Failure(InvalidCharacter)
  }

  lemma SymbolInverse(c: Byte, v: Sextet)
    ensures DecodeCharacter(c) == Success(v) <==> c == Symbol(v)
    ensures Symbol(v) != PAD
  {
  }

  /** Bytes to sextets, across a byte boundary. */
  function SecondSextet(x: Byte, y: Byte): Sextet {
    x % 4 * 16 + y / 16
  }

  function ThirdSextet(y: Byte, z: Byte): Sextet {
    y % 16 * 4 + z / 64
  }

  /** The four characters of up to three bytes. */
  function EncodeGroup(chunk: Text): (g: Text)
    requires 1 <= |chunk| <= 3
    ensures |g| == 4
  {
    var first := chunk[0];
    var second := if |chunk| > 1 then chunk[1] else 0;
    var third := if |chunk| > 2 then chunk[2] else 0;
    [Symbol(first / 4), Symbol(SecondSextet(first, second)),
     if |chunk| > 1 then Symbol(ThirdSextet(second, third)) else PAD,
     if |chunk| > 2 then Symbol(third % 64) else PAD]
  }

  /** Sextets to bytes; a left shift drops the bits that leave the byte. */
  function FirstByte(p: Sextet, q: Sextet): Byte {
    p * 4 + q / 16
  }

  function SecondByte(q: Sextet, r: Sextet): Byte {
    q % 16 * 16 + r / 4
  }

  function ThirdByte(r: Sextet, t: Sextet): Byte {
    r % 4 * 64 + t
  }

  /** One group of four characters. */
  function DecodeGroup(g: Text, last: bool): Result<Text, Base64Error>
    requires |g| == 4
  {
    if g[2] == PAD && g[3] != PAD then Failure(InvalidPadding)
    else
      var padding := if g[3] != PAD then 0 else if g[2] == PAD then 2 else 1;
      if padding > 0 && !last then Failure(PaddingBeforeEnd)
      else
        var first :- DecodeCharacter(g[0]);
        var second :- DecodeCharacter(g[1]);
        var third :- if padding == 2 then Success(0) else DecodeCharacter(g[2]);
        var fourth :- if padding > 0 then Success(0) else DecodeCharacter(g[3]);
        if (padding == 2 && second % 16 != 0) || (padding == 1 && third % 4 != 0) then Failure(TrailingBits)
        else
          var a, b, c := FirstByte(first, second), SecondByte(second, third), ThirdByte(third, fourth);
          Success(if padding == 2 then [a] else if padding == 1 then [a, b] else [a, b, c])
  }

  /** Three bytes at a time. */
  function Encode(bytes: Text): Text {
    if bytes == [] then []
    else if |bytes| <= 3 then EncodeGroup(bytes)
    else EncodeGroup(bytes[..3]) + Encode(bytes[3..])
  }

  /** Whole groups of four. */
  function DecodeGroups(value: Text): Result<Text, Base64Error> {
    if |value| < 4 then Success([])
    else
      var group :- DecodeGroup(value[..4], |value| == 4);
      var rest :- DecodeGroups(value[4..]);
      Success(group + rest)
  }

  function Decode(value: Text): Result<Text, Base64Error> {
    if |value| % 4 != 0 then Failure(LengthNotMultipleOfFour) else DecodeGroups(value)
  }

  // ----- the two loops

  method EncodeBase64(bytes: Text) returns (encoded: Text)
    ensures encoded == Encode(bytes)
  {
    encoded := [];
    var rest := bytes;
    while rest != []
      invariant encoded + Encode(rest) == Encode(bytes)
      decreases |rest|
    {
      var chunk := if |rest| < 3 then rest else rest[..3];
      assert Encode(rest) == EncodeGroup(chunk) + Encode(rest[|chunk|..]);
      encoded := encoded + EncodeGroup(chunk);
      rest := rest[|chunk|..];
    }
  }

  /** What decoding ends with once `decoded` is out and `rest` is still to come. */
  ghost function DecodeFrom(decoded: Text, rest: Text): Result<Text, Base64Error> {
    match DecodeGroups(rest)
    case Success(more) => Success(decoded + more)
    case Failure(error) => Failure(error)
  }

  lemma DecodeOneMore(decoded: Text, rest: Text)
    requires |rest| >= 4
    ensures var group := DecodeGroup(rest[..4], |rest| == 4);
            DecodeFrom(decoded, rest) ==
            if group.Success? then DecodeFrom(decoded + group.value, rest[4..]) else Failure(group.error)
  {
    hide DecodeGroup;
    var group, more := DecodeGroup(rest[..4], |rest| == 4), DecodeGroups(rest[4..]);
    if group.Success? && more.Success? {
      assert decoded + (group.value + more.value) == decoded + group.value + more.value;
    }
  }

  method DecodeBase64(value: Text) returns (r: Result<Text, Base64Error>)
    ensures r == Decode(value)
  {
    hide DecodeGroup, DecodeGroups, DecodeFrom;
    if |value| % 4 != 0 {
      return Failure(LengthNotMultipleOfFour);
    }
    var decoded: Text := [];
    var index := 0;
    assert value[0..] == value;
    DecodeFromStart(value);
    while index < |value| / 4
      invariant 0 <= index <= |value| / 4
      invariant DecodeFrom(decoded, value[index * 4..]) == Decode(value)
    {
      var chunk := value[index * 4..index * 4 + 4];
      var last := index + 1 == |value| / 4;
      DecodeOneMore(decoded, value[index * 4..]);
      assert value[index * 4..][..4] == chunk && value[index * 4..][4..] == value[(index + 1) * 4..];
      var group := DecodeGroup(chunk, last);
      if group.Failure? {
        return group;
      }
      decoded := decoded + group.value;
      index := index + 1;
    }
    assert value[index * 4..] == [];
    DecodeFromEnd(decoded);
    return Success(decoded);
  }

  lemma DecodeFromStart(value: Text)
    ensures DecodeFrom([], value) == DecodeGroups(value)
  {
    if DecodeGroups(value).Success? {
      assert [] + DecodeGroups(value).value == DecodeGroups(value).value;
    }
  }

  lemma DecodeFromEnd(decoded: Text)
    ensures DecodeFrom(decoded, []) == Success(decoded)
  {
    assert decoded + [] == decoded;
  }

  // ----- round trips

  /** Joining the sextets of neighbouring bytes gives the bytes. */
  lemma JoinFirst(x: Byte, y: Byte)
    ensures FirstByte(x / 4, SecondSextet(x, y)) == x
  {
  }

  lemma JoinSecond(x: Byte, y: Byte, z: Byte)
    ensures SecondByte(SecondSextet(x, y), ThirdSextet(y, z)) == y
  {
    assert SecondSextet(x, y) % 16 == y / 16;
    assert ThirdSextet(y, z) / 4 == y % 16;
  }

  lemma JoinThird(y: Byte, z: Byte)
    ensures ThirdByte(ThirdSextet(y, z), z % 64) == z
  {
    assert ThirdSextet(y, z) % 4 == z / 64;
  }

  lemma PaddedSextets(x: Byte, y: Byte)
    ensures SecondSextet(x, 0) % 16 == 0 && ThirdSextet(y, 0) % 4 == 0
  {
  }

  /** And the sextets of the joined bytes are the sextets. */
  lemma SplitFirst(p: Sextet, q: Sextet)
    ensures FirstByte(p, q) / 4 == p && FirstByte(p, q) % 4 == q / 16
  {
  }

  lemma SplitSecond(p: Sextet, q: Sextet, r: Sextet)
    ensures SecondSextet(FirstByte(p, q), SecondByte(q, r)) == q
    ensures q % 16 == 0 ==> SecondSextet(FirstByte(p, q), 0) == q
  {
    SplitFirst(p, q);
    assert SecondByte(q, r) / 16 == q % 16;
  }

  lemma SplitThird(q: Sextet, r: Sextet, t: Sextet)
    ensures ThirdSextet(SecondByte(q, r), ThirdByte(r, t)) == r
    ensures ThirdByte(r, t) % 64 == t
    ensures r % 4 == 0 ==> ThirdSextet(SecondByte(q, r), 0) == r
  {
    assert SecondByte(q, r) % 16 == r / 4;
    assert ThirdByte(r, t) / 64 == r % 4;
  }

  lemma JoinSplit(x: Byte, y: Byte, z: Byte)
    ensures FirstByte(x / 4, SecondSextet(x, y)) == x
    ensures SecondByte(SecondSextet(x, y), ThirdSextet(y, z)) == y
    ensures ThirdByte(ThirdSextet(y, z), z % 64) == z
    ensures SecondSextet(x, 0) % 16 == 0 && ThirdSextet(y, 0) % 4 == 0
    ensures FirstByte(x / 4, SecondSextet(x, 0)) == x && SecondByte(SecondSextet(x, y), ThirdSextet(y, 0)) == y
  {
    hide FirstByte, SecondByte, ThirdByte, SecondSextet, ThirdSextet;
    JoinFirst(x, y);
    JoinFirst(x, 0);
    JoinSecond(x, y, z);
    JoinSecond(x, y, 0);
    JoinThird(y, z);
    PaddedSextets(x, y);
  }

  lemma SplitJoin(p: Sextet, q: Sextet, r: Sextet, t: Sextet)
    ensures FirstByte(p, q) / 4 == p
    ensures SecondSextet(FirstByte(p, q), SecondByte(q, r)) == q
    ensures ThirdSextet(SecondByte(q, r), ThirdByte(r, t)) == r
    ensures ThirdByte(r, t) % 64 == t
    ensures q % 16 == 0 ==> SecondSextet(FirstByte(p, q), 0) == q
    ensures r % 4 == 0 ==> ThirdSextet(SecondByte(q, r), 0) == r
  {
    hide FirstByte, SecondByte, ThirdByte, SecondSextet, ThirdSextet;
    SplitFirst(p, q);
    SplitSecond(p, q, r);
    SplitThird(q, r, t);
  }

  lemma SymbolsDecode()
    ensures forall v: Sextet :: DecodeCharacter(Symbol(v)) == Success(v) && Symbol(v) != PAD
  {
    forall v: Sextet
      ensures DecodeCharacter(Symbol(v)) == Success(v) && Symbol(v) != PAD
    {
      SymbolInverse(Symbol(v), v);
    }
  }

  lemma EncodedGroupDecodes(chunk: Text, last: bool)
    requires 1 <= |chunk| <= 3 && (|chunk| < 3 ==> last)
    ensures DecodeGroup(EncodeGroup(chunk), last) == Success(chunk)
  {
    hide Symbol, DecodeCharacter, FirstByte, SecondByte, ThirdByte, SecondSextet, ThirdSextet;
    SymbolsDecode();
    JoinSplit(chunk[0], if |chunk| > 1 then chunk[1] else 0, if |chunk| > 2 then chunk[2] else 0);
    if |chunk| == 1 {
      assert chunk == [chunk[0]];
    } else if |chunk| == 2 {
      assert chunk == [chunk[0], chunk[1]];
    } else {
      assert chunk == [chunk[0], chunk[1], chunk[2]];
    }
  }

  lemma DecodedCharacter(c: Byte)
    requires DecodeCharacter(c).Success?
    ensures c == Symbol(DecodeCharacter(c).value)
  {
  }

  lemma DecodedGroupEncodes(g: Text, last: bool)
    requires |g| == 4 && DecodeGroup(g, last).Success?
    ensures var chunk := DecodeGroup(g, last).value;
            1 <= |chunk| <= 3 && EncodeGroup(chunk) == g && (|chunk| < 3 ==> last)
  {
    hide Symbol, DecodeCharacter, FirstByte, SecondByte, ThirdByte, SecondSextet, ThirdSextet;
    DecodedCharacter(g[0]);
    DecodedCharacter(g[1]);
    var first, second := DecodeCharacter(g[0]).value, DecodeCharacter(g[1]).value;
    if g[2] == PAD {
      SplitJoin(first, second, 0, 0);
      assert g == [g[0], g[1], PAD, PAD];
    } else {
      DecodedCharacter(g[2]);
      var third := DecodeCharacter(g[2]).value;
      if g[3] == PAD {
        SplitJoin(first, second, third, 0);
        assert g == [g[0], g[1], g[2], PAD];
      } else {
        DecodedCharacter(g[3]);
        SplitJoin(first, second, third, DecodeCharacter(g[3]).value);
        assert g == [g[0], g[1], g[2], g[3]];
      }
    }
  }

  lemma {:induction false} DecodeInvertsEncode(bytes: Text)
    ensures DecodeGroups(Encode(bytes)) == Success(bytes)
  {
    hide EncodeGroup, DecodeGroup;
    if bytes == [] {
    } else if |bytes| <= 3 {
      EncodedGroupDecodes(bytes, true);
      assert EncodeGroup(bytes)[..4] == EncodeGroup(bytes);
      assert bytes + [] == bytes;
    } else {
      var head, tail := EncodeGroup(bytes[..3]), Encode(bytes[3..]);
      EncodedGroupDecodes(bytes[..3], |head + tail| == 4);
      DecodeInvertsEncode(bytes[3..]);
      assert (head + tail)[..4] == head && (head + tail)[4..] == tail;
      assert bytes == bytes[..3] + bytes[3..];
    }
  }

  lemma {:induction false} EncodeInvertsDecode(value: Text)
    requires |value| % 4 == 0 && DecodeGroups(value).Success?
    ensures Encode(DecodeGroups(value).value) == value
  {
    hide EncodeGroup, DecodeGroup;
    if value != [] {
      DecodedGroupEncodes(value[..4], |value| == 4);
      EncodeInvertsDecode(value[4..]);
      var group, rest := DecodeGroup(value[..4], |value| == 4).value, DecodeGroups(value[4..]).value;
      assert value == value[..4] + value[4..];
      if |value| == 4 {
        assert rest == [] && group + rest == group;
      } else {
        assert |group| == 3 && (group + rest)[..3] == group && (group + rest)[3..] == rest;
      }
    }
  }

  lemma {:induction false} EncodedGroups(bytes: Text) returns (groups: nat)
    ensures |Encode(bytes)| == 4 * groups
  {
    hide EncodeGroup;
    if bytes == [] {
      groups := 0;
    } else if |bytes| <= 3 {
      groups := 1;
    } else {
      var more := EncodedGroups(bytes[3..]);
      groups := more + 1;
    }
  }

  lemma WholeGroups(k: nat)
    ensures 4 * k % 4 == 0
  {
  }

  /** The decoder accepts exactly the encoder's outputs, and inverts it on them. */
  lemma DecodesExactlyEncodings(value: Text, bytes: Text)
    ensures Decode(value) == Success(bytes) <==> value == Encode(bytes)
  {
    hide Encode, DecodeGroups;
    var groups := EncodedGroups(bytes);
    WholeGroups(groups);
    if value == Encode(bytes) {
      DecodeInvertsEncode(bytes);
    }
    if Decode(value) == Success(bytes) {
      EncodeInvertsDecode(value);
    }
  }

  // ----- the standard's alphabet and bit order

  const UPPER: Text := Ascii("ABCDEFGHIJKLMNOPQRSTUVWXYZ")
  const LOWER: Text := Ascii("abcdefghijklmnopqrstuvwxyz")
  const OTHERS: Text := Ascii("0123456789+/")
  const ALPHABET: Text := UPPER + LOWER + OTHERS

  lemma UpperCase(v: nat)
    requires v < 26
    ensures |UPPER| == 26 && UPPER[v] == Symbol(v)
  {
  }

  lemma LowerCaseOf(v: nat)
    requires v < 26
    ensures |LOWER| == 26 && LOWER[v] == Symbol(26 + v)
  {
  }

  lemma OtherCharacters(v: nat)
    requires v < 12
    ensures |OTHERS| == 12 && OTHERS[v] == Symbol(52 + v)
  {
  }

  lemma SymbolIsStandard(v: Sextet)
    ensures |ALPHABET| == 64 && Symbol(v) == ALPHABET[v] && PAD == '=' as int
  {
    hide UPPER, LOWER, OTHERS, Symbol;
    UpperCase(v % 26);
    LowerCaseOf(v % 26);
    OtherCharacters(if v < 52 then 0 else v - 52);
  }

  lemma SextetsKeepValue(x: Byte, y: Byte, z: Byte)
    ensures (x / 4) * 0x4_0000 + SecondSextet(x, y) * 0x1000 + ThirdSextet(y, z) * 64 + z % 64
            == x * 0x1_0000 + y * 0x100 + z
  {
  }

  /**
   A group's characters are the alphabet's at four numbers below 64 that spell,
   most significant first, the same number as its bytes; the bits a short group
   lacks are zero, and `=` stands for the characters it lacks.
   */
  lemma GroupKeepsValue(x: Byte, y: Byte, z: Byte) returns (p: Sextet, q: Sextet, r: Sextet, t: Sextet)
    ensures p * 0x4_0000 + q * 0x1000 + r * 64 + t == x * 0x1_0000 + y * 0x100 + z
    ensures EncodeGroup([x, y, z]) == [ALPHABET[p], ALPHABET[q], ALPHABET[r], ALPHABET[t]]
    ensures z == 0 ==> EncodeGroup([x, y]) == [ALPHABET[p], ALPHABET[q], ALPHABET[r], '=' as int]
    ensures y == 0 && z == 0 ==> EncodeGroup([x]) == [ALPHABET[p], ALPHABET[q], '=' as int, '=' as int]
  {
    p, q, r, t := x / 4, SecondSextet(x, y), ThirdSextet(y, z), z % 64;
    SextetsKeepValue(x, y, z);
    SymbolIsStandard(p);
    SymbolIsStandard(q);
    SymbolIsStandard(r);
    SymbolIsStandard(t);
    hide SecondSextet, ThirdSextet, Symbol, ALPHABET;
  }

  predicate InAlphabet(c: Byte) {
    exists v: Sextet :: ALPHABET[v] == c
  }

  lemma CharacterDecides(c: Byte)
    ensures DecodeCharacter(c) == Failure(InvalidCharacter) <==> !InAlphabet(c)
    ensures DecodeCharacter(c).Success? <==> InAlphabet(c)
  {
    if DecodeCharacter(c).Success? {
      var v := DecodeCharacter(c).value;
      SymbolInverse(c, v);
      SymbolIsStandard(v);
    }
    if InAlphabet(c) {
      var v: Sextet :| ALPHABET[v] == c;
      SymbolIsStandard(v);
      SymbolInverse(c, v);
    }
  }

  /** What is wrong with a group that does not decode. */
  lemma GroupErrors(g: Text, last: bool)
    requires |g| == 4 && DecodeGroup(g, last).Failure?
    ensures var error, pad := DecodeGroup(g, last).error, '=' as int;
            && (error == InvalidPadding <==> g[2] == pad && g[3] != pad)
            && (error == PaddingBeforeEnd <==> g[3] == pad && !last)
            && (error == InvalidCharacter <==>
                  !(g[2] == pad && g[3] != pad) && !(g[3] == pad && !last)
                  && !(InAlphabet(g[0]) && InAlphabet(g[1]) && (g[2] == pad || InAlphabet(g[2]))
                       && (g[3] == pad || InAlphabet(g[3]))))
            && error != LengthNotMultipleOfFour
  {
    CharacterDecides(g[0]);
    CharacterDecides(g[1]);
    CharacterDecides(g[2]);
    CharacterDecides(g[3]);
    hide InAlphabet, DecodeCharacter, FirstByte, SecondByte, ThirdByte;
  }
}
