/** SHA-256: the in-place implementation against sections 4 to 6 of FIPS 180-4. */
module Sha256 {
  import opened Bytes
  import Distribution

  type Word = bv32

  /** The hash state H(0) of section 5.3.3. */
  const INITIAL_STATE: seq<Word> :=
    [0x6a09e667, 0xbb67ae85, 0x3c6ef372, 0xa54ff53a, 0x510e527f, 0x9b05688c, 0x1f83d9ab, 0x5be0cd19]

  /** The constants K of section 4.2.2. */
  const ROUND_CONSTANTS: seq<Word> :=
    [0x428a2f98, 0x71374491, 0xb5c0fbcf, 0xe9b5dba5, 0x3956c25b, 0x59f111f1, 0x923f82a4, 0xab1c5ed5]
    + [0xd807aa98, 0x12835b01, 0x243185be, 0x550c7dc3, 0x72be5d74, 0x80deb1fe, 0x9bdc06a7, 0xc19bf174]
    + [0xe49b69c1, 0xefbe4786, 0x0fc19dc6, 0x240ca1cc, 0x2de92c6f, 0x4a7484aa, 0x5cb0a9dc, 0x76f988da]
    + [0x983e5152, 0xa831c66d, 0xb00327c8, 0xbf597fc7, 0xc6e00bf3, 0xd5a79147, 0x06ca6351, 0x14292967]
    + [0x27b70a85, 0x2e1b2138, 0x4d2c6dfc, 0x53380d13, 0x650a7354, 0x766a0abb, 0x81c2c92e, 0x92722c85]
    + [0xa2bfe8a1, 0xa81a664b, 0xc24b8b70, 0xc76c51a3, 0xd192e819, 0xd6990624, 0xf40e3585, 0x106aa070]
    + [0x19a4c116, 0x1e376c08, 0x2748774c, 0x34b0bcb5, 0x391c0cb3, 0x4ed8aa4a, 0x5b9cca4f, 0x682e6ff3]
    + [0x748f82ee, 0x78a5636f, 0x84c87814, 0x8cc70208, 0x90befffa, 0xa4506ceb, 0xbef9a3f7, 0xc67178f2]

  const MAX_MESSAGE_BYTES: nat := 0x2000_0000_0000_0000

  // ----- section 4.1.2: the functions of the standard

  function Rotr(x: Word, n: bv6): Word
    requires 0 < n < 32
  {
    (x >> n) | (x << (32 - n))
  }

  function Ch(x: Word, y: Word, z: Word): Word {
    (x & y) ^ (!x & z)
  }

  function Maj(x: Word, y: Word, z: Word): Word {
    (x & y) ^ (x & z) ^ (y & z)
  }

  function BigSigma0(x: Word): Word {
    x.RotateRight(2) ^ x.RotateRight(13) ^ x.RotateRight(22)
  }

  function BigSigma1(x: Word): Word {
    x.RotateRight(6) ^ x.RotateRight(11) ^ x.RotateRight(25)
  }

  function SmallSigma0(x: Word): Word {
    x.RotateRight(7) ^ x.RotateRight(18) ^ (x >> 3)
  }

  function SmallSigma1(x: Word): Word {
    x.RotateRight(17) ^ x.RotateRight(19) ^ (x >> 10)
  }

  /** The machine rotation is the ROTR of section 3.2 at every amount the four functions use. */
  lemma RotationsAgree(x: Word)
    ensures Rotr(x, 2) == x.RotateRight(2) && Rotr(x, 13) == x.RotateRight(13) && Rotr(x, 22) == x.RotateRight(22)
    ensures Rotr(x, 6) == x.RotateRight(6) && Rotr(x, 11) == x.RotateRight(11) && Rotr(x, 25) == x.RotateRight(25)
    ensures Rotr(x, 7) == x.RotateRight(7) && Rotr(x, 18) == x.RotateRight(18)
    ensures Rotr(x, 17) == x.RotateRight(17) && Rotr(x, 19) == x.RotateRight(19)
  {
  }

  /** Addition modulo 2^32. */
  function WrappingAdd(a: Word, b: Word): Word {
    a + b
  }

  function Sum4(a: Word, b: Word, c: Word, d: Word): Word {
    a + b + c + d
  }

  lemma SumInAnyOrder(a: Word, b: Word, c: Word, d: Word)
    ensures Sum4(a, b, c, d) == Sum4(d, c, b, a)
  {
  }

  // ----- words and bytes

  function WordOf(b: Text): Word
    requires |b| == 4
  {
    var high: int, low: int := b[0] as int * 256 + b[1], b[2] as int * 256 + b[3];
    (high * 0x1_0000 + low) as bv32
  }

  /** Big-endian bytes of a number, the lowest `n` of them. */
  function BigEndian(v: nat, n: nat): (b: Text)
    ensures |b| == n
  {
    if n == 0 then [] else BigEndian(v / 256, n - 1) + [v % 256]
  }

  /** The number big-endian bytes stand for. */
  function BytesValue(b: Text): nat {
    if b == [] then 0 else BytesValue(b[..|b| - 1]) * 256 + b[|b| - 1]
  }

  function Power256(n: nat): (p: nat)
    ensures p > 0
  {
    if n == 0 then 1 else 256 * Power256(n - 1)
  }

  /** The bytes stand for the number, less what does not fit. */
  lemma {:induction false} BigEndianKeepsValue(v: nat, n: nat)
    requires v < Power256(n)
    ensures BytesValue(BigEndian(v, n)) == v
  {
    if n > 0 {
      assert v / 256 < Power256(n - 1);
      BigEndianKeepsValue(v / 256, n - 1);
      var b := BigEndian(v, n);
      assert b[..|b| - 1] == BigEndian(v / 256, n - 1);
    }
  }

  function WordsText(words: seq<Word>): (t: Text)
    ensures |t| == 4 * |words|
  {
    if words == [] then [] else WordsText(words[..|words| - 1]) + BigEndian(words[|words| - 1] as nat, 4)
  }

  // ----- section 6.2.2: the schedule and the compression of one block

  /** W(t), by recursion on t. */
  function Schedule(block: Text, t: nat): Word
    requires |block| == 64 && t < 64
  {
    if t < 16 then WordOf(block[4 * t..4 * t + 4])
    else Sum4(SmallSigma1(Schedule(block, t - 2)), Schedule(block, t - 7), SmallSigma0(Schedule(block, t - 15)),
              Schedule(block, t - 16))
  }

  datatype Working = Working(a: Word, b: Word, c: Word, d: Word, e: Word, f: Word, g: Word, h: Word)

  function Temporary1(e: Word, f: Word, g: Word, h: Word, k: Word, w: Word): Word {
    h + BigSigma1(e) + Ch(e, f, g) + k + w
  }

  function Temporary2(a: Word, b: Word, c: Word): Word {
    BigSigma0(a) + Maj(a, b, c)
  }

  function Round(v: Working, k: Word, w: Word): Working {
    var t1 := Temporary1(v.e, v.f, v.g, v.h, k, w);
    var t2 := Temporary2(v.a, v.b, v.c);
    Working(WrappingAdd(t1, t2), v.a, v.b, v.c, WrappingAdd(v.d, t1), v.e, v.f, v.g)
  }

  function Load(state: seq<Word>): Working
    requires |state| == 8
  {
    Working(state[0], state[1], state[2], state[3], state[4], state[5], state[6], state[7])
  }

  /** The working variables after `t` rounds. */
  function Rounds(state: seq<Word>, block: Text, t: nat): Working
    requires |state| == 8 && |block| == 64 && t <= 64
  {
    if t == 0 then Load(state) else Round(Rounds(state, block, t - 1), ROUND_CONSTANTS[t - 1], Schedule(block, t - 1))
  }

  function AddUp(state: seq<Word>, v: Working): (s: seq<Word>)
    requires |state| == 8
    ensures |s| == 8
  {
    [WrappingAdd(state[0], v.a), WrappingAdd(state[1], v.b), WrappingAdd(state[2], v.c), WrappingAdd(state[3], v.d),
     WrappingAdd(state[4], v.e), WrappingAdd(state[5], v.f), WrappingAdd(state[6], v.g), WrappingAdd(state[7], v.h)]
  }

  function Compress(state: seq<Word>, block: Text): (s: seq<Word>)
    requires |state| == 8 && |block| == 64
    ensures |s| == 8
  {
    AddUp(state, Rounds(state, block, 64))
  }

  /** The blocks of a padded message, in order. */
  function HashBlocks(state: seq<Word>, message: Text): (s: seq<Word>)
    requires |state| == 8 && |message| % 64 == 0
    ensures |s| == 8
    decreases |message|
  {
    if message == [] then state else HashBlocks(Compress(state, message[..64]), message[64..])
  }

  // ----- section 5.1.1: padding

  /** The fewest zero bytes that leave room for a 64-bit length at the end of a block. */
  function ZeroCount(length: nat): nat {
    (55 - length) % 64
  }

  function Pad(message: Text, bitLength: nat): Text {
    message + [0x80] + Zeros(ZeroCount(|message|)) + BigEndian(bitLength, 8)
  }

  /** SHA-256 of a message, its length in bits taken from the message. */
  function Hash(message: Text): seq<Word> {
    HashWith(message, 8 * |message|)
  }

  function HashWith(message: Text, bitLength: nat): seq<Word> {
    PadFillsBlocks(message, bitLength);
    HashBlocks(INITIAL_STATE, Pad(message, bitLength))
  }

  /** The length as a 64-bit word holds it. */
  function WrappedBits(length: nat): (bits: nat)
    ensures bits <= U64_MAX
    ensures length < MAX_MESSAGE_BYTES ==> bits == 8 * length
    ensures exists wraps: nat :: 8 * length == bits + wraps * 0x1_0000_0000_0000_0000
  {
    var wraps := 8 * length / (U64_MAX + 1);
    assert 8 * length == 8 * length % (U64_MAX + 1) + wraps * 0x1_0000_0000_0000_0000;
    8 * length % (U64_MAX + 1)
  }

  lemma PadFillsBlocks(message: Text, bitLength: nat)
    ensures |Pad(message, bitLength)| % 64 == 0
  {
    var n := |message|;
    assert (55 - n) % 64 == (55 - n) - 64 * ((55 - n) / 64);
  }

  /** The padding is as short as the block size allows. */
  lemma PadIsShortest(message: Text, zeros: nat)
    requires (|message| + 1 + zeros + 8) % 64 == 0
    ensures zeros >= ZeroCount(|message|)
  {
    var n, q := |message|, (|message| + 1 + zeros + 8) / 64;
    var k, shortest := (55 - n) / 64, ZeroCount(n);
    assert zeros == 64 * (q - 1 + k) + shortest;
    hide ZeroCount;
    assert q - 1 + k >= 0;
  }

  // ----- the implementation

  /** The additions of the schedule, in the implementation's order. */
  lemma ScheduleStep(block: Text, t: nat, w16: Word, w15: Word, w7: Word, w2: Word)
    requires |block| == 64 && 16 <= t < 64
    requires w16 == Schedule(block, t - 16) && w15 == Schedule(block, t - 15)
    requires w7 == Schedule(block, t - 7) && w2 == Schedule(block, t - 2)
    ensures Schedule(block, t) == Sum4(w16, SmallSigma0(w15), w7, SmallSigma1(w2))
  {
    hide SmallSigma0, SmallSigma1, Sum4;
    SumInAnyOrder(SmallSigma1(w2), w7, SmallSigma0(w15), w16);
  }

  method FillSchedule(block: Text) returns (schedule: array<Word>)
    requires |block| == 64
    ensures fresh(schedule) && schedule.Length == 64
    ensures forall t :: 0 <= t < 64 ==> schedule[t] == Schedule(block, t)
  {
    hide WordOf, Sum4, SmallSigma0, SmallSigma1;
    schedule := new Word[64](_ => 0);
    var index := 0;
    while index < 16
      invariant 0 <= index <= 16
      invariant forall t :: 0 <= t < index ==> schedule[t] == Schedule(block, t)
    {
      schedule[index] := WordOf(block[4 * index..4 * index + 4]);
      index := index + 1;
    }
    hide Schedule;
    while index < 64
      invariant 16 <= index <= 64
      invariant forall t :: 0 <= t < index ==> schedule[t] == Schedule(block, t)
    {
      var w16, w15, w7, w2 := schedule[index - 16], schedule[index - 15], schedule[index - 7], schedule[index - 2];
      ScheduleStep(block, index, w16, w15, w7, w2);
      schedule[index] := Sum4(w16, SmallSigma0(w15), w7, SmallSigma1(w2));
      index := index + 1;
    }
  }

  lemma OneMoreRound(state: seq<Word>, block: Text, t: nat)
    requires |state| == 8 && |block| == 64 && t < 64
    ensures Rounds(state, block, t + 1) == Round(Rounds(state, block, t), ROUND_CONSTANTS[t], Schedule(block, t))
  {
    hide Round, Schedule, ROUND_CONSTANTS;
  }

  method RunRounds(state: seq<Word>, schedule: array<Word>, ghost block: Text) returns (v: Working)
    requires |state| == 8 && |block| == 64 && schedule.Length == 64
    requires forall t :: 0 <= t < 64 ==> schedule[t] == Schedule(block, t)
    ensures v == Rounds(state, block, 64)
  {
    assert |ROUND_CONSTANTS| == 64;
    hide Schedule, ROUND_CONSTANTS, Temporary1, Temporary2, WrappingAdd;
    var a, b, c, d := state[0], state[1], state[2], state[3];
    var e, f, g, h := state[4], state[5], state[6], state[7];
    assert Rounds(state, block, 0) == Working(a, b, c, d, e, f, g, h);
    hide Rounds;
    var index := 0;
    while index < 64
      invariant 0 <= index <= 64
      invariant Working(a, b, c, d, e, f, g, h) == Rounds(state, block, index)
    {
      var temporary1 := Temporary1(e, f, g, h, ROUND_CONSTANTS[index], schedule[index]);
      var temporary2 := Temporary2(a, b, c);
      OneMoreRound(state, block, index);
      h := g;
      g := f;
      f := e;
      e := WrappingAdd(d, temporary1);
      d := c;
      c := b;
      b := a;
      a := WrappingAdd(temporary1, temporary2);
      index := index + 1;
    }
    return Working(a, b, c, d, e, f, g, h);
  }

  /** `process_block`. */
  method ProcessBlock(state: array<Word>, block: Text)
    requires state.Length == 8 && |block| == 64
    modifies state
    ensures state[..] == Compress(old(state[..]), block)
  {
    hide Schedule, Rounds, WrappingAdd, AddUp;
    var schedule := FillSchedule(block);
    var v := RunRounds(state[..], schedule, block);
    AddTo(state, v);
  }

  method AddTo(state: array<Word>, v: Working)
    requires state.Length == 8
    modifies state
    ensures state[..] == AddUp(old(state[..]), v)
  {
    hide WrappingAdd;
    state[0] := WrappingAdd(state[0], v.a);
    state[1] := WrappingAdd(state[1], v.b);
    state[2] := WrappingAdd(state[2], v.c);
    state[3] := WrappingAdd(state[3], v.d);
    state[4] := WrappingAdd(state[4], v.e);
    state[5] := WrappingAdd(state[5], v.f);
    state[6] := WrappingAdd(state[6], v.g);
    state[7] := WrappingAdd(state[7], v.h);
    assert state[..] == AddUp(old(state[..]), v);
  }

  /** The digest of the standard, as bytes. */
  function Digest(message: Text): (d: Text)
    ensures |d| == 32
  {
    WordsText(Hash(message))
  }

  // ----- whole messages

  lemma {:induction false} HashBlocksAppend(state: seq<Word>, a: Text, b: Text)
    requires |state| == 8 && |a| % 64 == 0 && |b| % 64 == 0
    ensures HashBlocks(state, a + b) == HashBlocks(HashBlocks(state, a), b)
    decreases |a|
  {
    hide Compress;
    if a == [] {
      assert a + b == b;
    } else {
      assert (a + b)[..64] == a[..64] && (a + b)[64..] == a[64..] + b;
      HashBlocksAppend(Compress(state, a[..64]), a[64..], b);
    }
  }

  lemma OneMoreBlock(state: seq<Word>, done: Text, block: Text)
    requires |state| == 8 && |done| % 64 == 0 && |block| == 64
    ensures HashBlocks(state, done + block) == Compress(HashBlocks(state, done), block)
  {
    hide Compress;
    HashBlocksAppend(state, done, block);
    assert block[..64] == block && block[64..] == [];
  }

  /** Feeds whole blocks to the state, in order. */
  method ProcessBlocks(state: array<Word>, blocks: Text)
    requires state.Length == 8 && |blocks| % 64 == 0
    modifies state
    ensures state[..] == HashBlocks(old(state[..]), blocks)
  {
    hide Compress;
    var i := 0;
    while i < |blocks| / 64
      invariant 0 <= i <= |blocks| / 64
      invariant state[..] == HashBlocks(old(state[..]), blocks[..64 * i])
    {
      OneMoreBlock(old(state[..]), blocks[..64 * i], blocks[64 * i..64 * i + 64]);
      assert blocks[..64 * (i + 1)] == blocks[..64 * i] + blocks[64 * i..64 * i + 64];
      ProcessBlock(state, blocks[64 * i..64 * i + 64]);
      i := i + 1;
    }
    assert blocks[..64 * i] == blocks;
  }

  /** The final one or two blocks: what is left over, a one bit, zeros, and the length. */
  method FillPadding(remainder: Text, bitLength: nat) returns (padded: Text)
    requires |remainder| < 64 && bitLength <= U64_MAX
    ensures padded == remainder + [0x80] + Zeros(ZeroCount(|remainder|)) + BigEndian(bitLength, 8)
  {
    var paddedLength := if |remainder| < 56 then 64 else 128;
    var padding := new Byte[128](_ => 0);
    var i := 0;
    while i < |remainder|
      invariant 0 <= i <= |remainder|
      invariant forall k :: 0 <= k < 128 ==> padding[k] == if k < i then remainder[k] else 0
    {
      padding[i] := remainder[i];
      i := i + 1;
    }
    padding[|remainder|] := 0x80;
    var length := BigEndian(bitLength, 8);
    i := 0;
    while i < 8
      invariant 0 <= i <= 8
      invariant forall k :: 0 <= k < 128 ==>
                  padding[k] == if k < |remainder| then remainder[k] else if k == |remainder| then 0x80
                                else if paddedLength - 8 <= k < paddedLength - 8 + i then length[k - (paddedLength - 8)]
                                else 0
    {
      padding[paddedLength - 8 + i] := length[i];
      i := i + 1;
    }
    padded := padding[..paddedLength];
    assert ZeroCount(|remainder|) == paddedLength - 9 - |remainder|;
  }

  /** `sha256`; the 64-bit length wraps, which it cannot below 2^61 bytes. */
  method Compute(input: Text) returns (output: Text)
    ensures output == WordsText(HashWith(input, WrappedBits(|input|)))
    ensures |input| < MAX_MESSAGE_BYTES ==> output == Digest(input)
  {
    hide HashBlocks, BigEndian, WordsText, Pad, WrappedBits;
    var state := new Word[8](i requires 0 <= i < 8 => INITIAL_STATE[i]);
    assert state[..] == INITIAL_STATE;
    var whole := |input| - |input| % 64;
    ProcessBlocks(state, input[..whole]);
    var bitLength := WrappedBits(|input|);
    var padding := FillPadding(input[whole..], bitLength);
    PadSplits(input, whole, bitLength);
    PadFillsBlocks(input, bitLength);
    HashBlocksAppend(INITIAL_STATE, input[..whole], padding);
    ProcessBlocks(state, padding);
    ghost var final := HashBlocks(INITIAL_STATE, Pad(input, bitLength));
    assert input[..whole] + padding == Pad(input, bitLength);
    assert state[..] == final;
    output := [];
    var i := 0;
    while i < 8
      invariant 0 <= i <= 8
      invariant state[..] == final && output == WordsText(state[..i])
    {
      output := output + BigEndian(state[i] as nat, 4);
      WordsTextStep(state[..], i);
      i := i + 1;
    }
    assert output == WordsText(final) by {
      assert state[..8] == state[..];
    }
  }

  lemma WordsTextStep(words: seq<Word>, i: nat)
    requires i < |words|
    ensures WordsText(words[..i + 1]) == WordsText(words[..i]) + BigEndian(words[i] as nat, 4)
  {
    assert words[..i + 1][..i] == words[..i];
  }

  /** Padding looks at the length modulo the block size only. */
  lemma PadSplits(input: Text, whole: nat, bitLength: nat)
    requires whole == |input| - |input| % 64
    ensures Pad(input, bitLength) ==
            input[..whole] + (input[whole..] + [0x80] + Zeros(ZeroCount(|input[whole..]|)) + BigEndian(bitLength, 8))
  {
    assert (55 - |input|) % 64 == (55 - |input| % 64) % 64;
    assert input == input[..whole] + input[whole..];
  }

  // ----- hexadecimal text

  /** `0-9 a-f`. */
  function HexDigit(v: int): Byte
    requires 0 <= v < 16
  {
    if v < 10 then 48 + v else 97 + (v - 10)
  }

  function Hex(bytes: Text): (h: Text)
    ensures |h| == 2 * |bytes|
  {
    if bytes == [] then []
    else Hex(bytes[..|bytes| - 1]) + [HexDigit(bytes[|bytes| - 1] / 16), HexDigit(bytes[|bytes| - 1] % 16)]
  }

  method LowerHex(bytes: Text) returns (output: Text)
    ensures output == Hex(bytes)
  {
    output := [];
    var i := 0;
    while i < |bytes|
      invariant 0 <= i <= |bytes| && output == Hex(bytes[..i])
    {
      assert bytes[..i + 1][..i] == bytes[..i];
      output := output + [HexDigit(bytes[i] / 16)];
      output := output + [HexDigit(bytes[i] % 16)];
      i := i + 1;
    }
    assert bytes[..i] == bytes;
  }

  lemma {:induction false} HexDigits(bytes: Text)
    ensures forall i :: 0 <= i < |Hex(bytes)| ==> 48 <= Hex(bytes)[i] <= 57 || 97 <= Hex(bytes)[i] <= 102
  {
    if bytes != [] {
      HexDigits(bytes[..|bytes| - 1]);
    }
  }

  /** Every computed digest is a digest text the bundle types accept. */
  lemma DigestTextIsValid(message: Text)
    ensures Distribution.ValidDigest(Hex(Digest(message)))
  {
    HexDigits(Digest(message));
  }

  /** Distinct digests have distinct texts. */
  lemma {:induction false} HexIsInjective(a: Text, b: Text)
    requires Hex(a) == Hex(b)
    ensures a == b
  {
    if a != [] {
      var m, n := a[..|a| - 1], b[..|b| - 1];
      var x, y := a[|a| - 1], b[|b| - 1];
      assert Hex(a)[..|Hex(a)| - 2] == Hex(m) && Hex(b)[..|Hex(b)| - 2] == Hex(n);
      assert Hex(a)[|Hex(a)| - 2] == HexDigit(x / 16) && Hex(a)[|Hex(a)| - 1] == HexDigit(x % 16);
      assert Hex(b)[|Hex(b)| - 2] == HexDigit(y / 16) && Hex(b)[|Hex(b)| - 1] == HexDigit(y % 16);
      HexIsInjective(m, n);
      assert x == y;
      assert a == m + [x] && b == n + [y];
    }
  }
}
