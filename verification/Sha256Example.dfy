/** The hash of "abc", word by word of the schedule and round by round, as FIPS 180-4 defines it. */
module Sha256Example {
  import opened Bytes
  import opened Sha256

  const MESSAGE: Text := [97, 98, 99]

  const BLOCK: Text := MESSAGE + [0x80] + Zeros(52) + [0, 0, 0, 0, 0, 0, 0, 24]

  lemma PaddedMessage()
    ensures Pad(MESSAGE, 24) == BLOCK
  {
    BigEndianOfSmall();
  }

  lemma BigEndianOfSmall()
    ensures BigEndian(24, 8) == [0, 0, 0, 0, 0, 0, 0, 24]
  {
    assert BigEndian(0, 3) == [0, 0, 0];
    assert BigEndian(0, 5) == [0, 0, 0, 0, 0];
    assert BigEndian(0, 7) == [0, 0, 0, 0, 0, 0, 0];
  }

  lemma BlockBytes(t: nat)
    requires t < 16
    ensures BLOCK[4 * t..4 * t + 4]
            == if t == 0 then [97, 98, 99, 128] else if t == 15 then [0, 0, 0, 24] else [0, 0, 0, 0]
  {
    assert BLOCK[60..64] == [0, 0, 0, 24];
  }

  function ToWord(n: nat): Word
    requires n < 0x1_0000_0000
  {
    n as Word
  }

  function BytesNumber(b: Text): nat
    requires |b| == 4
  {
    (b[0] as int * 256 + b[1]) * 0x1_0000 + (b[2] as int * 256 + b[3])
  }

  lemma WordOfNumber(b: Text)
    requires |b| == 4
    ensures BytesNumber(b) < 0x1_0000_0000 && WordOf(b) == ToWord(BytesNumber(b))
  {
  }

  lemma WordIsNumber(w: Word)
    ensures ToWord(w as nat) == w
  {
  }

  lemma WordOfText()
    ensures WordOf([97, 98, 99, 128]) == 0x61626380
  {
    assert 0x61626380 as Word as nat == 0x61626380;
    hide WordOf, ToWord;
    WordOfNumber([97, 98, 99, 128]);
    WordIsNumber(0x61626380);
  }

  lemma WordOfZeros()
    ensures WordOf([0, 0, 0, 0]) == 0
  {
    hide WordOf, ToWord;
    WordOfNumber([0, 0, 0, 0]);
    WordIsNumber(0);
  }

  lemma WordOfLength()
    ensures WordOf([0, 0, 0, 24]) == 24
  {
    hide WordOf, ToWord;
    WordOfNumber([0, 0, 0, 24]);
    WordIsNumber(24);
  }

  lemma FirstWords(t: nat)
    requires t < 16
    ensures Schedule(BLOCK, t) == if t == 0 then 0x61626380 else if t == 15 then 24 else 0
  {
    BlockBytes(t);
    hide WordOf;
    WordOfText();
    WordOfZeros();
    WordOfLength();
  }

  lemma Recurrence(t: nat)
    requires 16 <= t < 64
    ensures Schedule(BLOCK, t) == Sum4(SmallSigma1(Schedule(BLOCK, t - 2)), Schedule(BLOCK, t - 7),
                                       SmallSigma0(Schedule(BLOCK, t - 15)), Schedule(BLOCK, t - 16))
  {
  }

  lemma Words0()
    ensures Schedule(BLOCK, 0) == 0x61626380 && Schedule(BLOCK, 1) == 0x00000000
    ensures Schedule(BLOCK, 2) == 0x00000000 && Schedule(BLOCK, 3) == 0x00000000
    ensures Schedule(BLOCK, 4) == 0x00000000 && Schedule(BLOCK, 5) == 0x00000000
    ensures Schedule(BLOCK, 6) == 0x00000000 && Schedule(BLOCK, 7) == 0x00000000
    ensures Schedule(BLOCK, 8) == 0x00000000 && Schedule(BLOCK, 9) == 0x00000000
    ensures Schedule(BLOCK, 10) == 0x00000000 && Schedule(BLOCK, 11) == 0x00000000
    ensures Schedule(BLOCK, 12) == 0x00000000 && Schedule(BLOCK, 13) == 0x00000000
    ensures Schedule(BLOCK, 14) == 0x00000000 && Schedule(BLOCK, 15) == 0x00000018
  {
    hide Schedule;
    forall t | 0 <= t < 16 {
      FirstWords(t);
    }
  }

  lemma Words16()
    ensures Schedule(BLOCK, 16) == 0x61626380 && Schedule(BLOCK, 17) == 0x000f0000
    ensures Schedule(BLOCK, 18) == 0x7da86405 && Schedule(BLOCK, 19) == 0x600003c6
    ensures Schedule(BLOCK, 20) == 0x3e9d7b78 && Schedule(BLOCK, 21) == 0x0183fc00
    ensures Schedule(BLOCK, 22) == 0x12dcbfdb && Schedule(BLOCK, 23) == 0xe2e2c38e
    ensures Schedule(BLOCK, 24) == 0xc8215c1a && Schedule(BLOCK, 25) == 0xb73679a2
    ensures Schedule(BLOCK, 26) == 0xe5bc3909 && Schedule(BLOCK, 27) == 0x32663c5b
    ensures Schedule(BLOCK, 28) == 0x9d209d67 && Schedule(BLOCK, 29) == 0xec8726cb
    ensures Schedule(BLOCK, 30) == 0x702138a4 && Schedule(BLOCK, 31) == 0xd3b7973b
  {
    hide Schedule;
    Words0();
    Recurrence(16); Recurrence(17); Recurrence(18); Recurrence(19);
    Recurrence(20); Recurrence(21); Recurrence(22); Recurrence(23);
    Recurrence(24); Recurrence(25); Recurrence(26); Recurrence(27);
    Recurrence(28); Recurrence(29); Recurrence(30); Recurrence(31);
  }

  lemma Words32()
    ensures Schedule(BLOCK, 32) == 0x93f5997f && Schedule(BLOCK, 33) == 0x3b68ba73
    ensures Schedule(BLOCK, 34) == 0xaff4ffc1 && Schedule(BLOCK, 35) == 0xf10a5c62
    ensures Schedule(BLOCK, 36) == 0x0a8b3996 && Schedule(BLOCK, 37) == 0x72af830a
    ensures Schedule(BLOCK, 38) == 0x9409e33e && Schedule(BLOCK, 39) == 0x24641522
    ensures Schedule(BLOCK, 40) == 0x9f47bf94 && Schedule(BLOCK, 41) == 0xf0a64f5a
    ensures Schedule(BLOCK, 42) == 0x3e246a79 && Schedule(BLOCK, 43) == 0x27333ba3
    ensures Schedule(BLOCK, 44) == 0x0c4763f2 && Schedule(BLOCK, 45) == 0x840abf27
    ensures Schedule(BLOCK, 46) == 0x7a290d5d && Schedule(BLOCK, 47) == 0x065c43da
  {
    hide Schedule;
    Words16();
    Recurrence(32); Recurrence(33); Recurrence(34); Recurrence(35);
    Recurrence(36); Recurrence(37); Recurrence(38); Recurrence(39);
    Recurrence(40); Recurrence(41); Recurrence(42); Recurrence(43);
    Recurrence(44); Recurrence(45); Recurrence(46); Recurrence(47);
  }

  lemma Words48()
    ensures Schedule(BLOCK, 48) == 0xfb3e89cb && Schedule(BLOCK, 49) == 0xcc7617db
    ensures Schedule(BLOCK, 50) == 0xb9e66c34 && Schedule(BLOCK, 51) == 0xa9993667
    ensures Schedule(BLOCK, 52) == 0x84badedd && Schedule(BLOCK, 53) == 0xc21462bc
    ensures Schedule(BLOCK, 54) == 0x1487472c && Schedule(BLOCK, 55) == 0xb20f7a99
    ensures Schedule(BLOCK, 56) == 0xef57b9cd && Schedule(BLOCK, 57) == 0xebe6b238
    ensures Schedule(BLOCK, 58) == 0x9fe3095e && Schedule(BLOCK, 59) == 0x78bc8d4b
    ensures Schedule(BLOCK, 60) == 0xa43fcf15 && Schedule(BLOCK, 61) == 0x668b2ff8
    ensures Schedule(BLOCK, 62) == 0xeeaba2cc && Schedule(BLOCK, 63) == 0x12b1edeb
  {
    hide Schedule;
    Words32();
    Recurrence(48); Recurrence(49); Recurrence(50); Recurrence(51);
    Recurrence(52); Recurrence(53); Recurrence(54); Recurrence(55);
    Recurrence(56); Recurrence(57); Recurrence(58); Recurrence(59);
    Recurrence(60); Recurrence(61); Recurrence(62); Recurrence(63);
  }

  lemma NextRound(t: nat, v: Working) returns (next: Working)
    requires t < 64 && Rounds(INITIAL_STATE, BLOCK, t) == v
    ensures next == Rounds(INITIAL_STATE, BLOCK, t + 1) == Round(v, ROUND_CONSTANTS[t], Schedule(BLOCK, t))
  {
    next := Rounds(INITIAL_STATE, BLOCK, t + 1);
  }

  lemma NoRounds() returns (v: Working)
    ensures v == Rounds(INITIAL_STATE, BLOCK, 0)
    ensures v == Working(0x6a09e667, 0xbb67ae85, 0x3c6ef372, 0xa54ff53a, 0x510e527f, 0x9b05688c, 0x1f83d9ab, 0x5be0cd19)
  {
    v := Rounds(INITIAL_STATE, BLOCK, 0);
  }

  lemma RoundsTo8() returns (v: Working)
    ensures v == Rounds(INITIAL_STATE, BLOCK, 8)
    ensures v == Working(0x85a07b5f, 0xe5030380, 0x2b4209f5, 0x04409a6a, 0x0c657a79, 0x9b27a401, 0x714260ad, 0x43ada245)
  {
    hide Schedule, Rounds;
    Words0();
    v := NoRounds();
    v := NextRound(0, v); v := NextRound(1, v); v := NextRound(2, v); v := NextRound(3, v);
    v := NextRound(4, v); v := NextRound(5, v); v := NextRound(6, v); v := NextRound(7, v);
  }

  lemma RoundsTo16() returns (v: Working)
    ensures v == Rounds(INITIAL_STATE, BLOCK, 16)
    ensures v == Working(0xb0fa238e, 0xc0645fde, 0xd932eb16, 0x87912990, 0x07590dcd, 0x0b92f20c, 0x745a48de, 0x1e578218)
  {
    hide Schedule, Rounds;
    Words0();
    v := RoundsTo8();
    v := NextRound(8, v); v := NextRound(9, v); v := NextRound(10, v); v := NextRound(11, v);
    v := NextRound(12, v); v := NextRound(13, v); v := NextRound(14, v); v := NextRound(15, v);
  }

  lemma RoundsTo24() returns (v: Working)
    ensures v == Rounds(INITIAL_STATE, BLOCK, 24)
    ensures v == Working(0xc5d53d8d, 0xa7a3623f, 0xc2606d6d, 0x9dc68b63, 0xaa47c347, 0x49f5114a, 0xe1257970, 0x8ada8930)
  {
    hide Schedule, Rounds;
    Words16();
    v := RoundsTo16();
    v := NextRound(16, v); v := NextRound(17, v); v := NextRound(18, v); v := NextRound(19, v);
    v := NextRound(20, v); v := NextRound(21, v); v := NextRound(22, v); v := NextRound(23, v);
  }

  lemma RoundsTo32() returns (v: Working)
    ensures v == Rounds(INITIAL_STATE, BLOCK, 32)
    ensures v == Working(0x73b33bf5, 0xea992a22, 0xa0060b30, 0x363482c9, 0xba591112, 0x0109ab3a, 0xade79437, 0x6112a3b7)
  {
    hide Schedule, Rounds;
    Words16();
    v := RoundsTo24();
    v := NextRound(24, v); v := NextRound(25, v); v := NextRound(26, v); v := NextRound(27, v);
    v := NextRound(28, v); v := NextRound(29, v); v := NextRound(30, v); v := NextRound(31, v);
  }

  lemma RoundsTo34() returns (v: Working)
    ensures v == Rounds(INITIAL_STATE, BLOCK, 34)
    ensures v == Working(0xfe604df5, 0x98e12507, 0x73b33bf5, 0xea992a22, 0x59249dd3, 0x9cd9f5f6, 0xba591112, 0x0109ab3a)
  {
    hide Schedule, Rounds;
    Words32();
    v := RoundsTo32();
    v := NextRound(32, v); v := NextRound(33, v);
  }

  lemma RoundsTo40() returns (v: Working)
    ensures v == Rounds(INITIAL_STATE, BLOCK, 40)
    ensures v == Working(0x79ea687a, 0x6dc57a8a, 0x34df1604, 0x41a65cb1, 0x1efbc0a0, 0xf0781bc8, 0xa507a53d, 0x0772a26b)
  {
    hide Schedule, Rounds;
    Words32();
    v := RoundsTo34();
    v := NextRound(34, v); v := NextRound(35, v); v := NextRound(36, v); v := NextRound(37, v);
    v := NextRound(38, v); v := NextRound(39, v);
  }

  lemma RoundsTo48() returns (v: Working)
    ensures v == Rounds(INITIAL_STATE, BLOCK, 48)
    ensures v == Working(0x4172328d, 0xa14c14b0, 0x72ab4b91, 0x26628815, 0xfecf0bc6, 0xd57b94a9, 0xb7755da1, 0xa80f11f0)
  {
    hide Schedule, Rounds;
    Words32();
    v := RoundsTo40();
    v := NextRound(40, v); v := NextRound(41, v); v := NextRound(42, v); v := NextRound(43, v);
    v := NextRound(44, v); v := NextRound(45, v); v := NextRound(46, v); v := NextRound(47, v);
  }

  lemma RoundsTo56() returns (v: Working)
    ensures v == Rounds(INITIAL_STATE, BLOCK, 56)
    ensures v == Working(0x38cc9913, 0x3ec45cdb, 0xf5702fdb, 0x101fd28f, 0x54cb266b, 0xe50e1b4f, 0x9f4787c3, 0x529e7d00)
  {
    hide Schedule, Rounds;
    Words48();
    v := RoundsTo48();
    v := NextRound(48, v); v := NextRound(49, v); v := NextRound(50, v); v := NextRound(51, v);
    v := NextRound(52, v); v := NextRound(53, v); v := NextRound(54, v); v := NextRound(55, v);
  }

  lemma RoundsTo64() returns (v: Working)
    ensures v == Rounds(INITIAL_STATE, BLOCK, 64)
    ensures v == Working(0x506e3058, 0xd39a2165, 0x04d24d6c, 0xb85e2ce9, 0x5ef50f24, 0xfb121210, 0x948d25b6, 0x961f4894)
  {
    hide Schedule, Rounds;
    Words48();
    v := RoundsTo56();
    v := NextRound(56, v); v := NextRound(57, v); v := NextRound(58, v); v := NextRound(59, v);
    v := NextRound(60, v); v := NextRound(61, v); v := NextRound(62, v); v := NextRound(63, v);
  }

  /** The known hash of the example message; it depends on every constant, function and round of the algorithm. */
  lemma HashOfAbc()
    ensures Hash(Ascii("abc")) == [0xba7816bf, 0x8f01cfea, 0x414140de, 0x5dae2223,
                                   0xb00361a3, 0x96177a9c, 0xb410ff61, 0xf20015ad]
  {
    var v := RoundsTo64();
    assert Ascii("abc") == MESSAGE;
    PaddedMessage();
    hide Rounds, Pad;
    assert BLOCK[..64] == BLOCK && BLOCK[64..] == [];
  }
}
