/** Known answers and index laws: what pins the cipher and the key expansion of AesSpec and AesCipher to FIPS 197, apart
    from what decryption undoes. */
module AesVectors {
  import opened Bits
  import opened AesTables
  import opened AesSpec
  import opened AesCipher

  // ---------- where bytes go

  function ByteOf(c: Col, i: nat): bv8
    requires i < 4
  {
    match i
    case 0 => c.b0
    case 1 => c.b1
    case 2 => c.b2
    case _ => c.b3
  }

  function ColumnOf(s: State, c: nat): Col
    requires c < 4
  {
    match c
    case 0 => s.c0
    case 1 => s.c1
    case 2 => s.c2
    case _ => s.c3
  }

  /** Section 5.2 of FIPS 197: [a0, a1, a2, a3] becomes [a1, a2, a3, a0]. */
  lemma RotWordIndex(w: Col, i: nat)
    requires i < 4
    ensures ByteOf(RotWord(w), i) == ByteOf(w, (i + 1) % 4)
  {
  }

  /** Section 5.1.2 of FIPS 197: row r of column c comes from column c + r. */
  lemma ShiftRowsIndex(s: State, r: nat, c: nat)
    requires r < 4 && c < 4
    ensures ByteOf(ColumnOf(ShiftRows(s), c), r) == ByteOf(ColumnOf(s, (c + r) % 4), r)
  {
  }

  /** Section 3.4 of FIPS 197: byte r + 4c of a block is row r of column c. */
  lemma BlockIndex(block: seq<bv8>, r: nat, c: nat)
    requires |block| == 16 && r < 4 && c < 4
    ensures ByteOf(ColumnOf(BlockState(block), c), r) == block[r + 4 * c]
  {
    match c {
      case 0 => assert ColumnOf(BlockState(block), c) == Col(block[0], block[1], block[2], block[3]);
      case 1 => assert ColumnOf(BlockState(block), c) == Col(block[4], block[5], block[6], block[7]);
      case 2 => assert ColumnOf(BlockState(block), c) == Col(block[8], block[9], block[10], block[11]);
      case _ => assert ColumnOf(BlockState(block), c) == Col(block[12], block[13], block[14], block[15]);
    }
    hide BlockState, ColumnOf;
  }

  lemma SmallProducts(b: bv8)
    ensures GMul(b, 2) == XTime(b) && GMul(b, 3) == Triple(b)
  {
  }

  /** Section 5.1.3 of FIPS 197: the matrix of MixColumns, in field products. */
  lemma MixColIndex(w: Col, i: nat)
    requires i < 4
    ensures ByteOf(MixCol(w), i)
      == Sum4(GMul(ByteOf(w, i), 2), GMul(ByteOf(w, (i + 1) % 4), 3), ByteOf(w, (i + 2) % 4), ByteOf(w, (i + 3) % 4))
  {
    hide GMul, XTime, Triple, Sum4;
    SmallProducts(ByteOf(w, i));
    SmallProducts(ByteOf(w, (i + 1) % 4));
    Rotate4(XTime(w.b0), Triple(w.b1), w.b2, w.b3);
    Rotate4(w.b0, XTime(w.b1), Triple(w.b2), w.b3);
    Rotate4(w.b0, w.b1, XTime(w.b2), Triple(w.b3));
    Rotate4(Triple(w.b0), w.b1, w.b2, XTime(w.b3));
  }

  // ---------- the example of appendices A.1 and B of FIPS 197

  const KEY: seq<bv8> := [0x2B, 0x7E, 0x15, 0x16, 0x28, 0xAE, 0xD2, 0xA6,
     0xAB, 0xF7, 0x15, 0x88, 0x09, 0xCF, 0x4F, 0x3C]
  const PLAIN: seq<bv8> := [0x32, 0x43, 0xF6, 0xA8, 0x88, 0x5A, 0x30, 0x8D,
     0x31, 0x31, 0x98, 0xA2, 0xE0, 0x37, 0x07, 0x34]
  const ENCRYPTED: seq<bv8> := [0x39, 0x25, 0x84, 0x1D, 0x02, 0xDC, 0x09, 0xFB,
     0xDC, 0x11, 0x85, 0x97, 0x19, 0x6A, 0x0B, 0x32]

  // The round keys.

  const K0 := State(Col(0x2B, 0x7E, 0x15, 0x16), Col(0x28, 0xAE, 0xD2, 0xA6),
    Col(0xAB, 0xF7, 0x15, 0x88), Col(0x09, 0xCF, 0x4F, 0x3C))
  const K1 := State(Col(0xA0, 0xFA, 0xFE, 0x17), Col(0x88, 0x54, 0x2C, 0xB1),
    Col(0x23, 0xA3, 0x39, 0x39), Col(0x2A, 0x6C, 0x76, 0x05))
  const K2 := State(Col(0xF2, 0xC2, 0x95, 0xF2), Col(0x7A, 0x96, 0xB9, 0x43),
    Col(0x59, 0x35, 0x80, 0x7A), Col(0x73, 0x59, 0xF6, 0x7F))
  const K3 := State(Col(0x3D, 0x80, 0x47, 0x7D), Col(0x47, 0x16, 0xFE, 0x3E),
    Col(0x1E, 0x23, 0x7E, 0x44), Col(0x6D, 0x7A, 0x88, 0x3B))
  const K4 := State(Col(0xEF, 0x44, 0xA5, 0x41), Col(0xA8, 0x52, 0x5B, 0x7F),
    Col(0xB6, 0x71, 0x25, 0x3B), Col(0xDB, 0x0B, 0xAD, 0x00))
  const K5 := State(Col(0xD4, 0xD1, 0xC6, 0xF8), Col(0x7C, 0x83, 0x9D, 0x87),
    Col(0xCA, 0xF2, 0xB8, 0xBC), Col(0x11, 0xF9, 0x15, 0xBC))
  const K6 := State(Col(0x6D, 0x88, 0xA3, 0x7A), Col(0x11, 0x0B, 0x3E, 0xFD),
    Col(0xDB, 0xF9, 0x86, 0x41), Col(0xCA, 0x00, 0x93, 0xFD))
  const K7 := State(Col(0x4E, 0x54, 0xF7, 0x0E), Col(0x5F, 0x5F, 0xC9, 0xF3),
    Col(0x84, 0xA6, 0x4F, 0xB2), Col(0x4E, 0xA6, 0xDC, 0x4F))
  const K8 := State(Col(0xEA, 0xD2, 0x73, 0x21), Col(0xB5, 0x8D, 0xBA, 0xD2),
    Col(0x31, 0x2B, 0xF5, 0x60), Col(0x7F, 0x8D, 0x29, 0x2F))
  const K9 := State(Col(0xAC, 0x77, 0x66, 0xF3), Col(0x19, 0xFA, 0xDC, 0x21),
    Col(0x28, 0xD1, 0x29, 0x41), Col(0x57, 0x5C, 0x00, 0x6E))
  const K10 := State(Col(0xD0, 0x14, 0xF9, 0xA8), Col(0xC9, 0xEE, 0x25, 0x89),
    Col(0xE1, 0x3F, 0x0C, 0xC8), Col(0xB6, 0x63, 0x0C, 0xA6))

  // The state after each round.

  const S0 := State(Col(0x19, 0x3D, 0xE3, 0xBE), Col(0xA0, 0xF4, 0xE2, 0x2B),
    Col(0x9A, 0xC6, 0x8D, 0x2A), Col(0xE9, 0xF8, 0x48, 0x08))
  const S1 := State(Col(0xA4, 0x9C, 0x7F, 0xF2), Col(0x68, 0x9F, 0x35, 0x2B),
    Col(0x6B, 0x5B, 0xEA, 0x43), Col(0x02, 0x6A, 0x50, 0x49))
  const S2 := State(Col(0xAA, 0x8F, 0x5F, 0x03), Col(0x61, 0xDD, 0xE3, 0xEF),
    Col(0x82, 0xD2, 0x4A, 0xD2), Col(0x68, 0x32, 0x46, 0x9A))
  const S3 := State(Col(0x48, 0x6C, 0x4E, 0xEE), Col(0x67, 0x1D, 0x9D, 0x0D),
    Col(0x4D, 0xE3, 0xB1, 0x38), Col(0xD6, 0x5F, 0x58, 0xE7))
  const S4 := State(Col(0xE0, 0x92, 0x7F, 0xE8), Col(0xC8, 0x63, 0x63, 0xC0),
    Col(0xD9, 0xB1, 0x35, 0x50), Col(0x85, 0xB8, 0xBE, 0x01))
  const S5 := State(Col(0xF1, 0x00, 0x6F, 0x55), Col(0xC1, 0x92, 0x4C, 0xEF),
    Col(0x7C, 0xC8, 0x8B, 0x32), Col(0x5D, 0xB5, 0xD5, 0x0C))
  const S6 := State(Col(0x26, 0x0E, 0x2E, 0x17), Col(0x3D, 0x41, 0xB7, 0x7D),
    Col(0xE8, 0x64, 0x72, 0xA9), Col(0xFD, 0xD2, 0x8B, 0x25))
  const S7 := State(Col(0x5A, 0x41, 0x42, 0xB1), Col(0x19, 0x49, 0xDC, 0x1F),
    Col(0xA3, 0xE0, 0x19, 0x65), Col(0x7A, 0x8C, 0x04, 0x0C))
  const S8 := State(Col(0xEA, 0x83, 0x5C, 0xF0), Col(0x04, 0x45, 0x33, 0x2D),
    Col(0x65, 0x5D, 0x98, 0xAD), Col(0x85, 0x96, 0xB0, 0xC5))
  const S9 := State(Col(0xEB, 0x40, 0xF2, 0x1E), Col(0x59, 0x2E, 0x38, 0x84),
    Col(0x8B, 0xA1, 0x13, 0xE7), Col(0x1B, 0xC3, 0x42, 0xD2))

  /** The next round key of a 128-bit key. */
  function NextKey(k: State, rc: bv8): State {
    var c0 := Add(k.c0, Add(SubCol(RotWord(k.c3)), Col(rc, 0, 0, 0)));
    var c1 := Add(k.c1, c0);
    var c2 := Add(k.c2, c1);
    State(c0, c1, c2, Add(k.c3, c2))
  }

  function KeyAt(key: seq<Col>, r: nat): State
    requires |key| == 4
  {
    State(KeyWord(key, 4 * r), KeyWord(key, 4 * r + 1), KeyWord(key, 4 * r + 2), KeyWord(key, 4 * r + 3))
  }

  lemma KeyFollows(key: seq<Col>, r: nat)
    requires |key| == 4 && r > 0
    ensures KeyAt(key, r) == NextKey(KeyAt(key, r - 1), RoundConstant(r - 1))
  {
    hide Add, SubCol, RotWord, RoundConstant;
    assert 4 * r / 4 == r;
  }

  lemma Constants()
    ensures RoundConstant(0) == 0x01 && RoundConstant(1) == 0x02 && RoundConstant(2) == 0x04 && RoundConstant(3) == 0x08
    ensures RoundConstant(4) == 0x10
    ensures RoundConstant(5) == 0x20 && RoundConstant(6) == 0x40 && RoundConstant(7) == 0x80 && RoundConstant(8) == 0x1B
    ensures RoundConstant(9) == 0x36
  {
  }

  lemma Key1()
    ensures NextKey(K0, 0x01) == K1
  {
  }

  lemma Key2()
    ensures NextKey(K1, 0x02) == K2
  {
  }

  lemma Key3()
    ensures NextKey(K2, 0x04) == K3
  {
  }

  lemma Key4()
    ensures NextKey(K3, 0x08) == K4
  {
  }

  lemma Key5()
    ensures NextKey(K4, 0x10) == K5
  {
  }

  lemma Key6()
    ensures NextKey(K5, 0x20) == K6
  {
  }

  lemma Key7()
    ensures NextKey(K6, 0x40) == K7
  {
  }

  lemma Key8()
    ensures NextKey(K7, 0x80) == K8
  {
  }

  lemma Key9()
    ensures NextKey(K8, 0x1B) == K9
  {
  }

  lemma Key10()
    ensures NextKey(K9, 0x36) == K10
  {
  }

  lemma ExampleKeys()
    ensures var c := KeyCols(KEY);
      && KeyAt(c, 0) == K0 && KeyAt(c, 1) == K1 && KeyAt(c, 2) == K2 && KeyAt(c, 3) == K3
      && KeyAt(c, 4) == K4 && KeyAt(c, 5) == K5 && KeyAt(c, 6) == K6 && KeyAt(c, 7) == K7
      && KeyAt(c, 8) == K8 && KeyAt(c, 9) == K9 && KeyAt(c, 10) == K10
  {
    hide NextKey, KeyWord, RoundConstant;
    var c := KeyCols(KEY);
    Constants();
    FirstKey();
    KeyFollows(c, 1);
    Key1();
    KeyFollows(c, 2);
    Key2();
    KeyFollows(c, 3);
    Key3();
    KeyFollows(c, 4);
    Key4();
    KeyFollows(c, 5);
    Key5();
    KeyFollows(c, 6);
    Key6();
    KeyFollows(c, 7);
    Key7();
    KeyFollows(c, 8);
    Key8();
    KeyFollows(c, 9);
    Key9();
    KeyFollows(c, 10);
    Key10();
  }

  lemma FirstKey()
    ensures KeyAt(KeyCols(KEY), 0) == K0
  {
  }

  lemma RoundKeyAt(r: nat)
    requires r <= 10
    ensures RoundKeys(KEY)[r] == KeyAt(KeyCols(KEY), r)
  {
    hide KeyWord;
  }

  /** Appendix A.1: the whole expansion of a 128-bit key. */
  lemma Expansion128()
    ensures RoundKeys(KEY) == [K0, K1, K2, K3, K4, K5, K6, K7, K8, K9, K10]
  {
    hide KeyAt, RoundKeys;
    ExampleKeys();
    forall r | 0 <= r <= 10 ensures RoundKeys(KEY)[r] == KeyAt(KeyCols(KEY), r) {
      RoundKeyAt(r);
    }
  }

  lemma Round1()
    ensures EncRound(S0, K1) == S1
  {
  }

  lemma Round2()
    ensures EncRound(S1, K2) == S2
  {
  }

  lemma Round3()
    ensures EncRound(S2, K3) == S3
  {
  }

  lemma Round4()
    ensures EncRound(S3, K4) == S4
  {
  }

  lemma Round5()
    ensures EncRound(S4, K5) == S5
  {
  }

  lemma Round6()
    ensures EncRound(S5, K6) == S6
  {
  }

  lemma Round7()
    ensures EncRound(S6, K7) == S7
  {
  }

  lemma Round8()
    ensures EncRound(S7, K8) == S8
  {
  }

  lemma Round9()
    ensures EncRound(S8, K9) == S9
  {
  }

  lemma FirstState()
    ensures AddRoundKey(BlockState(PLAIN), K0) == S0
  {
  }

  lemma LastState()
    ensures StateBlock(EncFinal(S9, K10)) == ENCRYPTED
  {
  }

  lemma NextRound(s: State, keys: seq<State>, r: nat, u: State, v: State)
    requires 0 < r < |keys| && EncRounds(s, keys, r - 1) == u && EncRound(u, keys[r]) == v
    ensures EncRounds(s, keys, r) == v
  {
    hide EncRound;
  }

  lemma FirstRounds(keys: seq<State>)
    requires keys == [K0, K1, K2, K3, K4, K5, K6, K7, K8, K9, K10]
    ensures EncRounds(BlockState(PLAIN), keys, 4) == S4
  {
    hide EncRound, EncRounds, BlockState;
    var s := BlockState(PLAIN);
    FirstState();
    NoRounds(s, keys);
    Round1();
    NextRound(s, keys, 1, S0, S1);
    Round2();
    NextRound(s, keys, 2, S1, S2);
    Round3();
    NextRound(s, keys, 3, S2, S3);
    Round4();
    NextRound(s, keys, 4, S3, S4);
  }

  lemma ExampleRounds(keys: seq<State>)
    requires keys == [K0, K1, K2, K3, K4, K5, K6, K7, K8, K9, K10]
    ensures EncRounds(BlockState(PLAIN), keys, 9) == S9
  {
    hide EncRound, EncRounds, BlockState;
    var s := BlockState(PLAIN);
    FirstRounds(keys);
    Round5();
    NextRound(s, keys, 5, S4, S5);
    Round6();
    NextRound(s, keys, 6, S5, S6);
    Round7();
    NextRound(s, keys, 7, S6, S7);
    Round8();
    NextRound(s, keys, 8, S7, S8);
    Round9();
    NextRound(s, keys, 9, S8, S9);
  }

  lemma NoRounds(s: State, keys: seq<State>)
    requires keys != []
    ensures EncRounds(s, keys, 0) == AddRoundKey(s, keys[0])
  {
  }

  /** Appendix B: the block is encrypted, and decrypted, as FIPS 197 says. */
  lemma ExampleBlock(key: seq<bv8>, block: seq<bv8>)
    requires key == KEY && block == PLAIN
    ensures EncryptBlock(key, block) == ENCRYPTED && DecryptBlock(key, ENCRYPTED) == block
  {
    hide EncRounds, EncFinal, RoundKeys, BlockState, StateBlock, EqInvCipher, DecKeys;
    Expansion128();
    ExampleRounds(RoundKeys(KEY));
    LastState();
    DecryptUndoesEncrypt(KEY, PLAIN);
  }

  // ---------- longer keys

  /** Appendix A.2: the first words after a 192-bit key. */
  lemma Expansion192(key: seq<Col>)
    requires |key| == 6
    requires key[0] == Col(0x8E, 0x73, 0xB0, 0xF7) && key[1] == Col(0xDA, 0x0E, 0x64, 0x52)
    requires key[2] == Col(0xC8, 0x10, 0xF3, 0x2B) && key[3] == Col(0x80, 0x90, 0x79, 0xE5)
    requires key[4] == Col(0x62, 0xF8, 0xEA, 0xD2) && key[5] == Col(0x52, 0x2C, 0x6B, 0x7B)
    ensures KeyWord(key, 6) == Col(0xFE, 0x0C, 0x91, 0xF7)
    ensures KeyWord(key, 7) == Col(0x24, 0x02, 0xF5, 0xA5)
  {
    Constants();
    hide RoundConstant;
  }

  /** Appendix A.3: the first words after a 256-bit key; word 12 is substituted without being rotated. */
  lemma Expansion256(key: seq<Col>)
    requires |key| == 8
    requires key[0] == Col(0x60, 0x3D, 0xEB, 0x10) && key[1] == Col(0x15, 0xCA, 0x71, 0xBE)
    requires key[2] == Col(0x2B, 0x73, 0xAE, 0xF0) && key[3] == Col(0x85, 0x7D, 0x77, 0x81)
    requires key[4] == Col(0x1F, 0x35, 0x2C, 0x07) && key[5] == Col(0x3B, 0x61, 0x08, 0xD7)
    requires key[6] == Col(0x2D, 0x98, 0x10, 0xA3) && key[7] == Col(0x09, 0x14, 0xDF, 0xF4)
    ensures KeyWord(key, 8) == Col(0x9B, 0xA3, 0x54, 0x11)
    ensures KeyWord(key, 9) == Col(0x8E, 0x69, 0x25, 0xAF)
    ensures KeyWord(key, 10) == Col(0xA5, 0x1A, 0x8B, 0x5F)
    ensures KeyWord(key, 11) == Col(0x20, 0x67, 0xFC, 0xDE)
    ensures KeyWord(key, 12) == Col(0xA8, 0xB0, 0x9C, 0x1A)
  {
    Constants();
    hide RoundConstant;
  }
}
