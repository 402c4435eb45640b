/** The cipher over 32-bit words and lookup tables: key schedules, block encryption and decryption. Each
    method is proved to compute the FIPS 197 function of AesSpec on the bytes of its words. */
module AesCipher {
  import opened Bits
  import opened AesTables
  import opened AesSpec

  // ---------- words and their bytes

  function Byte0(w: bv32): bv8 { (w & 0xFF) as bv8 }

  function Byte1(w: bv32): bv8 { ((w >> 8) & 0xFF) as bv8 }

  function Byte2(w: bv32): bv8 { ((w >> 16) & 0xFF) as bv8 }

  function Byte3(w: bv32): bv8 { ((w >> 24) & 0xFF) as bv8 }

  /** The column that a little-endian word holds. */
  function Unpack(w: bv32): Col {
    Col(Byte0(w), Byte1(w), Byte2(w), Byte3(w))
  }

  /** One byte of each of four words, as a round combines them. */
  function Diagonal(y0: bv32, y1: bv32, y2: bv32, y3: bv32): Col {
    Col(Byte0(y0), Byte1(y1), Byte2(y2), Byte3(y3))
  }

  function WordXor(x: bv32, y: bv32): bv32 { x ^ y }

  function RotL8(x: bv32): bv32 { (x << 8) + (x >> 24) }

  function RotL16(x: bv32): bv32 { (x << 16) + (x >> 16) }

  function RotL24(x: bv32): bv32 { (x << 24) + (x >> 8) }

  lemma WordBytes(a: bv8, b: bv8, c: bv8, d: bv8)
    ensures Unpack(Word(a, b, c, d)) == Col(a, b, c, d)
  {
  }

  lemma XorBytes(x: bv32, y: bv32)
    ensures Unpack(WordXor(x, y)) == Add(Unpack(x), Unpack(y))
  {
  }

  lemma RotateBytes(x: bv32)
    ensures var c := Unpack(x);
      && Unpack(RotL8(x)) == Col(c.b3, c.b0, c.b1, c.b2)
      && Unpack(RotL16(x)) == Col(c.b2, c.b3, c.b0, c.b1)
      && Unpack(RotL24(x)) == Col(c.b1, c.b2, c.b3, c.b0)
  {
  }

  /** GET_UINT32_LE */
  function GetLe(b: seq<bv8>, i: nat): bv32
    requires i + 4 <= |b|
  {
    (b[i] as bv32) | (b[i + 1] as bv32 << 8) | (b[i + 2] as bv32 << 16) | (b[i + 3] as bv32 << 24)
  }

  lemma OrBytes(a: bv8, b: bv8, c: bv8, d: bv8)
    ensures Unpack((a as bv32) | (b as bv32 << 8) | (c as bv32 << 16) | (d as bv32 << 24)) == Col(a, b, c, d)
  {
  }

  lemma GetLeBytes(b: seq<bv8>, i: nat)
    requires i + 4 <= |b|
    ensures Unpack(GetLe(b, i)) == Col(b[i], b[i + 1], b[i + 2], b[i + 3])
  {
    hide Unpack;
    OrBytes(b[i], b[i + 1], b[i + 2], b[i + 3]);
  }

  // ---------- one column of a round

  /** The four table columns add up to the mixed column, and the key goes on top. */
  lemma TableColumn(k: Col, s: Col, t0: Col, t1: Col, t2: Col, t3: Col)
    requires t0 == Col(XTime(s.b0), s.b0, s.b0, Triple(s.b0))
    requires t1 == Col(Triple(s.b1), XTime(s.b1), s.b1, s.b1)
    requires t2 == Col(s.b2, Triple(s.b2), XTime(s.b2), s.b2)
    requires t3 == Col(s.b3, s.b3, Triple(s.b3), XTime(s.b3))
    ensures Add(Add(Add(Add(k, t0), t1), t2), t3) == Add(MixCol(s), k)
  {
    hide Xor, XTime, Triple;
    KeyOnTop(k.b0, t0.b0, t1.b0, t2.b0, t3.b0);
    KeyOnTop(k.b1, t0.b1, t1.b1, t2.b1, t3.b1);
    KeyOnTop(k.b2, t0.b2, t1.b2, t2.b2, t3.b2);
    KeyOnTop(k.b3, t0.b3, t1.b3, t2.b3, t3.b3);
  }

  lemma InvTableColumn(k: Col, s: Col, t0: Col, t1: Col, t2: Col, t3: Col)
    requires t0 == Col(GMul(s.b0, 0x0E), GMul(s.b0, 0x09), GMul(s.b0, 0x0D), GMul(s.b0, 0x0B))
    requires t1 == Col(GMul(s.b1, 0x0B), GMul(s.b1, 0x0E), GMul(s.b1, 0x09), GMul(s.b1, 0x0D))
    requires t2 == Col(GMul(s.b2, 0x0D), GMul(s.b2, 0x0B), GMul(s.b2, 0x0E), GMul(s.b2, 0x09))
    requires t3 == Col(GMul(s.b3, 0x09), GMul(s.b3, 0x0D), GMul(s.b3, 0x0B), GMul(s.b3, 0x0E))
    ensures Add(Add(Add(Add(k, t0), t1), t2), t3) == Add(InvMixCol(s), k)
    ensures Add(Add(Add(t0, t1), t2), t3) == InvMixCol(s)
  {
    hide Xor, GMul;
    KeyOnTop(k.b0, t0.b0, t1.b0, t2.b0, t3.b0);
    KeyOnTop(k.b1, t0.b1, t1.b1, t2.b1, t3.b1);
    KeyOnTop(k.b2, t0.b2, t1.b2, t2.b2, t3.b2);
    KeyOnTop(k.b3, t0.b3, t1.b3, t2.b3, t3.b3);
  }

  lemma KeyOnTop(k: bv8, a: bv8, b: bv8, c: bv8, d: bv8)
    ensures Xor(Xor(Xor(Xor(k, a), b), c), d) == Xor(Sum4(a, b, c, d), k)
  {
    hide Xor;
    XorCommutes(k, a);
    XorAssociates(a, k, b);
    XorCommutes(k, b);
    XorAssociates(a, b, k);
    XorAssociates(Xor(a, b), k, c);
    XorCommutes(k, c);
    XorAssociates(Xor(a, b), c, k);
    XorAssociates(Xor(Xor(a, b), c), k, d);
    XorCommutes(k, d);
    XorAssociates(Xor(Xor(a, b), c), d, k);
  }

  lemma TableBytes(s: bv8)
    ensures Unpack(MixWord(s)) == Col(XTime(s), s, s, Triple(s))
    ensures Unpack(InvMixWord(s)) == Col(GMul(s, 0x0E), GMul(s, 0x09), GMul(s, 0x0D), GMul(s, 0x0B))
  {
    hide XTime, GMul, Unpack, Word;
    WordBytes(XTime(s), s, s, Triple(s));
    WordBytes(GMul(s, 0x0E), GMul(s, 0x09), GMul(s, 0x0D), GMul(s, 0x0B));
  }

  // ---------- blocks and round keys

  /** The state that sixteen bytes fill, column by column. */
  function BlockState(b: seq<bv8>): State
    requires |b| == 16
  {
    State(Col(b[0], b[1], b[2], b[3]), Col(b[4], b[5], b[6], b[7]),
          Col(b[8], b[9], b[10], b[11]), Col(b[12], b[13], b[14], b[15]))
  }

  function StateBlock(s: State): (b: seq<bv8>)
    ensures |b| == 16 && BlockState(b) == s
  {
    [s.c0.b0, s.c0.b1, s.c0.b2, s.c0.b3, s.c1.b0, s.c1.b1, s.c1.b2, s.c1.b3,
     s.c2.b0, s.c2.b1, s.c2.b2, s.c2.b3, s.c3.b0, s.c3.b1, s.c3.b2, s.c3.b3]
  }

  lemma BlockStateInjective(a: seq<bv8>, b: seq<bv8>)
    requires |a| == |b| == 16 && BlockState(a) == BlockState(b)
    ensures a == b
  {
  }

  function WordsState(x0: bv32, x1: bv32, x2: bv32, x3: bv32): State {
    State(Unpack(x0), Unpack(x1), Unpack(x2), Unpack(x3))
  }

  /** Round key r of an expanded key. */
  function KeyState(rk: seq<bv32>, r: nat): State
    requires 4 * r + 4 <= |rk|
  {
    WordsState(rk[4 * r], rk[4 * r + 1], rk[4 * r + 2], rk[4 * r + 3])
  }

  function KeyStates(rk: seq<bv32>, nr: nat): (k: seq<State>)
    requires 4 * nr + 4 <= |rk|
    ensures |k| == nr + 1
  {
    seq(nr + 1, r requires 0 <= r <= nr => KeyState(rk, r))
  }

  /** Section 5.2 of FIPS 197: word i of the expansion of a key of `nk` words. */
  function KeyWord(key: seq<Col>, i: nat): Col
    requires |key| > 0
  {
    var nk := |key|;
    if i < nk then key[i]
    else
      var temp := KeyWord(key, i - 1);
      var t := if i % nk == 0 then Add(SubCol(RotWord(temp)), Col(RoundConstant(i / nk - 1), 0, 0, 0))
               else if nk > 6 && i % nk == 4 then SubCol(temp)
               else temp;
      Add(KeyWord(key, i - nk), t)
  }

  function RotWord(c: Col): Col {
    Col(c.b1, c.b2, c.b3, c.b0)
  }

  function KeyCols(key: seq<bv8>): (c: seq<Col>)
    requires |key| % 4 == 0
    ensures |c| == |key| / 4
  {
    seq(|key| / 4, i requires 0 <= i < |key| / 4 => Col(key[4 * i], key[4 * i + 1], key[4 * i + 2], key[4 * i + 3]))
  }

  predicate KeyLength(n: nat) {
    n == 16 || n == 24 || n == 32
  }

  /** The round keys of a 128, 192 or 256 bit key. */
  function RoundKeys(key: seq<bv8>): (k: seq<State>)
    requires KeyLength(|key|)
    ensures |k| == |key| / 4 + 7
  {
    var c := KeyCols(key);
    seq(|key| / 4 + 7, r requires 0 <= r < |key| / 4 + 7 =>
      State(KeyWord(c, 4 * r), KeyWord(c, 4 * r + 1), KeyWord(c, 4 * r + 2), KeyWord(c, 4 * r + 3)))
  }

  function EncryptBlock(key: seq<bv8>, block: seq<bv8>): (r: seq<bv8>)
    requires KeyLength(|key|) && |block| == 16
    ensures |r| == 16
  {
    StateBlock(Cipher(BlockState(block), RoundKeys(key)))
  }

  function DecryptBlock(key: seq<bv8>, block: seq<bv8>): (r: seq<bv8>)
    requires KeyLength(|key|) && |block| == 16
    ensures |r| == 16
  {
    StateBlock(EqInvCipher(BlockState(block), DecKeys(RoundKeys(key))))
  }

  /** Block decryption undoes block encryption, for every key of 128, 192 or 256 bits. */
  lemma DecryptUndoesEncrypt(key: seq<bv8>, block: seq<bv8>)
    requires KeyLength(|key|) && |block| == 16
    ensures DecryptBlock(key, EncryptBlock(key, block)) == block
  {
    hide Cipher, EqInvCipher, RoundKeys, DecKeys;
    DecryptionUndoesEncryption(BlockState(block), RoundKeys(key));
    BlockStateInjective(DecryptBlock(key, EncryptBlock(key, block)), block);
  }

  // ---------- the context

  const ERR_INVALID_KEY_LENGTH := -0x0020

  class AesContext {
    const tables: Tables
    const rk: array<bv32>
    var nr: nat

    constructor (tables: Tables)
      requires tables.Shaped()
      ensures this.tables == tables && nr == 0 && fresh(rk) && Shaped()
    {
      this.tables := tables;
      rk := new bv32[68];
      nr := 0;
    }

    ghost predicate Shaped()
      reads tables
    {
      && tables.Shaped() && rk.Length == 68
      && rk != tables.ft0 && rk != tables.rt0 && rk != tables.rcon
    }

    /** Ready to encrypt or decrypt with `keys`. */
    ghost predicate Holds(keys: seq<State>)
      reads this, rk, tables, tables.Arrays()
    {
      && Shaped() && tables.Filled()
      && (nr == 10 || nr == 12 || nr == 14) && |keys| == nr + 1
      && KeyStates(rk[..], nr) == keys
    }

    lemma KeyStateOf(keys: seq<State>, r: nat)
      requires Holds(keys) && r <= nr
      ensures KeyFrom(4 * r) == keys[r]
    {
      hide Unpack, Sub, InvSub, MixWord, InvMixWord;
      assert KeyState(rk[..], r) == keys[r];
    }

    // ---------- key schedules

    /** The first `n` words are the first words of the expansion of `key`. */
    ghost predicate Expanded(key: seq<Col>, n: nat)
      requires |key| > 0 && n <= rk.Length
      reads rk
    {
      forall k :: 0 <= k < n ==> Unpack(rk[k]) == KeyWord(key, k)
    }

    /** Word `t` from the word before it and the one a key length before. */
    method PlainWord(t: nat, nk: nat, ghost key: seq<Col>, ghost j: nat, ghost m: nat)
      requires Shaped() && 4 <= nk <= 8 && |key| == nk && 0 < m < nk && !(nk > 6 && m == 4)
      requires t == nk * j + nk + m && t < rk.Length && Expanded(key, t)
      modifies rk
      ensures Expanded(key, t + 1)
    {
      hide Unpack, Add, KeyWord, WordXor;
      KeyWordAt(key, j, m);
      XorBytes(rk[t - nk], rk[t - 1]);
      rk[t] := WordXor(rk[t - nk], rk[t - 1]);
    }

    /** A word rotated, substituted and given a round constant. */
    method CoreWord(k: bv32, w: bv32, i: nat) returns (x: bv32)
      requires Shaped() && tables.Filled() && i < 10
      ensures Unpack(x) == Add(Unpack(k), Add(SubCol(RotWord(Unpack(w))), Col(RoundConstant(i), 0, 0, 0)))
    {
      hide Unpack, Add, WordXor, Byte0, Byte1, Byte2, Byte3, KeyedBytes, Sub, InvSub, MixWord, InvMixWord, RoundConstant;
      var r := tables.rcon[i];
      var a, b := tables.fsb[Byte1(w) as nat], tables.fsb[Byte2(w) as nat];
      var c, d := tables.fsb[Byte3(w) as nat], tables.fsb[Byte0(w) as nat];
      XorBytes(k, r);
      ConstantBytes(RoundConstant(i));
      KeyedBytesAre(WordXor(k, r), a, b, c, d);
      UnpackBytes(w);
      AddShuffle(Col(a, b, c, d), Unpack(k), Unpack(r));
      x := KeyedBytes(WordXor(k, r), a, b, c, d);
    }

    /** Word `t` at the start of a key length. */
    method FirstWord(t: nat, nk: nat, i: nat, ghost key: seq<Col>)
      requires Shaped() && tables.Filled() && 4 <= nk <= 8 && |key| == nk && i < 10
      requires t == nk * i + nk && t < rk.Length && Expanded(key, t)
      modifies rk
      ensures Expanded(key, t + 1)
    {
      hide Unpack, Add, KeyWord, Sub, InvSub, MixWord, InvMixWord, RoundConstant, SubCol, RotWord;
      KeyWordAt(key, i, 0);
      var x := CoreWord(rk[t - nk], rk[t - 1], i);
      rk[t] := x;
    }

    /** The extra substitution in the middle of a 256-bit key length. */
    method MiddleWord(t: nat, ghost key: seq<Col>, ghost j: nat)
      requires Shaped() && tables.Filled() && |key| == 8
      requires t == 8 * j + 12 && t < rk.Length && Expanded(key, t)
      modifies rk
      ensures Expanded(key, t + 1)
    {
      hide Unpack, Add, KeyWord, WordXor, Byte0, Byte1, Byte2, Byte3, KeyedBytes, Sub, InvSub, MixWord, InvMixWord;
      KeyWordAt(key, j, 4);
      var k, w := rk[t - 8], rk[t - 1];
      var a, b := tables.fsb[Byte0(w) as nat], tables.fsb[Byte1(w) as nat];
      var c, d := tables.fsb[Byte2(w) as nat], tables.fsb[Byte3(w) as nat];
      KeyedBytesAre(k, a, b, c, d);
      UnpackBytes(w);
      AddCommutes(Col(a, b, c, d), Unpack(k));
      rk[t] := KeyedBytes(k, a, b, c, d);
    }

    lemma FewerExpanded(key: seq<Col>, n: nat, m: nat)
      requires |key| > 0 && m <= n <= rk.Length && Expanded(key, n)
      ensures Expanded(key, m)
    {
      hide Unpack, KeyWord;
    }

    method Expand128(ghost key: seq<Col>)
      requires Shaped() && tables.Filled() && |key| == 4 && Expanded(key, 4)
      modifies rk
      ensures Expanded(key, 44)
    {
      hide Expanded, Unpack, KeyWord, Sub, InvSub, MixWord, InvMixWord, RoundConstant;
      for i := 0 to 10
        invariant tables.Filled() && Expanded(key, 4 * i + 4)
      {
        FirstWord(4 * i + 4, 4, i, key);
        PlainWord(4 * i + 5, 4, key, i, 1);
        PlainWord(4 * i + 6, 4, key, i, 2);
        PlainWord(4 * i + 7, 4, key, i, 3);
      }
    }

    method Expand192(ghost key: seq<Col>)
      requires Shaped() && tables.Filled() && |key| == 6 && Expanded(key, 6)
      modifies rk
      ensures Expanded(key, 52)
    {
      hide Expanded, Unpack, KeyWord, Sub, InvSub, MixWord, InvMixWord, RoundConstant;
      for i := 0 to 8
        invariant tables.Filled() && Expanded(key, 6 * i + 6)
      {
        SixWords(key, i);
      }
      FewerExpanded(key, 54, 52);
    }

    method SixWords(ghost key: seq<Col>, i: nat)
      requires Shaped() && tables.Filled() && |key| == 6 && i < 8 && Expanded(key, 6 * i + 6)
      modifies rk
      ensures Expanded(key, 6 * i + 12)
    {
      hide Expanded, Unpack, KeyWord, Sub, InvSub, MixWord, InvMixWord, RoundConstant;
      FirstWord(6 * i + 6, 6, i, key);
      PlainWord(6 * i + 7, 6, key, i, 1);
      PlainWord(6 * i + 8, 6, key, i, 2);
      PlainWord(6 * i + 9, 6, key, i, 3);
      PlainWord(6 * i + 10, 6, key, i, 4);
      PlainWord(6 * i + 11, 6, key, i, 5);
    }

    method Expand256(ghost key: seq<Col>)
      requires Shaped() && tables.Filled() && |key| == 8 && Expanded(key, 8)
      modifies rk
      ensures Expanded(key, 60)
    {
      hide Expanded, Unpack, KeyWord, Sub, InvSub, MixWord, InvMixWord, RoundConstant;
      for i := 0 to 7
        invariant tables.Filled() && Expanded(key, 8 * i + 8)
      {
        EightWords(key, i);
      }
      FewerExpanded(key, 64, 60);
    }

    method EightWords(ghost key: seq<Col>, i: nat)
      requires Shaped() && tables.Filled() && |key| == 8 && i < 7 && Expanded(key, 8 * i + 8)
      modifies rk
      ensures Expanded(key, 8 * i + 16)
    {
      hide Expanded, Unpack, KeyWord, Sub, InvSub, MixWord, InvMixWord, RoundConstant;
      FirstWord(8 * i + 8, 8, i, key);
      PlainWord(8 * i + 9, 8, key, i, 1);
      PlainWord(8 * i + 10, 8, key, i, 2);
      PlainWord(8 * i + 11, 8, key, i, 3);
      LastFourWords(key, i);
    }

    method LastFourWords(ghost key: seq<Col>, i: nat)
      requires Shaped() && tables.Filled() && |key| == 8 && i < 7 && Expanded(key, 8 * i + 12)
      modifies rk
      ensures Expanded(key, 8 * i + 16)
    {
      hide Expanded, Unpack, KeyWord, Sub, InvSub, MixWord, InvMixWord, RoundConstant;
      MiddleWord(8 * i + 12, key, i);
      PlainWord(8 * i + 13, 8, key, i, 5);
      PlainWord(8 * i + 14, 8, key, i, 6);
      PlainWord(8 * i + 15, 8, key, i, 7);
    }

    /** Reads the key's own words. */
    method LoadKey(key: seq<bv8>)
      requires Shaped() && KeyLength(|key|)
      modifies rk
      ensures Expanded(KeyCols(key), |key| / 4)
    {
      hide Unpack, GetLe;
      for i := 0 to |key| / 4
        invariant forall k :: 0 <= k < i ==> Unpack(rk[k]) == KeyCols(key)[k]
      {
        GetLeBytes(key, 4 * i);
        rk[i] := GetLe(key, 4 * i);
      }
      forall k | 0 <= k < |key| / 4 ensures KeyCols(key)[k] == KeyWord(KeyCols(key), k) { }
    }

    /** ty_mbedtls_aes_setkey_enc: fills the tables the first time, then expands the key. */
    method SetkeyEnc(key: seq<bv8>, keybits: nat) returns (ret: int)
      requires Shaped() && (tables.initDone ==> tables.Filled())
      requires keybits in {128, 192, 256} ==> |key| * 8 == keybits
      modifies this`nr, rk, tables, tables.Arrays()
      ensures tables.initDone && tables.Filled()
      ensures ret == if keybits in {128, 192, 256} then 0 else ERR_INVALID_KEY_LENGTH
      ensures ret == 0 ==> Holds(RoundKeys(key))
      ensures ret != 0 ==> nr == old(nr) && rk[..] == old(rk[..])
    {
      hide Expanded, KeyCols, RoundKeys, KeyStates, KeyWord, Unpack, Sub, InvSub, MixWord, InvMixWord, RoundConstant;
      if !tables.initDone {
        tables.Generate();
        tables.initDone := true;
      }
      match keybits {
        case 128 => nr := 10;
        case 192 => nr := 12;
        case 256 => nr := 14;
        case _ => return ERR_INVALID_KEY_LENGTH;
      }
      ExpandKey(key);
      ScheduleHolds(key);
      ret := 0;
    }

    /** The key's own words, and the loop for its size. */
    method ExpandKey(key: seq<bv8>)
      requires Shaped() && tables.Filled() && KeyLength(|key|) && nr == |key| / 4 + 6
      modifies rk
      ensures tables.Filled() && Expanded(KeyCols(key), 4 * nr + 4)
    {
      hide Expanded, KeyCols, KeyWord, Unpack, Sub, InvSub, MixWord, InvMixWord, RoundConstant;
      LoadKey(key);
      match nr {
        case 10 => Expand128(KeyCols(key));
        case 12 => Expand192(KeyCols(key));
        case _ => Expand256(KeyCols(key));
      }
    }

    lemma ScheduleHolds(key: seq<bv8>)
      requires Shaped() && KeyLength(|key|) && nr == |key| / 4 + 6 && Expanded(KeyCols(key), 4 * nr + 4)
      ensures KeyStates(rk[..], nr) == RoundKeys(key)
    {
      hide Unpack, KeyWord, KeyCols;
      forall r | 0 <= r <= nr ensures KeyState(rk[..], r) == RoundKeys(key)[r] { }
    }

    /** One word of the decryption schedule: table RT0 undoes the substitution and mixes. */
    method UnmixedWord(k: bv32) returns (x: bv32)
      requires Shaped() && tables.Filled()
      ensures Unpack(x) == InvMixCol(Unpack(k))
    {
      hide Unpack, WordXor, RotL8, RotL16, RotL24, MixWord, InvMixWord, Byte0, Byte1, Byte2, Byte3, Sub, InvSub, InvMixCol, Add, GMul;
      var t0 := tables.rt0[tables.fsb[Byte0(k) as nat] as nat];
      var t1 := tables.rt0[tables.fsb[Byte1(k) as nat] as nat];
      var t2 := tables.rt0[tables.fsb[Byte2(k) as nat] as nat];
      var t3 := tables.rt0[tables.fsb[Byte3(k) as nat] as nat];
      x := WordXor(WordXor(WordXor(t0, RotL8(t1)), RotL16(t2)), RotL24(t3));
      UnmixedEntry(Byte0(k));
      UnmixedEntry(Byte1(k));
      UnmixedEntry(Byte2(k));
      UnmixedEntry(Byte3(k));
      RotateBytes(t1);
      RotateBytes(t2);
      RotateBytes(t3);
      XorBytes(t0, RotL8(t1));
      XorBytes(WordXor(t0, RotL8(t1)), RotL16(t2));
      XorBytes(WordXor(WordXor(t0, RotL8(t1)), RotL16(t2)), RotL24(t3));
      UnpackBytes(k);
      InvTableColumn(Unpack(k), Unpack(k), Unpack(t0), Unpack(RotL8(t1)), Unpack(RotL16(t2)), Unpack(RotL24(t3)));
    }

    /** The round key at word `p`. */
    ghost function KeyFrom(p: nat): State
      requires p + 4 <= rk.Length
      reads rk
    {
      State(Unpack(rk[p]), Unpack(rk[p + 1]), Unpack(rk[p + 2]), Unpack(rk[p + 3]))
    }

    /** The first `n` round keys are those of the decryption schedule. */
    ghost predicate Reversed(keys: seq<State>, n: nat)
      requires n <= |keys| && 4 * n <= rk.Length
      reads rk
    {
      forall r :: 0 <= r < n ==> KeyFrom(4 * r) == DecKey(keys, r)
    }

    lemma OneMoreReversed(keys: seq<State>, n: nat)
      requires n < |keys| && 4 * n + 4 <= rk.Length && Reversed(keys, n) && KeyFrom(4 * n) == DecKey(keys, n)
      ensures Reversed(keys, n + 1)
    {
      hide DecKey, Unpack;
    }

    lemma NothingReversed(keys: seq<State>)
      ensures Reversed(keys, 0)
    {
    }

    /** Copies the round key at `sk` of `from` to `p`, as it is. */
    method CopyRoundKey(from: AesContext, p: nat, sk: nat, ghost keys: seq<State>, ghost n: nat)
      requires Shaped() && from.Shaped() && from.rk != rk && p + 4 <= rk.Length && sk + 4 <= rk.Length
      requires p == 4 * n && n <= |keys| && Reversed(keys, n)
      modifies rk
      ensures KeyFrom(p) == from.KeyFrom(sk)
      ensures Reversed(keys, n)
    {
      hide Unpack;
      rk[p] := from.rk[sk];
      rk[p + 1] := from.rk[sk + 1];
      rk[p + 2] := from.rk[sk + 2];
      rk[p + 3] := from.rk[sk + 3];
      assert forall k :: 0 <= k < p ==> rk[k] == old(rk[k]);
      assert forall r :: 0 <= r < n ==> KeyFrom(4 * r) == old(KeyFrom(4 * r));
    }

    /** Copies it mixed. */
    method CopyMixed(from: AesContext, p: nat, sk: nat, ghost keys: seq<State>, ghost n: nat)
      requires Shaped() && tables.Filled() && from.Shaped() && from.rk != rk && p + 4 <= rk.Length && sk + 4 <= rk.Length
      requires p == 4 * n && n <= |keys| && Reversed(keys, n)
      modifies rk
      ensures KeyFrom(p) == InvMixColumns(from.KeyFrom(sk))
      ensures Reversed(keys, n)
    {
      hide Unpack, InvMixCol, Sub, InvSub, MixWord, InvMixWord, RoundConstant;
      MixWords(from, p, sk);
      assert forall r :: 0 <= r < n ==> KeyFrom(4 * r) == old(KeyFrom(4 * r));
    }

    /** The loop over the four words of a round key. */
    method MixWords(from: AesContext, p: nat, sk: nat)
      requires Shaped() && tables.Filled() && from.Shaped() && from.rk != rk && p + 4 <= rk.Length && sk + 4 <= rk.Length
      modifies rk
      ensures KeyFrom(p) == InvMixColumns(from.KeyFrom(sk))
      ensures forall k :: 0 <= k < p ==> rk[k] == old(rk[k])
    {
      hide Unpack, InvMixCol, Sub, InvSub, MixWord, InvMixWord, RoundConstant;
      for j := 0 to 4
        invariant tables.Filled()
        invariant forall k :: p <= k < p + j ==> Unpack(rk[k]) == InvMixCol(Unpack(from.rk[k - p + sk]))
        invariant forall k :: 0 <= k < p ==> rk[k] == old(rk[k])
      {
        var x := UnmixedWord(from.rk[sk + j]);
        rk[p + j] := x;
      }
    }

    /** ty_mbedtls_aes_setkey_dec */
    method SetkeyDec(key: seq<bv8>, keybits: nat) returns (ret: int)
      requires Shaped() && (tables.initDone ==> tables.Filled())
      requires keybits in {128, 192, 256} ==> |key| * 8 == keybits
      modifies this`nr, rk, tables, tables.Arrays()
      ensures tables.initDone && tables.Filled()
      ensures ret == if keybits in {128, 192, 256} then 0 else ERR_INVALID_KEY_LENGTH
      ensures ret == 0 ==> Holds(DecKeys(RoundKeys(key)))
      ensures ret != 0 ==> nr == old(nr) && rk[..] == old(rk[..])
    {
      hide RoundKeys, KeyStates, Unpack, Sub, InvSub, MixWord, InvMixWord, RoundConstant;
      var cty := new AesContext(tables);
      ret := cty.SetkeyEnc(key, keybits);
      if ret != 0 {
        return;
      }
      nr := cty.nr;
      ReverseKeys(cty, RoundKeys(key));
    }

    /** The round key of round `i`, between the two ends, takes its place in the decryption schedule. */
    method ReverseOne(cty: AesContext, p: nat, sk: nat, ghost keys: seq<State>, ghost i: nat)
      requires Shaped() && cty.tables == tables && cty.Holds(keys) && cty.rk != rk && nr == cty.nr
      requires 0 < i < nr && sk == 4 * i && p == 4 * (nr - i) && Reversed(keys, nr - i)
      modifies rk
      ensures Reversed(keys, nr - i + 1)
    {
      hide InvMixColumns, KeyStates, KeyState, Unpack, KeyFrom, Reversed, Sub, InvSub, MixWord, InvMixWord, RoundConstant;
      cty.KeyStateOf(keys, i);
      CopyMixed(cty, p, sk, keys, nr - i);
      OneMoreReversed(keys, nr - i);
    }

    method ReverseKeys(cty: AesContext, ghost keys: seq<State>)
      requires Shaped() && cty.tables == tables && cty.Holds(keys) && cty.rk != rk && nr == cty.nr
      modifies rk
      ensures Holds(DecKeys(keys))
    {
      hide Tables.Filled, InvMixColumns, KeyStates, KeyState, Unpack, KeyFrom, Reversed, DecKeys, Sub, InvSub, MixWord, InvMixWord, RoundConstant;
      NothingReversed(keys);
      cty.KeyStateOf(keys, nr);
      var p, sk := 0, 4 * nr;
      CopyRoundKey(cty, p, sk, keys, 0);
      OneMoreReversed(keys, 0);
      p, sk := p + 4, sk - 4;
      var i := nr - 1;
      while i > 0
        invariant 0 <= i < nr && sk == 4 * i && p == 4 * (nr - i)
        invariant cty.Holds(keys) && Reversed(keys, nr - i)
      {
        ReverseOne(cty, p, sk, keys, i);
        p, sk, i := p + 4, sk - 4, i - 1;
      }
      cty.KeyStateOf(keys, 0);
      CopyRoundKey(cty, p, sk, keys, nr);
      OneMoreReversed(keys, nr);
      ReversedHolds(keys);
    }

    lemma ReversedHolds(keys: seq<State>)
      requires Shaped() && 0 < nr && 4 * nr + 4 <= rk.Length && |keys| == nr + 1 && Reversed(keys, nr + 1)
      ensures KeyStates(rk[..], nr) == DecKeys(keys)
    {
      hide Unpack, DecKey;
      forall r | 0 <= r <= nr ensures KeyState(rk[..], r) == DecKeys(keys)[r] { }
    }

    /** One word of AES_FROUND. */
    method ForwardWord(k: bv32, y0: bv32, y1: bv32, y2: bv32, y3: bv32) returns (x: bv32)
      requires Shaped() && tables.Filled()
      ensures Unpack(x) == Add(MixCol(SubCol(Diagonal(y0, y1, y2, y3))), Unpack(k))
    {
      hide Unpack, WordXor, RotL8, RotL16, RotL24, MixWord, Byte0, Byte1, Byte2, Byte3, Sub, MixCol, Add, XTime, Triple;
      var t0 := tables.ft0[Byte0(y0) as nat];
      var t1 := tables.ft0[Byte1(y1) as nat];
      var t2 := tables.ft0[Byte2(y2) as nat];
      var t3 := tables.ft0[Byte3(y3) as nat];
      x := WordXor(WordXor(WordXor(WordXor(k, t0), RotL8(t1)), RotL16(t2)), RotL24(t3));
      TableBytes(Sub(Byte0(y0)));
      TableBytes(Sub(Byte1(y1)));
      TableBytes(Sub(Byte2(y2)));
      TableBytes(Sub(Byte3(y3)));
      RotateBytes(t1);
      RotateBytes(t2);
      RotateBytes(t3);
      XorBytes(k, t0);
      XorBytes(WordXor(k, t0), RotL8(t1));
      XorBytes(WordXor(WordXor(k, t0), RotL8(t1)), RotL16(t2));
      XorBytes(WordXor(WordXor(WordXor(k, t0), RotL8(t1)), RotL16(t2)), RotL24(t3));
      TableColumn(Unpack(k), SubCol(Diagonal(y0, y1, y2, y3)),
                  Unpack(t0), Unpack(RotL8(t1)), Unpack(RotL16(t2)), Unpack(RotL24(t3)));
    }

    /** AES_FROUND: the round whose key words start at `p`. */
    method ForwardRound(p: nat, y0: bv32, y1: bv32, y2: bv32, y3: bv32, ghost keys: seq<State>, ghost r: nat)
      returns (x0: bv32, x1: bv32, x2: bv32, x3: bv32)
      requires Holds(keys) && r <= nr && p == 4 * r
      ensures WordsState(x0, x1, x2, x3) == EncRound(WordsState(y0, y1, y2, y3), keys[r])
    {
      hide Unpack, Diagonal, Add, MixCol, SubCol, EncRound;
      KeyStateOf(keys, r);
      EncRoundColumns(y0, y1, y2, y3, keys[r]);
      x0 := ForwardWord(rk[p], y0, y1, y2, y3);
      x1 := ForwardWord(rk[p + 1], y1, y2, y3, y0);
      x2 := ForwardWord(rk[p + 2], y2, y3, y0, y1);
      x3 := ForwardWord(rk[p + 3], y3, y0, y1, y2);
    }

    /** One word of AES_RROUND. */
    method ReverseWord(k: bv32, y0: bv32, y1: bv32, y2: bv32, y3: bv32) returns (x: bv32)
      requires Shaped() && tables.Filled()
      ensures Unpack(x) == Add(InvMixCol(InvSubCol(Diagonal(y0, y1, y2, y3))), Unpack(k))
    {
      hide Unpack, WordXor, RotL8, RotL16, RotL24, InvMixWord, Byte0, Byte1, Byte2, Byte3, InvSub, InvMixCol, Add, GMul;
      var t0 := tables.rt0[Byte0(y0) as nat];
      var t1 := tables.rt0[Byte1(y1) as nat];
      var t2 := tables.rt0[Byte2(y2) as nat];
      var t3 := tables.rt0[Byte3(y3) as nat];
      x := WordXor(WordXor(WordXor(WordXor(k, t0), RotL8(t1)), RotL16(t2)), RotL24(t3));
      TableBytes(InvSub(Byte0(y0)));
      TableBytes(InvSub(Byte1(y1)));
      TableBytes(InvSub(Byte2(y2)));
      TableBytes(InvSub(Byte3(y3)));
      RotateBytes(t1);
      RotateBytes(t2);
      RotateBytes(t3);
      XorBytes(k, t0);
      XorBytes(WordXor(k, t0), RotL8(t1));
      XorBytes(WordXor(WordXor(k, t0), RotL8(t1)), RotL16(t2));
      XorBytes(WordXor(WordXor(WordXor(k, t0), RotL8(t1)), RotL16(t2)), RotL24(t3));
      InvTableColumn(Unpack(k), InvSubCol(Diagonal(y0, y1, y2, y3)),
                     Unpack(t0), Unpack(RotL8(t1)), Unpack(RotL16(t2)), Unpack(RotL24(t3)));
    }

    /** AES_RROUND */
    method ReverseRound(p: nat, y0: bv32, y1: bv32, y2: bv32, y3: bv32, ghost keys: seq<State>, ghost r: nat)
      returns (x0: bv32, x1: bv32, x2: bv32, x3: bv32)
      requires Holds(keys) && r <= nr && p == 4 * r
      ensures WordsState(x0, x1, x2, x3) == DecRound(WordsState(y0, y1, y2, y3), keys[r])
    {
      hide Unpack, Diagonal, Add, InvMixCol, InvSubCol, DecRound;
      KeyStateOf(keys, r);
      DecRoundColumns(y0, y1, y2, y3, keys[r]);
      x0 := ReverseWord(rk[p], y0, y3, y2, y1);
      x1 := ReverseWord(rk[p + 1], y1, y0, y3, y2);
      x2 := ReverseWord(rk[p + 2], y2, y1, y0, y3);
      x3 := ReverseWord(rk[p + 3], y3, y2, y1, y0);
    }

    /** One word of the last encryption round: the substituted bytes under the key. */
    method LastWord(k: bv32, y0: bv32, y1: bv32, y2: bv32, y3: bv32) returns (x: bv32)
      requires Shaped() && tables.Filled()
      ensures Unpack(x) == Add(SubCol(Diagonal(y0, y1, y2, y3)), Unpack(k))
    {
      hide Unpack, Byte0, Byte1, Byte2, Byte3, Sub, Add, KeyedBytes;
      var a := tables.fsb[Byte0(y0) as nat];
      var b := tables.fsb[Byte1(y1) as nat];
      var c := tables.fsb[Byte2(y2) as nat];
      var d := tables.fsb[Byte3(y3) as nat];
      x := KeyedBytes(k, a, b, c, d);
      KeyedBytesAre(k, a, b, c, d);
    }

    method LastInvWord(k: bv32, y0: bv32, y1: bv32, y2: bv32, y3: bv32) returns (x: bv32)
      requires Shaped() && tables.Filled()
      ensures Unpack(x) == Add(InvSubCol(Diagonal(y0, y1, y2, y3)), Unpack(k))
    {
      hide Unpack, Byte0, Byte1, Byte2, Byte3, InvSub, Add, KeyedBytes;
      var a := tables.rsb[Byte0(y0) as nat];
      var b := tables.rsb[Byte1(y1) as nat];
      var c := tables.rsb[Byte2(y2) as nat];
      var d := tables.rsb[Byte3(y3) as nat];
      x := KeyedBytes(k, a, b, c, d);
      KeyedBytesAre(k, a, b, c, d);
    }

    /** Reads the block at `at` and adds the first round key. */
    method LoadBlock(input: array<bv8>, at: nat, ghost keys: seq<State>) returns (x0: bv32, x1: bv32, x2: bv32, x3: bv32)
      requires Holds(keys) && at + 16 <= input.Length
      ensures WordsState(x0, x1, x2, x3) == AddRoundKey(BlockState(input[at..at + 16]), keys[0])
    {
      hide Unpack, Add, AddRoundKey, BlockState, KeyStates, Sub, InvSub, MixWord, InvMixWord;
      KeyStateOf(keys, 0);
      var b := input[at..at + 16];
      x0 := LoadWord(b, 0, rk[0]);
      x1 := LoadWord(b, 4, rk[1]);
      x2 := LoadWord(b, 8, rk[2]);
      x3 := LoadWord(b, 12, rk[3]);
      Loaded(b, x0, x1, x2, x3, rk[0], rk[1], rk[2], rk[3]);
    }

    static lemma Loaded(b: seq<bv8>, x0: bv32, x1: bv32, x2: bv32, x3: bv32, k0: bv32, k1: bv32, k2: bv32, k3: bv32)
      requires |b| == 16
      requires Unpack(x0) == Add(Col(b[0], b[1], b[2], b[3]), Unpack(k0)) && Unpack(x1) == Add(Col(b[4], b[5], b[6], b[7]), Unpack(k1))
      requires Unpack(x2) == Add(Col(b[8], b[9], b[10], b[11]), Unpack(k2)) && Unpack(x3) == Add(Col(b[12], b[13], b[14], b[15]), Unpack(k3))
      ensures WordsState(x0, x1, x2, x3) == AddRoundKey(BlockState(b), WordsState(k0, k1, k2, k3))
    {
      hide Unpack, Add;
    }

    static method LoadWord(b: seq<bv8>, i: nat, k: bv32) returns (x: bv32)
      requires i + 4 <= |b|
      ensures Unpack(x) == Add(Col(b[i], b[i + 1], b[i + 2], b[i + 3]), Unpack(k))
    {
      hide Unpack, Add, WordXor, GetLe;
      x := GetLe(b, i);
      GetLeBytes(b, i);
      XorBytes(x, k);
      x := WordXor(x, k);
    }

    /** PUT_UINT32_LE of the four words. */
    static method StoreBlock(x0: bv32, x1: bv32, x2: bv32, x3: bv32, output: array<bv8>, at: nat)
      requires at + 16 <= output.Length
      modifies output
      ensures output[at..at + 16] == StateBlock(WordsState(x0, x1, x2, x3))
      ensures forall k :: 0 <= k < output.Length && !(at <= k < at + 16) ==> output[k] == old(output[k])
    {
      hide Byte0, Byte1, Byte2, Byte3;
      StoreWord(x0, output, at);
      StoreWord(x1, output, at + 4);
      StoreWord(x2, output, at + 8);
      StoreWord(x3, output, at + 12);
    }

    static method StoreWord(x: bv32, output: array<bv8>, at: nat)
      requires at + 4 <= output.Length
      modifies output
      ensures output[at] == Unpack(x).b0 && output[at + 1] == Unpack(x).b1
      ensures output[at + 2] == Unpack(x).b2 && output[at + 3] == Unpack(x).b3
      ensures forall k :: 0 <= k < output.Length && !(at <= k < at + 4) ==> output[k] == old(output[k])
    {
      hide Byte0, Byte1, Byte2, Byte3;
      output[at] := Byte0(x);
      output[at + 1] := Byte1(x);
      output[at + 2] := Byte2(x);
      output[at + 3] := Byte3(x);
    }

    /** The last encryption round: no mixing. */
    method LastRound(p: nat, y0: bv32, y1: bv32, y2: bv32, y3: bv32, ghost keys: seq<State>, ghost r: nat)
      returns (x0: bv32, x1: bv32, x2: bv32, x3: bv32)
      requires Holds(keys) && r <= nr && p == 4 * r
      ensures WordsState(x0, x1, x2, x3) == EncFinal(WordsState(y0, y1, y2, y3), keys[r])
    {
      hide Unpack, Diagonal, Add, SubCol, EncFinal;
      KeyStateOf(keys, r);
      EncFinalColumns(y0, y1, y2, y3, keys[r]);
      x0 := LastWord(rk[p], y0, y1, y2, y3);
      x1 := LastWord(rk[p + 1], y1, y2, y3, y0);
      x2 := LastWord(rk[p + 2], y2, y3, y0, y1);
      x3 := LastWord(rk[p + 3], y3, y0, y1, y2);
    }

    /** The rounds of ty_mbedtls_internal_aes_encrypt, between reading the block and writing it. */
    method EncryptWords(input: array<bv8>, from: nat, ghost keys: seq<State>) returns (x0: bv32, x1: bv32, x2: bv32, x3: bv32)
      requires Holds(keys) && from + 16 <= input.Length
      ensures WordsState(x0, x1, x2, x3) == Cipher(BlockState(input[from..from + 16]), keys)
    {
      hide EncRound, EncFinal, BlockState, WordsState, AddRoundKey, KeyStates, Sub, InvSub, MixWord, InvMixWord;
      ghost var s := BlockState(input[from..from + 16]);
      x0, x1, x2, x3 := LoadBlock(input, from, keys);
      var y0, y1, y2, y3;
      var p, i := 4, nr / 2 - 1;
      ghost var r := 0;
      while i > 0
        invariant 0 <= i <= nr / 2 - 1 && r == nr - 2 - 2 * i && p == 4 * r + 4
        invariant WordsState(x0, x1, x2, x3) == EncRounds(s, keys, r)
      {
        y0, y1, y2, y3 := ForwardRound(p, x0, x1, x2, x3, keys, r + 1);
        x0, x1, x2, x3 := ForwardRound(p + 4, y0, y1, y2, y3, keys, r + 2);
        p, i, r := p + 8, i - 1, r + 2;
      }
      y0, y1, y2, y3 := ForwardRound(p, x0, x1, x2, x3, keys, r + 1);
      x0, x1, x2, x3 := LastRound(p + 4, y0, y1, y2, y3, keys, r + 2);
    }

    /** ty_mbedtls_internal_aes_encrypt on the block at `from`, written at `to`; the two places may be the same. */
    method Encrypt(input: array<bv8>, from: nat, output: array<bv8>, to: nat, ghost keys: seq<State>)
      requires Holds(keys) && from + 16 <= input.Length && to + 16 <= output.Length
      requires output !in {tables.fsb, tables.rsb}
      modifies output
      ensures output[to..to + 16] == StateBlock(Cipher(BlockState(old(input[from..from + 16])), keys))
      ensures forall k :: 0 <= k < output.Length && !(to <= k < to + 16) ==> output[k] == old(output[k])
      ensures Holds(keys)
    {
      hide Cipher, BlockState, StateBlock, WordsState, KeyStates, Sub, InvSub, MixWord, InvMixWord;
      var x0, x1, x2, x3 := EncryptWords(input, from, keys);
      StoreBlock(x0, x1, x2, x3, output, to);
    }

    /** The last decryption round. */
    method LastInvRound(p: nat, y0: bv32, y1: bv32, y2: bv32, y3: bv32, ghost keys: seq<State>, ghost r: nat)
      returns (x0: bv32, x1: bv32, x2: bv32, x3: bv32)
      requires Holds(keys) && r <= nr && p == 4 * r
      ensures WordsState(x0, x1, x2, x3) == DecFinal(WordsState(y0, y1, y2, y3), keys[r])
    {
      hide Unpack, Diagonal, Add, InvSubCol, DecFinal;
      KeyStateOf(keys, r);
      DecFinalColumns(y0, y1, y2, y3, keys[r]);
      x0 := LastInvWord(rk[p], y0, y3, y2, y1);
      x1 := LastInvWord(rk[p + 1], y1, y0, y3, y2);
      x2 := LastInvWord(rk[p + 2], y2, y1, y0, y3);
      x3 := LastInvWord(rk[p + 3], y3, y2, y1, y0);
    }

    /** The rounds of ty_mbedtls_internal_aes_decrypt, between reading the block and writing it. */
    method DecryptWords(input: array<bv8>, from: nat, ghost keys: seq<State>) returns (x0: bv32, x1: bv32, x2: bv32, x3: bv32)
      requires Holds(keys) && from + 16 <= input.Length
      ensures WordsState(x0, x1, x2, x3) == EqInvCipher(BlockState(input[from..from + 16]), keys)
    {
      hide DecRound, DecFinal, BlockState, WordsState, AddRoundKey, KeyStates, Sub, InvSub, MixWord, InvMixWord;
      ghost var s := BlockState(input[from..from + 16]);
      x0, x1, x2, x3 := LoadBlock(input, from, keys);
      var y0, y1, y2, y3;
      var p, i := 4, nr / 2 - 1;
      ghost var r := 0;
      while i > 0
        invariant 0 <= i <= nr / 2 - 1 && r == nr - 2 - 2 * i && p == 4 * r + 4
        invariant WordsState(x0, x1, x2, x3) == DecRounds(s, keys, r)
      {
        y0, y1, y2, y3 := ReverseRound(p, x0, x1, x2, x3, keys, r + 1);
        x0, x1, x2, x3 := ReverseRound(p + 4, y0, y1, y2, y3, keys, r + 2);
        p, i, r := p + 8, i - 1, r + 2;
      }
      y0, y1, y2, y3 := ReverseRound(p, x0, x1, x2, x3, keys, r + 1);
      x0, x1, x2, x3 := LastInvRound(p + 4, y0, y1, y2, y3, keys, r + 2);
    }

    /** ty_mbedtls_internal_aes_decrypt on the block at `from`, written at `to`; the two places may be the same. */
    method Decrypt(input: array<bv8>, from: nat, output: array<bv8>, to: nat, ghost keys: seq<State>)
      requires Holds(keys) && from + 16 <= input.Length && to + 16 <= output.Length
      requires output !in {tables.fsb, tables.rsb}
      modifies output
      ensures output[to..to + 16] == StateBlock(EqInvCipher(BlockState(old(input[from..from + 16])), keys))
      ensures forall k :: 0 <= k < output.Length && !(to <= k < to + 16) ==> output[k] == old(output[k])
      ensures Holds(keys)
    {
      hide EqInvCipher, BlockState, StateBlock, WordsState, KeyStates, Sub, InvSub, MixWord, InvMixWord;
      var x0, x1, x2, x3 := DecryptWords(input, from, keys);
      StoreBlock(x0, x1, x2, x3, output, to);
    }
  }

  /** A round sees its columns along the diagonals of the state's words. */
  lemma EncRoundColumns(y0: bv32, y1: bv32, y2: bv32, y3: bv32, k: State)
    ensures EncRound(WordsState(y0, y1, y2, y3), k)
      == State(Add(MixCol(SubCol(Diagonal(y0, y1, y2, y3))), k.c0),
              Add(MixCol(SubCol(Diagonal(y1, y2, y3, y0))), k.c1),
              Add(MixCol(SubCol(Diagonal(y2, y3, y0, y1))), k.c2),
              Add(MixCol(SubCol(Diagonal(y3, y0, y1, y2))), k.c3))
  {
    hide Byte0, Byte1, Byte2, Byte3, Sub, InvSub, MixCol, InvMixCol, Add;
  }

  lemma DecRoundColumns(y0: bv32, y1: bv32, y2: bv32, y3: bv32, k: State)
    ensures DecRound(WordsState(y0, y1, y2, y3), k)
      == State(Add(InvMixCol(InvSubCol(Diagonal(y0, y3, y2, y1))), k.c0),
              Add(InvMixCol(InvSubCol(Diagonal(y1, y0, y3, y2))), k.c1),
              Add(InvMixCol(InvSubCol(Diagonal(y2, y1, y0, y3))), k.c2),
              Add(InvMixCol(InvSubCol(Diagonal(y3, y2, y1, y0))), k.c3))
  {
    hide Byte0, Byte1, Byte2, Byte3, Sub, InvSub, MixCol, InvMixCol, Add;
  }

  lemma EncFinalColumns(y0: bv32, y1: bv32, y2: bv32, y3: bv32, k: State)
    ensures EncFinal(WordsState(y0, y1, y2, y3), k)
      == State(Add(SubCol(Diagonal(y0, y1, y2, y3)), k.c0),
              Add(SubCol(Diagonal(y1, y2, y3, y0)), k.c1),
              Add(SubCol(Diagonal(y2, y3, y0, y1)), k.c2),
              Add(SubCol(Diagonal(y3, y0, y1, y2)), k.c3))
  {
    hide Byte0, Byte1, Byte2, Byte3, Sub, InvSub, MixCol, InvMixCol, Add;
  }

  lemma DecFinalColumns(y0: bv32, y1: bv32, y2: bv32, y3: bv32, k: State)
    ensures DecFinal(WordsState(y0, y1, y2, y3), k)
      == State(Add(InvSubCol(Diagonal(y0, y3, y2, y1)), k.c0),
              Add(InvSubCol(Diagonal(y1, y0, y3, y2)), k.c1),
              Add(InvSubCol(Diagonal(y2, y1, y0, y3)), k.c2),
              Add(InvSubCol(Diagonal(y3, y2, y1, y0)), k.c3))
  {
    hide Byte0, Byte1, Byte2, Byte3, Sub, InvSub, MixCol, InvMixCol, Add;
  }

  lemma UnpackBytes(w: bv32)
    ensures Unpack(w) == Col(Byte0(w), Byte1(w), Byte2(w), Byte3(w))
  {
  }

  lemma ConstantBytes(b: bv8)
    ensures Unpack(b as bv32) == Col(b, 0, 0, 0)
  {
  }

  lemma AddCommutes(x: Col, y: Col)
    ensures Add(x, y) == Add(y, x)
  {
    hide Xor;
    XorCommutes(x.b0, y.b0);
    XorCommutes(x.b1, y.b1);
    XorCommutes(x.b2, y.b2);
    XorCommutes(x.b3, y.b3);
  }

  lemma AddAssociates(x: Col, y: Col, z: Col)
    ensures Add(Add(x, y), z) == Add(x, Add(y, z))
  {
    hide Xor;
    XorAssociates(x.b0, y.b0, z.b0);
    XorAssociates(x.b1, y.b1, z.b1);
    XorAssociates(x.b2, y.b2, z.b2);
    XorAssociates(x.b3, y.b3, z.b3);
  }

  lemma AddShuffle(s: Col, k: Col, r: Col)
    ensures Add(s, Add(k, r)) == Add(k, Add(s, r))
  {
    hide Add;
    AddAssociates(s, k, r);
    AddCommutes(s, k);
    AddAssociates(k, s, r);
  }

  lemma UnmixedEntry(b: bv8)
    ensures Unpack(InvMixWord(InvSub(Sub(b)))) == Col(GMul(b, 0x0E), GMul(b, 0x09), GMul(b, 0x0D), GMul(b, 0x0B))
  {
    hide Unpack, InvMixWord, InvSub, Sub, GMul;
    InvSubUndoesSub(b);
    TableBytes(b);
  }

  /** Word m of key length j + 1, by its place in that length. */
  lemma KeyWordAt(key: seq<Col>, j: nat, m: nat)
    requires 4 <= |key| <= 8 && m < |key|
    ensures var nk := |key|; var i := nk * j + nk + m;
      KeyWord(key, i) == Add(KeyWord(key, i - nk),
        if m == 0 then Add(SubCol(RotWord(KeyWord(key, i - 1))), Col(RoundConstant(j), 0, 0, 0))
        else if nk > 6 && m == 4 then SubCol(KeyWord(key, i - 1))
        else KeyWord(key, i - 1))
  {
    hide Add, SubCol, RotWord, RoundConstant;
    var nk := |key|;
    var i := nk * j + nk + m;
    assert i == nk * (j + 1) + m;
    Quotient(nk, j + 1, m);
  }

  lemma Quotient(n: nat, q: nat, m: nat)
    requires 4 <= n <= 8 && m < n
    ensures (n * q + m) / n == q && (n * q + m) % n == m
  {
    if n == 4 { assert (4 * q + m) / 4 == q; }
    else if n == 5 { assert (5 * q + m) / 5 == q; }
    else if n == 6 { assert (6 * q + m) / 6 == q; }
    else if n == 7 { assert (7 * q + m) / 7 == q; }
    else { assert (8 * q + m) / 8 == q; }
  }

  /** The last round's word: four bytes put in place and the key added first. */
  function KeyedBytes(k: bv32, a: bv8, b: bv8, c: bv8, d: bv8): bv32 {
    k ^ (a as bv32) ^ (b as bv32 << 8) ^ (c as bv32 << 16) ^ (d as bv32 << 24)
  }

  lemma KeyedBytesAre(k: bv32, a: bv8, b: bv8, c: bv8, d: bv8)
    ensures Unpack(KeyedBytes(k, a, b, c, d)) == Add(Col(a, b, c, d), Unpack(k))
  {
  }
}
