/** MD5 as RFC 1321 defines it, and the streaming implementation with its partly filled buffer. */
module Md5 {

  // ---------- the block transform

  datatype Md = Md(a: bv32, b: bv32, c: bv32, d: bv32)

  function F(x: bv32, y: bv32, z: bv32): bv32 { (x & y) | (!x & z) }

  function G(x: bv32, y: bv32, z: bv32): bv32 { (x & z) | (y & !z) }

  function H(x: bv32, y: bv32, z: bv32): bv32 { x ^ y ^ z }

  function I(x: bv32, y: bv32, z: bv32): bv32 { y ^ (x | !z) }

  function RotateLeft(x: bv32, n: bv8): bv32
    requires n < 32
  {
    (x << n) | (x >> (32 - n))
  }

  function FF(a: bv32, b: bv32, c: bv32, d: bv32, x: bv32, s: bv8, ac: bv32): bv32
    requires s < 32
  {
    RotateLeft(a + (F(b, c, d) + x + ac), s) + b
  }

  function GG(a: bv32, b: bv32, c: bv32, d: bv32, x: bv32, s: bv8, ac: bv32): bv32
    requires s < 32
  {
    RotateLeft(a + (G(b, c, d) + x + ac), s) + b
  }

  function HH(a: bv32, b: bv32, c: bv32, d: bv32, x: bv32, s: bv8, ac: bv32): bv32
    requires s < 32
  {
    RotateLeft(a + (H(b, c, d) + x + ac), s) + b
  }

  function II(a: bv32, b: bv32, c: bv32, d: bv32, x: bv32, s: bv8, ac: bv32): bv32
    requires s < 32
  {
    RotateLeft(a + (I(b, c, d) + x + ac), s) + b
  }

  /** The word that step i of section 3.4 of RFC 1321 uses. */
  function Index(i: nat): (k: nat)
    requires i < 64
    ensures k < 16
  {
    if i < 16 then i else if i < 32 then (5 * i + 1) % 16 else if i < 48 then (3 * i + 5) % 16 else 7 * i % 16
  }

  /** How far step i rotates. */
  function Shift(i: nat): (s: bv8)
    requires i < 64
    ensures s < 32
  {
    if i < 16 then Quarter(i, 7, 12, 17, 22)
    else if i < 32 then Quarter(i, 5, 9, 14, 20)
    else if i < 48 then Quarter(i, 4, 11, 16, 23)
    else Quarter(i, 6, 10, 15, 21)
  }

  function Quarter(i: nat, p: bv8, q: bv8, r: bv8, s: bv8): bv8 {
    if i % 4 == 0 then p else if i % 4 == 1 then q else if i % 4 == 2 then r else s
  }

  /** The sine table of section 3.4 of RFC 1321. */
  function T(i: nat): bv32
    requires i < 64
  {
    if i < 32 then
      if i < 16 then
        if i < 8 then
          if i < 4 then
            if i == 0 then 0xD76A_A478 else if i == 1 then 0xE8C7_B756 else if i == 2 then 0x2420_70DB else 0xC1BD_CEEE
          else
            if i == 4 then 0xF57C_0FAF else if i == 5 then 0x4787_C62A else if i == 6 then 0xA830_4613 else 0xFD46_9501
        else
          if i < 12 then
            if i == 8 then 0x6980_98D8 else if i == 9 then 0x8B44_F7AF else if i == 10 then 0xFFFF_5BB1 else 0x895C_D7BE
          else
            if i == 12 then 0x6B90_1122 else if i == 13 then 0xFD98_7193 else if i == 14 then 0xA679_438E else 0x49B4_0821
      else
        if i < 24 then
          if i < 20 then
            if i == 16 then 0xF61E_2562 else if i == 17 then 0xC040_B340 else if i == 18 then 0x265E_5A51 else 0xE9B6_C7AA
          else
            if i == 20 then 0xD62F_105D else if i == 21 then 0x0244_1453 else if i == 22 then 0xD8A1_E681 else 0xE7D3_FBC8
        else
          if i < 28 then
            if i == 24 then 0x21E1_CDE6 else if i == 25 then 0xC337_07D6 else if i == 26 then 0xF4D5_0D87 else 0x455A_14ED
          else
            if i == 28 then 0xA9E3_E905 else if i == 29 then 0xFCEF_A3F8 else if i == 30 then 0x676F_02D9 else 0x8D2A_4C8A
    else
      if i < 48 then
        if i < 40 then
          if i < 36 then
            if i == 32 then 0xFFFA_3942 else if i == 33 then 0x8771_F681 else if i == 34 then 0x6D9D_6122 else 0xFDE5_380C
          else
            if i == 36 then 0xA4BE_EA44 else if i == 37 then 0x4BDE_CFA9 else if i == 38 then 0xF6BB_4B60 else 0xBEBF_BC70
        else
          if i < 44 then
            if i == 40 then 0x289B_7EC6 else if i == 41 then 0xEAA1_27FA else if i == 42 then 0xD4EF_3085 else 0x0488_1D05
          else
            if i == 44 then 0xD9D4_D039 else if i == 45 then 0xE6DB_99E5 else if i == 46 then 0x1FA2_7CF8 else 0xC4AC_5665
      else
        if i < 56 then
          if i < 52 then
            if i == 48 then 0xF429_2244 else if i == 49 then 0x432A_FF97 else if i == 50 then 0xAB94_23A7 else 0xFC93_A039
          else
            if i == 52 then 0x655B_59C3 else if i == 53 then 0x8F0C_CC92 else if i == 54 then 0xFFEF_F47D else 0x8584_5DD1
        else
          if i < 60 then
            if i == 56 then 0x6FA8_7E4F else if i == 57 then 0xFE2C_E6E0 else if i == 58 then 0xA301_4314 else 0x4E08_11A1
          else
            if i == 60 then 0xF753_7E82 else if i == 61 then 0xBD3A_F235 else if i == 62 then 0x2AD7_D2BB else 0xEB86_D391
  }

  function Step(i: nat, s: Md, x: bv32): bv32
    requires i < 64
  {
    if i < 16 then FF(s.a, s.b, s.c, s.d, x, Shift(i), T(i))
    else if i < 32 then GG(s.a, s.b, s.c, s.d, x, Shift(i), T(i))
    else if i < 48 then HH(s.a, s.b, s.c, s.d, x, Shift(i), T(i))
    else II(s.a, s.b, s.c, s.d, x, Shift(i), T(i))
  }

  /** One step, the four registers turning by one. */
  function Op(s: Md, x: seq<bv32>, i: nat): Md
    requires |x| == 16 && i < 64
  {
    Md(s.d, Step(i, s, x[Index(i)]), s.b, s.c)
  }

  /** The n steps from step i on. */
  function Run(s: Md, x: seq<bv32>, i: nat, n: nat): Md
    requires |x| == 16 && i + n <= 64
  {
    if n == 0 then s else Op(Run(s, x, i, n - 1), x, i + n - 1)
  }

  lemma {:induction false} RunSplits(s: Md, x: seq<bv32>, i: nat, m: nat, n: nat)
    requires |x| == 16 && i + m + n <= 64
    ensures Run(s, x, i, m + n) == Run(Run(s, x, i, m), x, i + m, n)
  {
    hide Op;
    if n > 0 {
      RunSplits(s, x, i, m, n - 1);
    }
  }

  // What each of the four rounds uses, step by step.

  lemma Schedule1()
    ensures Index(0) == 0 && Shift(0) == 7 && T(0) == 0xD76A_A478
    ensures Index(1) == 1 && Shift(1) == 12 && T(1) == 0xE8C7_B756
    ensures Index(2) == 2 && Shift(2) == 17 && T(2) == 0x2420_70DB
    ensures Index(3) == 3 && Shift(3) == 22 && T(3) == 0xC1BD_CEEE
    ensures Index(4) == 4 && Shift(4) == 7 && T(4) == 0xF57C_0FAF
    ensures Index(5) == 5 && Shift(5) == 12 && T(5) == 0x4787_C62A
    ensures Index(6) == 6 && Shift(6) == 17 && T(6) == 0xA830_4613
    ensures Index(7) == 7 && Shift(7) == 22 && T(7) == 0xFD46_9501
    ensures Index(8) == 8 && Shift(8) == 7 && T(8) == 0x6980_98D8
    ensures Index(9) == 9 && Shift(9) == 12 && T(9) == 0x8B44_F7AF
    ensures Index(10) == 10 && Shift(10) == 17 && T(10) == 0xFFFF_5BB1
    ensures Index(11) == 11 && Shift(11) == 22 && T(11) == 0x895C_D7BE
    ensures Index(12) == 12 && Shift(12) == 7 && T(12) == 0x6B90_1122
    ensures Index(13) == 13 && Shift(13) == 12 && T(13) == 0xFD98_7193
    ensures Index(14) == 14 && Shift(14) == 17 && T(14) == 0xA679_438E
    ensures Index(15) == 15 && Shift(15) == 22 && T(15) == 0x49B4_0821
  {
  }

  lemma Schedule2()
    ensures Index(16) == 1 && Shift(16) == 5 && T(16) == 0xF61E_2562
    ensures Index(17) == 6 && Shift(17) == 9 && T(17) == 0xC040_B340
    ensures Index(18) == 11 && Shift(18) == 14 && T(18) == 0x265E_5A51
    ensures Index(19) == 0 && Shift(19) == 20 && T(19) == 0xE9B6_C7AA
    ensures Index(20) == 5 && Shift(20) == 5 && T(20) == 0xD62F_105D
    ensures Index(21) == 10 && Shift(21) == 9 && T(21) == 0x0244_1453
    ensures Index(22) == 15 && Shift(22) == 14 && T(22) == 0xD8A1_E681
    ensures Index(23) == 4 && Shift(23) == 20 && T(23) == 0xE7D3_FBC8
    ensures Index(24) == 9 && Shift(24) == 5 && T(24) == 0x21E1_CDE6
    ensures Index(25) == 14 && Shift(25) == 9 && T(25) == 0xC337_07D6
    ensures Index(26) == 3 && Shift(26) == 14 && T(26) == 0xF4D5_0D87
    ensures Index(27) == 8 && Shift(27) == 20 && T(27) == 0x455A_14ED
    ensures Index(28) == 13 && Shift(28) == 5 && T(28) == 0xA9E3_E905
    ensures Index(29) == 2 && Shift(29) == 9 && T(29) == 0xFCEF_A3F8
    ensures Index(30) == 7 && Shift(30) == 14 && T(30) == 0x676F_02D9
    ensures Index(31) == 12 && Shift(31) == 20 && T(31) == 0x8D2A_4C8A
  {
  }

  lemma Schedule3()
    ensures Index(32) == 5 && Shift(32) == 4 && T(32) == 0xFFFA_3942
    ensures Index(33) == 8 && Shift(33) == 11 && T(33) == 0x8771_F681
    ensures Index(34) == 11 && Shift(34) == 16 && T(34) == 0x6D9D_6122
    ensures Index(35) == 14 && Shift(35) == 23 && T(35) == 0xFDE5_380C
    ensures Index(36) == 1 && Shift(36) == 4 && T(36) == 0xA4BE_EA44
    ensures Index(37) == 4 && Shift(37) == 11 && T(37) == 0x4BDE_CFA9
    ensures Index(38) == 7 && Shift(38) == 16 && T(38) == 0xF6BB_4B60
    ensures Index(39) == 10 && Shift(39) == 23 && T(39) == 0xBEBF_BC70
    ensures Index(40) == 13 && Shift(40) == 4 && T(40) == 0x289B_7EC6
    ensures Index(41) == 0 && Shift(41) == 11 && T(41) == 0xEAA1_27FA
    ensures Index(42) == 3 && Shift(42) == 16 && T(42) == 0xD4EF_3085
    ensures Index(43) == 6 && Shift(43) == 23 && T(43) == 0x0488_1D05
    ensures Index(44) == 9 && Shift(44) == 4 && T(44) == 0xD9D4_D039
    ensures Index(45) == 12 && Shift(45) == 11 && T(45) == 0xE6DB_99E5
    ensures Index(46) == 15 && Shift(46) == 16 && T(46) == 0x1FA2_7CF8
    ensures Index(47) == 2 && Shift(47) == 23 && T(47) == 0xC4AC_5665
  {
  }

  lemma Schedule4()
    ensures Index(48) == 0 && Shift(48) == 6 && T(48) == 0xF429_2244
    ensures Index(49) == 7 && Shift(49) == 10 && T(49) == 0x432A_FF97
    ensures Index(50) == 14 && Shift(50) == 15 && T(50) == 0xAB94_23A7
    ensures Index(51) == 5 && Shift(51) == 21 && T(51) == 0xFC93_A039
    ensures Index(52) == 12 && Shift(52) == 6 && T(52) == 0x655B_59C3
    ensures Index(53) == 3 && Shift(53) == 10 && T(53) == 0x8F0C_CC92
    ensures Index(54) == 10 && Shift(54) == 15 && T(54) == 0xFFEF_F47D
    ensures Index(55) == 1 && Shift(55) == 21 && T(55) == 0x8584_5DD1
    ensures Index(56) == 8 && Shift(56) == 6 && T(56) == 0x6FA8_7E4F
    ensures Index(57) == 15 && Shift(57) == 10 && T(57) == 0xFE2C_E6E0
    ensures Index(58) == 6 && Shift(58) == 15 && T(58) == 0xA301_4314
    ensures Index(59) == 13 && Shift(59) == 21 && T(59) == 0x4E08_11A1
    ensures Index(60) == 4 && Shift(60) == 6 && T(60) == 0xF753_7E82
    ensures Index(61) == 11 && Shift(61) == 10 && T(61) == 0xBD3A_F235
    ensures Index(62) == 2 && Shift(62) == 15 && T(62) == 0x2AD7_D2BB
    ensures Index(63) == 9 && Shift(63) == 21 && T(63) == 0xEB86_D391
  {
  }

  // Four steps at a time the registers are back in their places.

  lemma {:induction false} Quad1(s: Md, x: seq<bv32>, i: nat, a: bv32, b: bv32, c: bv32, d: bv32)
    requires |x| == 16 && 0 <= i < 16 && i % 4 == 0
    requires a == FF(s.a, s.b, s.c, s.d, x[Index(i)], Shift(i), T(i))
    requires d == FF(s.d, a, s.b, s.c, x[Index(i + 1)], Shift(i + 1), T(i + 1))
    requires c == FF(s.c, d, a, s.b, x[Index(i + 2)], Shift(i + 2), T(i + 2))
    requires b == FF(s.b, c, d, a, x[Index(i + 3)], Shift(i + 3), T(i + 3))
    ensures Md(a, b, c, d) == Run(s, x, i, 4)
  {
    hide FF, GG, HH, II, T, Index, Shift;
    assert Run(s, x, i, 1) == Md(s.d, a, s.b, s.c);
    assert Run(s, x, i, 2) == Md(s.c, d, a, s.b);
    assert Run(s, x, i, 3) == Md(s.b, c, d, a);
  }

  lemma {:induction false} Quad2(s: Md, x: seq<bv32>, i: nat, a: bv32, b: bv32, c: bv32, d: bv32)
    requires |x| == 16 && 16 <= i < 32 && i % 4 == 0
    requires a == GG(s.a, s.b, s.c, s.d, x[Index(i)], Shift(i), T(i))
    requires d == GG(s.d, a, s.b, s.c, x[Index(i + 1)], Shift(i + 1), T(i + 1))
    requires c == GG(s.c, d, a, s.b, x[Index(i + 2)], Shift(i + 2), T(i + 2))
    requires b == GG(s.b, c, d, a, x[Index(i + 3)], Shift(i + 3), T(i + 3))
    ensures Md(a, b, c, d) == Run(s, x, i, 4)
  {
    hide FF, GG, HH, II, T, Index, Shift;
    assert Run(s, x, i, 1) == Md(s.d, a, s.b, s.c);
    assert Run(s, x, i, 2) == Md(s.c, d, a, s.b);
    assert Run(s, x, i, 3) == Md(s.b, c, d, a);
  }

  lemma {:induction false} Quad3(s: Md, x: seq<bv32>, i: nat, a: bv32, b: bv32, c: bv32, d: bv32)
    requires |x| == 16 && 32 <= i < 48 && i % 4 == 0
    requires a == HH(s.a, s.b, s.c, s.d, x[Index(i)], Shift(i), T(i))
    requires d == HH(s.d, a, s.b, s.c, x[Index(i + 1)], Shift(i + 1), T(i + 1))
    requires c == HH(s.c, d, a, s.b, x[Index(i + 2)], Shift(i + 2), T(i + 2))
    requires b == HH(s.b, c, d, a, x[Index(i + 3)], Shift(i + 3), T(i + 3))
    ensures Md(a, b, c, d) == Run(s, x, i, 4)
  {
    hide FF, GG, HH, II, T, Index, Shift;
    assert Run(s, x, i, 1) == Md(s.d, a, s.b, s.c);
    assert Run(s, x, i, 2) == Md(s.c, d, a, s.b);
    assert Run(s, x, i, 3) == Md(s.b, c, d, a);
  }

  lemma {:induction false} Quad4(s: Md, x: seq<bv32>, i: nat, a: bv32, b: bv32, c: bv32, d: bv32)
    requires |x| == 16 && 48 <= i < 64 && i % 4 == 0
    requires a == II(s.a, s.b, s.c, s.d, x[Index(i)], Shift(i), T(i))
    requires d == II(s.d, a, s.b, s.c, x[Index(i + 1)], Shift(i + 1), T(i + 1))
    requires c == II(s.c, d, a, s.b, x[Index(i + 2)], Shift(i + 2), T(i + 2))
    requires b == II(s.b, c, d, a, x[Index(i + 3)], Shift(i + 3), T(i + 3))
    ensures Md(a, b, c, d) == Run(s, x, i, 4)
  {
    hide FF, GG, HH, II, T, Index, Shift;
    assert Run(s, x, i, 1) == Md(s.d, a, s.b, s.c);
    assert Run(s, x, i, 2) == Md(s.c, d, a, s.b);
    assert Run(s, x, i, 3) == Md(s.b, c, d, a);
  }

  lemma {:induction false} JoinQuads(s0: Md, x: seq<bv32>, i: nat, s1: Md, s2: Md, s3: Md, s4: Md)
    requires |x| == 16 && i + 16 <= 64
    requires s1 == Run(s0, x, i, 4) && s2 == Run(s1, x, i + 4, 4) && s3 == Run(s2, x, i + 8, 4) && s4 == Run(s3, x, i + 12, 4)
    ensures s4 == Run(s0, x, i, 16)
  {
    hide Run;
    RunSplits(s0, x, i, 4, 4);
    RunSplits(s0, x, i, 8, 4);
    RunSplits(s0, x, i, 12, 4);
  }

  // ---------- bytes and words

  function GetWord(b: seq<bv8>, i: nat): bv32
    requires i + 4 <= |b|
  {
    JoinBytes(b[i], b[i + 1], b[i + 2], b[i + 3])
  }

  function JoinBytes(p: bv8, q: bv8, r: bv8, s: bv8): bv32 {
    (p as bv32) | (q as bv32 << 8) | (r as bv32 << 16) | (s as bv32 << 24)
  }

  function PutWord(w: bv32): (b: seq<bv8>)
    ensures |b| == 4
  {
    [(w & 0xFF) as bv8, ((w >> 8) & 0xFF) as bv8, ((w >> 16) & 0xFF) as bv8, ((w >> 24) & 0xFF) as bv8]
  }

  function Words(block: seq<bv8>): (x: seq<bv32>)
    requires |block| == 64
    ensures |x| == 16
  {
    seq(16, j requires 0 <= j < 16 => GetWord(block, 4 * j))
  }

  /** A number below 2^32 as a word. */
  function Word32(n: nat): bv32
    requires n < 0x1_0000_0000
  {
    n as bv32
  }

  // ---------- messages

  function Plus(x: bv32, y: bv32): bv32 { x + y }

  function Compress(s: Md, block: seq<bv8>): Md
    requires |block| == 64
  {
    var t := Run(s, Words(block), 0, 64);
    Md(Plus(s.a, t.a), Plus(s.b, t.b), Plus(s.c, t.c), Plus(s.d, t.d))
  }

  const INITIAL := Md(0x6745_2301, 0xEFCD_AB89, 0x98BA_DCFE, 0x1032_5476)

  function Process(s: Md, msg: seq<bv8>): Md
    requires |msg| % 64 == 0
    decreases |msg|
  {
    if |msg| < 64 then s else Process(Compress(s, msg[..64]), msg[64..])
  }

  lemma {:induction false} ProcessSplits(s: Md, a: seq<bv8>, b: seq<bv8>)
    requires |a| % 64 == 0 && |b| % 64 == 0
    ensures Process(s, a + b) == Process(Process(s, a), b)
    decreases |a|
  {
    hide Compress;
    if |a| < 64 {
      assert a + b == b;
    } else {
      assert (a + b)[..64] == a[..64] && (a + b)[64..] == a[64..] + b;
      ProcessSplits(Compress(s, a[..64]), a[64..], b);
    }
  }

  /** The bytes of the whole blocks among n. */
  function Whole(n: nat): (w: nat)
    ensures w % 64 == 0 && w <= n < w + 64
  {
    n - n % 64
  }

  lemma WholeIs(n: nat, w: nat)
    requires w % 64 == 0 && w <= n < w + 64
    ensures Whole(n) == w && n % 64 == n - w
  {
  }

  lemma OneMoreBlock(s: Md, msg: seq<bv8>, n: nat)
    requires n % 64 == 0 && n + 64 <= |msg|
    ensures Process(s, msg[..n + 64]) == Compress(Process(s, msg[..n]), msg[n..n + 64])
  {
    hide Compress;
    var b := msg[n..n + 64];
    assert msg[..n + 64] == msg[..n] + b && b[..64] == b && b[64..] == [];
    ProcessSplits(s, msg[..n], b);
  }

  /** How many padding bytes follow n message bytes, section 3.1 of RFC 1321. */
  function PadCount(n: nat): (p: nat)
    ensures 1 <= p <= 64 && (n + p) % 64 == 56
  {
    if n % 64 < 56 then 56 - n % 64 else 120 - n % 64
  }

  function Padding(p: nat): (b: seq<bv8>)
    requires p > 0
    ensures |b| == p
  {
    [0x80] + seq(p - 1, i => 0)
  }

  /** The number of bits modulo 2^64, low-order word first, section 3.2 of RFC 1321. */
  function BitLength(n: nat): (b: seq<bv8>)
    ensures |b| == 8
  {
    PutWord(Word32(8 * n % 0x1_0000_0000)) + PutWord(Word32(8 * n / 0x1_0000_0000 % 0x1_0000_0000))
  }

  function PaddedMessage(msg: seq<bv8>): (r: seq<bv8>)
    ensures |r| % 64 == 0
  {
    var p := PadCount(|msg|);
    assert (|msg| + p + 8) % 64 == 0;
    msg + (Padding(p) + BitLength(|msg|))
  }

  function DigestOf(s: Md): (r: seq<bv8>)
    ensures |r| == 16
  {
    PutWord(s.a) + PutWord(s.b) + PutWord(s.c) + PutWord(s.d)
  }

  /** The MD5 digest of a message. */
  function Digest(msg: seq<bv8>): (r: seq<bv8>)
    ensures |r| == 16
  {
    DigestOf(Process(INITIAL, PaddedMessage(msg)))
  }

  // ---------- the two count words

  const TWO32 := 0x1_0000_0000

  /** The two words after `m` more bytes: the carry comes from comparing with what was added. */
  function CountAfter(c0: nat, c1: nat, m: nat): (nat, nat) {
    var added := 8 * m % TWO32;
    var low := (c0 + added) % TWO32;
    var carried := if low < added then (c1 + 1) % TWO32 else c1;
    (low, (carried + m / 0x2000_0000) % TWO32)
  }

  /** They hold the bit length modulo 2^64. */
  predicate Counts(c0: nat, c1: nat, n: nat) {
    c0 == 8 * n % TWO32 && c1 == 8 * n / TWO32 % TWO32
  }

  lemma LowWord(c0: nat, n: nat, m: nat)
    requires c0 == 8 * n % TWO32 && m < TWO32
    ensures var added := 8 * m % TWO32; var low := (c0 + added) % TWO32;
      && low == 8 * (n + m) % TWO32
      && 8 * (n + m) / TWO32 == 8 * n / TWO32 + m / 0x2000_0000 + (if low < added then 1 else 0)
  {
    var q, r := 8 * n / TWO32, m / 0x2000_0000;
    var added := 8 * m % TWO32;
    assert 8 * n == TWO32 * q + c0;
    assert m == 0x2000_0000 * r + m % 0x2000_0000;
    assert 8 * m == TWO32 * r + 8 * (m % 0x2000_0000);
    assert added == 8 * (m % 0x2000_0000);
    if c0 + added < TWO32 {
      assert 8 * (n + m) == TWO32 * (q + r) + (c0 + added);
    } else {
      assert 8 * (n + m) == TWO32 * (q + r + 1) + (c0 + added - TWO32);
    }
  }

  lemma ModSum(x: nat, y: nat)
    ensures (x % TWO32 + y) % TWO32 == (x + y) % TWO32
  {
  }

  /** The count words stay the bit length modulo 2^64, whatever the carry and the wrap. */
  lemma CountsAfter(c0: nat, c1: nat, n: nat, m: nat)
    requires Counts(c0, c1, n) && m < TWO32
    ensures var (d0, d1) := CountAfter(c0, c1, m); Counts(d0, d1, n + m)
  {
    LowWord(c0, n, m);
    var q, r := 8 * n / TWO32, m / 0x2000_0000;
    ModSum(q, r);
    ModSum(q, 1);
    ModSum(q + 1, r);
  }

  lemma IndexIs(c0: nat, n: nat)
    requires c0 == 8 * n % TWO32
    ensures c0 / 8 % 64 == n % 64
  {
    var q := 8 * n / TWO32;
    assert 8 * n == TWO32 * q + c0;
    assert n == 0x2000_0000 * q + c0 / 8;
  }

  // ---------- the 32-bit loop guard

  /** Whether `i + 64 <= inputlen` ever holds by wrap-around, for an input of n bytes that starts at `index` of
      the buffer. */
  predicate GuardWraps(index: nat, n: nat) {
    n >= (if index == 0 then TWO32 - 64 else TWO32 - index)
  }

  /** Block k of the input starts at a position the loop reaches, has fewer than 64 bytes left, and passes the
      guard all the same. */
  predicate WrongBlock(index: nat, n: nat, k: nat) {
    var i := Position(index, k);
    0 <= i <= n && i + 64 > n && (i + 64) % TWO32 <= n
  }

  function Position(index: nat, k: nat): int {
    64 - index + 64 * k
  }

  /** The exact condition for the loop to go past its input. */
  lemma GuardWrapsExactly(index: nat, n: nat)
    requires index < 64 && 64 - index <= n < TWO32
    ensures GuardWraps(index, n) <==> exists k: nat {:trigger WrongBlock(index, n, k)} :: WrongBlock(index, n, k)
  {
    var last := (n - (64 - index)) / 64;
    assert Position(index, last) <= n < Position(index, last) + 64;
    if GuardWraps(index, n) {
      assert WrongBlock(index, n, last);
    }
    forall k: nat {:trigger WrongBlock(index, n, k)} | WrongBlock(index, n, k) ensures GuardWraps(index, n) {
      assert Position(index, k) + 64 >= TWO32;
    }
  }

  lemma GuardIsRight(index: nat, n: nat, k: nat)
    requires index < 64 && n < TWO32 && !GuardWraps(index, n) && Position(index, k) <= n
    ensures (Position(index, k) + 64) % TWO32 <= n <==> Position(index, k) + 64 <= n
  {
  }

  // ---------- the context

  class Context {
    var count0: nat
    var count1: nat
    const state: array<bv32>
    const buffer: array<bv8>
    ghost var message: seq<bv8>

    /** uni_md5_init */
    constructor ()
      ensures Valid() && message == [] && fresh(state) && fresh(buffer)
    {
      count0, count1 := 0, 0;
      state, buffer := new bv32[4], new bv8[64];
      message := [];
      new;
      state[0], state[1], state[2], state[3] := 0x6745_2301, 0xEFCD_AB89, 0x98BA_DCFE, 0x1032_5476;
    }

    ghost function Registers(): Md
      requires state.Length == 4
      reads state
    {
      Md(state[0], state[1], state[2], state[3])
    }

    /** Whole blocks are in the registers, the rest in the buffer, the bit length in the count words. */
    ghost predicate Valid()
      reads this, state, buffer
    {
      var n := |message|;
      && state.Length == 4 && buffer.Length == 64
      && Counts(count0, count1, n)
      && buffer[..n - Whole(n)] == message[Whole(n)..]
      && Registers() == Process(INITIAL, message[..Whole(n)])
    }

    /** uni_md5_decode into the first sixteen words of `output`. */
    static method Decode(output: array<bv32>, input: array<bv8>, from: nat)
      requires output.Length == 64 && from + 64 <= input.Length
      modifies output
      ensures output[..16] == Words(input[from..from + 64])
    {
      hide GetWord;
      ghost var block := input[from..from + 64];
      for i := 0 to 16
        invariant forall k :: 0 <= k < i ==> output[k] == GetWord(block, 4 * k)
      {
        WordWithin(input[..], from, 4 * i);
        output[i] := GetWord(input[..], from + 4 * i);
      }
    }

    /** uni_md5_encode of one word. */
    static method Encode(output: array<bv8>, at: nat, w: bv32)
      requires at + 4 <= output.Length
      modifies output
      ensures output[at..at + 4] == PutWord(w)
      ensures output[..at] == old(output[..at]) && output[at + 4..] == old(output[at + 4..])
    {
      output[at] := (w & 0xFF) as bv8;
      output[at + 1] := ((w >> 8) & 0xFF) as bv8;
      output[at + 2] := ((w >> 16) & 0xFF) as bv8;
      output[at + 3] := ((w >> 24) & 0xFF) as bv8;
    }

    /** Round 1: steps 0 to 15. */
    static method Round1(a0: bv32, b0: bv32, c0: bv32, d0: bv32, x: seq<bv32>) returns (a: bv32, b: bv32, c: bv32, d: bv32)
      requires |x| == 16
      ensures Md(a, b, c, d) == Run(Md(a0, b0, c0, d0), x, 0, 16)
    {
      hide Run, FF, GG, HH, II, Index, Shift, T;
      Schedule1();
      a, b, c, d := a0, b0, c0, d0;
      ghost var s0 := Md(a, b, c, d);
      a := FF(a, b, c, d, x[0], 7, 0xD76A_A478);
      d := FF(d, a, b, c, x[1], 12, 0xE8C7_B756);
      c := FF(c, d, a, b, x[2], 17, 0x2420_70DB);
      b := FF(b, c, d, a, x[3], 22, 0xC1BD_CEEE);
      Quad1(s0, x, 0, a, b, c, d);
      ghost var s1 := Md(a, b, c, d);
      a := FF(a, b, c, d, x[4], 7, 0xF57C_0FAF);
      d := FF(d, a, b, c, x[5], 12, 0x4787_C62A);
      c := FF(c, d, a, b, x[6], 17, 0xA830_4613);
      b := FF(b, c, d, a, x[7], 22, 0xFD46_9501);
      Quad1(s1, x, 4, a, b, c, d);
      ghost var s2 := Md(a, b, c, d);
      a := FF(a, b, c, d, x[8], 7, 0x6980_98D8);
      d := FF(d, a, b, c, x[9], 12, 0x8B44_F7AF);
      c := FF(c, d, a, b, x[10], 17, 0xFFFF_5BB1);
      b := FF(b, c, d, a, x[11], 22, 0x895C_D7BE);
      Quad1(s2, x, 8, a, b, c, d);
      ghost var s3 := Md(a, b, c, d);
      a := FF(a, b, c, d, x[12], 7, 0x6B90_1122);
      d := FF(d, a, b, c, x[13], 12, 0xFD98_7193);
      c := FF(c, d, a, b, x[14], 17, 0xA679_438E);
      b := FF(b, c, d, a, x[15], 22, 0x49B4_0821);
      Quad1(s3, x, 12, a, b, c, d);
      JoinQuads(s0, x, 0, s1, s2, s3, Md(a, b, c, d));
    }

    /** Round 2: steps 16 to 31. */
    static method Round2(a0: bv32, b0: bv32, c0: bv32, d0: bv32, x: seq<bv32>) returns (a: bv32, b: bv32, c: bv32, d: bv32)
      requires |x| == 16
      ensures Md(a, b, c, d) == Run(Md(a0, b0, c0, d0), x, 16, 16)
    {
      hide Run, FF, GG, HH, II, Index, Shift, T;
      Schedule2();
      a, b, c, d := a0, b0, c0, d0;
      ghost var s0 := Md(a, b, c, d);
      a := GG(a, b, c, d, x[1], 5, 0xF61E_2562);
      d := GG(d, a, b, c, x[6], 9, 0xC040_B340);
      c := GG(c, d, a, b, x[11], 14, 0x265E_5A51);
      b := GG(b, c, d, a, x[0], 20, 0xE9B6_C7AA);
      Quad2(s0, x, 16, a, b, c, d);
      ghost var s1 := Md(a, b, c, d);
      a := GG(a, b, c, d, x[5], 5, 0xD62F_105D);
      d := GG(d, a, b, c, x[10], 9, 0x0244_1453);
      c := GG(c, d, a, b, x[15], 14, 0xD8A1_E681);
      b := GG(b, c, d, a, x[4], 20, 0xE7D3_FBC8);
      Quad2(s1, x, 20, a, b, c, d);
      ghost var s2 := Md(a, b, c, d);
      a := GG(a, b, c, d, x[9], 5, 0x21E1_CDE6);
      d := GG(d, a, b, c, x[14], 9, 0xC337_07D6);
      c := GG(c, d, a, b, x[3], 14, 0xF4D5_0D87);
      b := GG(b, c, d, a, x[8], 20, 0x455A_14ED);
      Quad2(s2, x, 24, a, b, c, d);
      ghost var s3 := Md(a, b, c, d);
      a := GG(a, b, c, d, x[13], 5, 0xA9E3_E905);
      d := GG(d, a, b, c, x[2], 9, 0xFCEF_A3F8);
      c := GG(c, d, a, b, x[7], 14, 0x676F_02D9);
      b := GG(b, c, d, a, x[12], 20, 0x8D2A_4C8A);
      Quad2(s3, x, 28, a, b, c, d);
      JoinQuads(s0, x, 16, s1, s2, s3, Md(a, b, c, d));
    }

    /** Round 3: steps 32 to 47. */
    static method Round3(a0: bv32, b0: bv32, c0: bv32, d0: bv32, x: seq<bv32>) returns (a: bv32, b: bv32, c: bv32, d: bv32)
      requires |x| == 16
      ensures Md(a, b, c, d) == Run(Md(a0, b0, c0, d0), x, 32, 16)
    {
      hide Run, FF, GG, HH, II, Index, Shift, T;
      Schedule3();
      a, b, c, d := a0, b0, c0, d0;
      ghost var s0 := Md(a, b, c, d);
      a := HH(a, b, c, d, x[5], 4, 0xFFFA_3942);
      d := HH(d, a, b, c, x[8], 11, 0x8771_F681);
      c := HH(c, d, a, b, x[11], 16, 0x6D9D_6122);
      b := HH(b, c, d, a, x[14], 23, 0xFDE5_380C);
      Quad3(s0, x, 32, a, b, c, d);
      ghost var s1 := Md(a, b, c, d);
      a := HH(a, b, c, d, x[1], 4, 0xA4BE_EA44);
      d := HH(d, a, b, c, x[4], 11, 0x4BDE_CFA9);
      c := HH(c, d, a, b, x[7], 16, 0xF6BB_4B60);
      b := HH(b, c, d, a, x[10], 23, 0xBEBF_BC70);
      Quad3(s1, x, 36, a, b, c, d);
      ghost var s2 := Md(a, b, c, d);
      a := HH(a, b, c, d, x[13], 4, 0x289B_7EC6);
      d := HH(d, a, b, c, x[0], 11, 0xEAA1_27FA);
      c := HH(c, d, a, b, x[3], 16, 0xD4EF_3085);
      b := HH(b, c, d, a, x[6], 23, 0x0488_1D05);
      Quad3(s2, x, 40, a, b, c, d);
      ghost var s3 := Md(a, b, c, d);
      a := HH(a, b, c, d, x[9], 4, 0xD9D4_D039);
      d := HH(d, a, b, c, x[12], 11, 0xE6DB_99E5);
      c := HH(c, d, a, b, x[15], 16, 0x1FA2_7CF8);
      b := HH(b, c, d, a, x[2], 23, 0xC4AC_5665);
      Quad3(s3, x, 44, a, b, c, d);
      JoinQuads(s0, x, 32, s1, s2, s3, Md(a, b, c, d));
    }

    /** Round 4: steps 48 to 63. */
    static method Round4(a0: bv32, b0: bv32, c0: bv32, d0: bv32, x: seq<bv32>) returns (a: bv32, b: bv32, c: bv32, d: bv32)
      requires |x| == 16
      ensures Md(a, b, c, d) == Run(Md(a0, b0, c0, d0), x, 48, 16)
    {
      hide Run, FF, GG, HH, II, Index, Shift, T;
      Schedule4();
      a, b, c, d := a0, b0, c0, d0;
      ghost var s0 := Md(a, b, c, d);
      a := II(a, b, c, d, x[0], 6, 0xF429_2244);
      d := II(d, a, b, c, x[7], 10, 0x432A_FF97);
      c := II(c, d, a, b, x[14], 15, 0xAB94_23A7);
      b := II(b, c, d, a, x[5], 21, 0xFC93_A039);
      Quad4(s0, x, 48, a, b, c, d);
      ghost var s1 := Md(a, b, c, d);
      a := II(a, b, c, d, x[12], 6, 0x655B_59C3);
      d := II(d, a, b, c, x[3], 10, 0x8F0C_CC92);
      c := II(c, d, a, b, x[10], 15, 0xFFEF_F47D);
      b := II(b, c, d, a, x[1], 21, 0x8584_5DD1);
      Quad4(s1, x, 52, a, b, c, d);
      ghost var s2 := Md(a, b, c, d);
      a := II(a, b, c, d, x[8], 6, 0x6FA8_7E4F);
      d := II(d, a, b, c, x[15], 10, 0xFE2C_E6E0);
      c := II(c, d, a, b, x[6], 15, 0xA301_4314);
      b := II(b, c, d, a, x[13], 21, 0x4E08_11A1);
      Quad4(s2, x, 56, a, b, c, d);
      ghost var s3 := Md(a, b, c, d);
      a := II(a, b, c, d, x[4], 6, 0xF753_7E82);
      d := II(d, a, b, c, x[11], 10, 0xBD3A_F235);
      c := II(c, d, a, b, x[2], 15, 0x2AD7_D2BB);
      b := II(b, c, d, a, x[9], 21, 0xEB86_D391);
      Quad4(s3, x, 60, a, b, c, d);
      JoinQuads(s0, x, 48, s1, s2, s3, Md(a, b, c, d));
    }

    static method AllRounds(s: Md, w: seq<bv32>) returns (a: bv32, b: bv32, c: bv32, d: bv32)
      requires |w| == 16
      ensures Md(a, b, c, d) == Run(s, w, 0, 64)
    {
      hide Run;
      a, b, c, d := Round1(s.a, s.b, s.c, s.d, w);
      a, b, c, d := Round2(a, b, c, d, w);
      a, b, c, d := Round3(a, b, c, d, w);
      a, b, c, d := Round4(a, b, c, d, w);
      RunSplits(s, w, 0, 16, 16);
      RunSplits(s, w, 0, 32, 16);
      RunSplits(s, w, 0, 48, 16);
    }

    /** uni_md5_transform of the block at `from`. */
    method Transform(block: array<bv8>, from: nat)
      requires state.Length == 4 && from + 64 <= block.Length
      modifies state
      ensures Registers() == Compress(old(Registers()), block[from..from + 64])
    {
      hide Run, Words, Plus;
      var x := new bv32[64];
      Decode(x, block, from);
      var a, b, c, d := AllRounds(Md(state[0], state[1], state[2], state[3]), x[..16]);
      state[0] := Plus(state[0], a);
      state[1] := Plus(state[1], b);
      state[2] := Plus(state[2], c);
      state[3] := Plus(state[3], d);
    }

    /** memcpy into the buffer. */
    method Fill(index: nat, input: array<bv8>, from: nat, n: nat)
      requires buffer.Length == 64 && index + n <= 64 && from + n <= input.Length && input != buffer
      modifies buffer
      ensures buffer[index..index + n] == input[from..from + n]
      ensures forall k :: 0 <= k < 64 && !(index <= k < index + n) ==> buffer[k] == old(buffer[k])
    {
      forall j | 0 <= j < n { buffer[index + j] := input[from + j]; }
    }

    /** The blocks of `whole` before position `n` are in the registers. */
    ghost predicate Absorbed(whole: seq<bv8>, n: nat)
      requires state.Length == 4 && n % 64 == 0 && n <= |whole|
      reads state
    {
      Registers() == Process(INITIAL, whole[..n])
    }

    /** The block loop: `whole` is the message so far and the input after it. */
    method Blocks(input: array<bv8>, inputlen: nat, index: nat, ghost whole: seq<bv8>, ghost n: nat) returns (i: nat)
      requires state.Length == 4 && buffer.Length == 64 && inputlen <= input.Length && inputlen < TWO32
      requires index < 64 && (n + (64 - index)) % 64 == 0 && 64 - index <= inputlen && !GuardWraps(index, inputlen)
      requires |whole| == n + inputlen && whole[n..] == input[..inputlen]
      requires Absorbed(whole, n + (64 - index))
      modifies state
      ensures i <= inputlen && inputlen - i < 64 && (n + i) % 64 == 0 && Absorbed(whole, n + i)
    {
      hide Process, Compress;
      i := 64 - index;
      ghost var k, g := 0, (n + i) / 64;
      GuardIsRight(index, inputlen, k);
      while (i + 64) % TWO32 <= inputlen
        invariant i == Position(index, k) && i <= inputlen && n + i == 64 * g && Absorbed(whole, n + i)
        invariant (i + 64) % TWO32 <= inputlen <==> i + 64 <= inputlen
        decreases inputlen - i
      {
        Transform(input, i);
        SliceOfSuffix(whole, n, input[..inputlen], i, 64);
        assert input[..inputlen][i..i + 64] == input[i..i + 64];
        OneMoreBlock(INITIAL, whole, n + i);
        i, k, g := i + 64, k + 1, g + 1;
        GuardIsRight(index, inputlen, k);
      }
    }

    /** uni_md5_update: the message grows by the input, however its parts are cut. */
    method Update(input: array<bv8>, inputlen: nat)
      requires Valid() && input != buffer && inputlen <= input.Length && inputlen < TWO32
      requires !GuardWraps(|message| % 64, inputlen)
      modifies this`count0, this`count1, this`message, state, buffer
      ensures Valid() && message == old(message) + input[..inputlen]
    {
      hide Process, Compress, CountAfter, Counts, GuardWraps, Whole;
      ghost var n := |message|;
      ghost var whole := message + input[..inputlen];
      BufferIndex();
      var index := count0 / 8 % 64;
      var partlen := 64 - index;
      CountsAfter(count0, count1, n, inputlen);
      var counts := CountAfter(count0, count1, inputlen);
      count0, count1 := counts.0, counts.1;
      if inputlen >= partlen {
        assert whole[..Whole(n)] == message[..Whole(n)] && whole[Whole(n)..n] == message[Whole(n)..];
        FillAndTransform(input, inputlen, index, partlen, whole, Whole(n));
      } else {
        assert whole[..Whole(n)] == message[..Whole(n)] && whole[Whole(n)..n] == message[Whole(n)..];
        KeepForLater(input, inputlen, index, whole, Whole(n));
      }
      message := whole;
    }

    lemma BufferIndex()
      requires Valid()
      ensures count0 / 8 % 64 == |message| % 64 == |message| - Whole(|message|)
    {
      hide Process;
      IndexIs(count0, |message|);
    }

    /** The block that the start of the input completes. */
    method FirstBlock(input: array<bv8>, index: nat, partlen: nat, ghost whole: seq<bv8>, ghost base: nat)
      requires state.Length == 4 && buffer.Length == 64 && input != buffer && partlen <= input.Length && index + partlen == 64
      requires base % 64 == 0 && base + 64 <= |whole|
      requires buffer[..index] == whole[base..base + index] && input[..partlen] == whole[base + index..base + 64]
      requires Absorbed(whole, base)
      modifies state, buffer
      ensures Absorbed(whole, base + 64)
    {
      hide Process, Compress;
      Fill(index, input, 0, partlen);
      assert buffer[..index] == old(buffer[..index]);
      assert whole[base..base + 64] == whole[base..base + index] + whole[base + index..base + 64];
      assert buffer[0..64] == whole[base..base + 64];
      Transform(buffer, 0);
      OneMoreBlock(INITIAL, whole, base);
    }

    /** The branch that fills the buffer: its block, the whole blocks of the input, then the rest. */
    method FillAndTransform(input: array<bv8>, inputlen: nat, index: nat, partlen: nat, ghost whole: seq<bv8>, ghost base: nat)
      requires state.Length == 4 && buffer.Length == 64 && input != buffer && inputlen <= input.Length && inputlen < TWO32
      requires index < 64 && partlen == 64 - index && partlen <= inputlen && !GuardWraps(index, inputlen)
      requires base % 64 == 0 && |whole| == base + index + inputlen && whole[base + index..] == input[..inputlen]
      requires buffer[..index] == whole[base..base + index] && Absorbed(whole, base)
      modifies state, buffer
      ensures var w := Whole(|whole|); buffer[..|whole| - w] == whole[w..] && Absorbed(whole, w)
    {
      hide Process, Compress, GuardWraps, Whole;
      ghost var n := base + index;
      assert input[..partlen] == whole[n..][..partlen] == whole[n..n + partlen];
      FirstBlock(input, index, partlen, whole, base);
      var i := Blocks(input, inputlen, index, whole, n);
      Fill(0, input, i, inputlen - i);
      assert whole[n + i..] == whole[n..][i..] == input[i..inputlen];
      WholeIs(n + inputlen, n + i);
    }

    /** The branch that only fills the buffer. */
    method KeepForLater(input: array<bv8>, inputlen: nat, index: nat, ghost whole: seq<bv8>, ghost base: nat)
      requires state.Length == 4 && buffer.Length == 64 && input != buffer && inputlen <= input.Length && index + inputlen < 64
      requires base % 64 == 0 && |whole| == base + index + inputlen && whole[base + index..] == input[..inputlen]
      requires buffer[..index] == whole[base..base + index] && Absorbed(whole, base)
      modifies buffer
      ensures var w := Whole(|whole|); buffer[..|whole| - w] == whole[w..] && Absorbed(whole, w)
    {
      hide Process, Whole;
      Fill(index, input, 0, inputlen);
      assert buffer[..index] == old(buffer[..index]);
      WholeIs(|whole|, base);
      assert buffer[..index + inputlen] == buffer[..index] + buffer[index..index + inputlen];
      assert whole[base..] == whole[base..base + index] + whole[base + index..];
    }

    /** uni_md5_final: the digest of everything that was given to update. */
    method Final(digest: array<bv8>)
      requires Valid() && digest.Length == 16 && digest != buffer
      modifies this`count0, this`count1, this`message, state, buffer, digest
      ensures digest[..] == Digest(old(message))
    {
      hide Process, Compress, PutWord, Word32, GuardWraps;
      ghost var msg := message;
      BufferIndex();
      var index := count0 / 8 % 64;
      var padlen := if index < 56 then 56 - index else 120 - index;
      var bits := EncodeCount();
      var padding := PaddingBytes();
      NoWrap(|message| % 64, padlen);
      Update(padding, padlen);
      NoWrap(|message| % 64, 8);
      Update(bits, 8);
      assert padding[..padlen] == Padding(PadCount(|msg|)) && bits[..8] == bits[..];
      Finished(msg);
      EncodeState(digest);
    }

    lemma NoWrap(index: nat, n: nat)
      requires index < 64 && n <= 64
      ensures !GuardWraps(index, n)
    {
    }

    method EncodeCount() returns (bits: array<bv8>)
      requires Valid()
      ensures fresh(bits) && bits.Length == 8 && bits[..] == BitLength(|message|)
    {
      hide Process, PutWord, Word32;
      bits := new bv8[8];
      Encode(bits, 0, Word32(count0));
      Encode(bits, 4, Word32(count1));
      assert bits[..] == bits[..4] + bits[4..8];
    }

    /** PADDING */
    static method PaddingBytes() returns (padding: array<bv8>)
      ensures fresh(padding) && padding.Length == 64 && forall p :: 0 < p <= 64 ==> padding[..p] == Padding(p)
    {
      padding := new bv8[64](k => if k == 0 then 0x80 else 0);
    }

    method EncodeState(digest: array<bv8>)
      requires state.Length == 4 && digest.Length == 16
      modifies digest
      ensures digest[..] == DigestOf(Registers())
    {
      hide PutWord;
      Encode(digest, 0, state[0]);
      assert digest[..4] == PutWord(state[0]);
      Encode(digest, 4, state[1]);
      assert digest[..8] == digest[..4] + digest[4..8];
      Encode(digest, 8, state[2]);
      assert digest[..12] == digest[..8] + digest[8..12];
      Encode(digest, 12, state[3]);
      assert digest[..] == digest[..12] + digest[12..16];
    }

    lemma Finished(msg: seq<bv8>)
      requires Valid() && message == msg + Padding(PadCount(|msg|)) + BitLength(|msg|)
      ensures Registers() == Process(INITIAL, PaddedMessage(msg))
    {
      hide Process, Padding, BitLength, Counts;
      assert message == PaddedMessage(msg);
      assert message[..|message|] == message;
    }
  }

  /** uni_md5_digest_tolal */
  method DigestTotal(input: array<bv8>, ilen: nat, output: array<bv8>)
    requires ilen <= input.Length && ilen < TWO32 - 64 && output.Length == 16
    modifies output
    ensures output[..] == Digest(old(input[..ilen]))
  {
    hide Digest;
    var ctx := new Context();
    ctx.Update(input, ilen);
    assert ctx.message == input[..ilen];
    ctx.Final(output);
  }

  lemma SliceOfSuffix(s: seq<bv8>, n: nat, t: seq<bv8>, i: nat, k: nat)
    requires n <= |s| && s[n..] == t && i + k <= |t|
    ensures t[i..i + k] == s[n + i..n + i + k]
  {
  }

  lemma WordWithin(b: seq<bv8>, from: nat, i: nat)
    requires from + 64 <= |b| && i + 4 <= 64
    ensures GetWord(b, from + i) == GetWord(b[from..from + 64], i)
  {
    hide JoinBytes;
    var s := b[from..from + 64];
    assert s[i] == b[from + i] && s[i + 1] == b[from + i + 1] && s[i + 2] == b[from + i + 2] && s[i + 3] == b[from + i + 3];
  }
}
