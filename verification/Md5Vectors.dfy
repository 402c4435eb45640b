/** The functions of section 3.4 of RFC 1321 as it describes them in words, and a known answer of its section A.5: what pins
    the digest of Md5 to the standard. */
module Md5Vectors {
  import opened Md5

  // ---------- the auxiliary functions

  /** F chooses: y where x has a bit, z where it has none. */
  lemma FChooses(x: bv32, y: bv32, z: bv32)
    ensures F(x, y, z) & x == y & x && F(x, y, z) & !x == z & !x
  {
  }

  /** G chooses by its last argument. */
  lemma GChooses(x: bv32, y: bv32, z: bv32)
    ensures G(x, y, z) & z == x & z && G(x, y, z) & !z == y & !z
  {
  }

  /** H is the parity, bit by bit: any two equal arguments cancel. */
  lemma HIsParity(x: bv32, y: bv32, z: bv32, w: bv32)
    ensures H(x, x, z) == z && H(x, z, x) == z && H(z, x, x) == z
    ensures H(x & w, y & w, z & w) == H(x, y, z) & w
  {
  }

  /** I turns y over where x has a bit or z has none, and leaves it elsewhere. */
  lemma ITurns(x: bv32, y: bv32, z: bv32)
    ensures I(x, y, z) & x == !y & x && I(x, y, z) & !z == !y & !z && I(x, y, z) & !x & z == y & !x & z
  {
  }

  // ---------- the letters a to z

  const FRONT: seq<bv8> := [0x61, 0x62, 0x63, 0x64, 0x65, 0x66, 0x67, 0x68, 0x69, 0x6A, 0x6B, 0x6C, 0x6D, 0x6E, 0x6F, 0x70]
  const BACK: seq<bv8> := [0x71, 0x72, 0x73, 0x74, 0x75, 0x76, 0x77, 0x78, 0x79, 0x7A]
  const LETTERS: seq<bv8> := FRONT + BACK

  /** The words of the padded message. */
  const X: seq<bv32> := [0x6463_6261, 0x6867_6665, 0x6C6B_6A69, 0x706F_6E6D,
                         0x7473_7271, 0x7877_7675, 0x0080_7A79, 0x0000_0000,
                         0x0000_0000, 0x0000_0000, 0x0000_0000, 0x0000_0000,
                         0x0000_0000, 0x0000_0000, 0x0000_00D0, 0x0000_0000]

  /** The registers after 4 n steps. */
  function After(n: nat): Md
    requires n <= 16
  {
    match n
    case 0 => Md(0x6745_2301, 0xEFCD_AB89, 0x98BA_DCFE, 0x1032_5476)
    case 1 => Md(0xD6D1_17A6, 0x4503_B812, 0x227D_8CF1, 0xAAB1_AAAA)
    case 2 => Md(0xFE15_F787, 0xDA9B_BB0D, 0xB711_22FC, 0xA811_B278)
    case 3 => Md(0xAE75_2899, 0x56CF_A5CB, 0x7D4B_D80B, 0x2BBE_757F)
    case 4 => Md(0x1754_A316, 0x608D_6B7E, 0x00DF_74D5, 0x8556_7D90)
    case 5 => Md(0x2D80_71CC, 0x4C21_45B3, 0xEDFE_7E4B, 0x5DCE_E119)
    case 6 => Md(0x570C_43E0, 0xC9F1_62D4, 0xC28A_B49D, 0x977E_FD2A)
    case 7 => Md(0x25BF_AE3B, 0xE6D3_B398, 0xF8C8_365F, 0x8998_0104)
    case 8 => Md(0xF54D_8710, 0xAEB3_5766, 0x2E69_AFC7, 0x927B_72E2)
    case 9 => Md(0xB4BF_680E, 0x06A5_E211, 0x2361_ED0A, 0x4C8F_FA80)
    case 10 => Md(0xB9C0_C733, 0x8D41_BF99, 0x23A9_451B, 0xF1E6_DC7A)
    case 11 => Md(0xA3E8_8EAD, 0x90A3_5AF5, 0x66F6_468D, 0x02C0_B11C)
    case 12 => Md(0xB5D4_1F9C, 0x71D1_0367, 0x703D_54D8, 0xA04B_4904)
    case 13 => Md(0xFC32_DD6E, 0x33ED_B197, 0xB356_02CB, 0x6545_6B34)
    case 14 => Md(0xC1E9_42F1, 0x8387_7D1B, 0x23A6_8048, 0xD9BB_987C)
    case 15 => Md(0x0077_C208, 0x5E6B_C930, 0xA3E2_247F, 0x847F_C2E7)
    case _ => Md(0x708E_D9C2, 0x1116_E6D8, 0xD38F_1E7F, 0x2BAF_1354)
  }

  lemma Values1()
    ensures FF(0x6745_2301, 0xEFCD_AB89, 0x98BA_DCFE, 0x1032_5476, 0x6463_6261, 7, 0xD76A_A478) == 0xD6D1_17A6
    ensures FF(0x1032_5476, 0xD6D1_17A6, 0xEFCD_AB89, 0x98BA_DCFE, 0x6867_6665, 12, 0xE8C7_B756) == 0xAAB1_AAAA
    ensures FF(0x98BA_DCFE, 0xAAB1_AAAA, 0xD6D1_17A6, 0xEFCD_AB89, 0x6C6B_6A69, 17, 0x2420_70DB) == 0x227D_8CF1
    ensures FF(0xEFCD_AB89, 0x227D_8CF1, 0xAAB1_AAAA, 0xD6D1_17A6, 0x706F_6E6D, 22, 0xC1BD_CEEE) == 0x4503_B812
    ensures FF(0xD6D1_17A6, 0x4503_B812, 0x227D_8CF1, 0xAAB1_AAAA, 0x7473_7271, 7, 0xF57C_0FAF) == 0xFE15_F787
    ensures FF(0xAAB1_AAAA, 0xFE15_F787, 0x4503_B812, 0x227D_8CF1, 0x7877_7675, 12, 0x4787_C62A) == 0xA811_B278
    ensures FF(0x227D_8CF1, 0xA811_B278, 0xFE15_F787, 0x4503_B812, 0x0080_7A79, 17, 0xA830_4613) == 0xB711_22FC
    ensures FF(0x4503_B812, 0xB711_22FC, 0xA811_B278, 0xFE15_F787, 0x0000_0000, 22, 0xFD46_9501) == 0xDA9B_BB0D
    ensures FF(0xFE15_F787, 0xDA9B_BB0D, 0xB711_22FC, 0xA811_B278, 0x0000_0000, 7, 0x6980_98D8) == 0xAE75_2899
    ensures FF(0xA811_B278, 0xAE75_2899, 0xDA9B_BB0D, 0xB711_22FC, 0x0000_0000, 12, 0x8B44_F7AF) == 0x2BBE_757F
    ensures FF(0xB711_22FC, 0x2BBE_757F, 0xAE75_2899, 0xDA9B_BB0D, 0x0000_0000, 17, 0xFFFF_5BB1) == 0x7D4B_D80B
    ensures FF(0xDA9B_BB0D, 0x7D4B_D80B, 0x2BBE_757F, 0xAE75_2899, 0x0000_0000, 22, 0x895C_D7BE) == 0x56CF_A5CB
    ensures FF(0xAE75_2899, 0x56CF_A5CB, 0x7D4B_D80B, 0x2BBE_757F, 0x0000_0000, 7, 0x6B90_1122) == 0x1754_A316
    ensures FF(0x2BBE_757F, 0x1754_A316, 0x56CF_A5CB, 0x7D4B_D80B, 0x0000_0000, 12, 0xFD98_7193) == 0x8556_7D90
    ensures FF(0x7D4B_D80B, 0x8556_7D90, 0x1754_A316, 0x56CF_A5CB, 0x0000_00D0, 17, 0xA679_438E) == 0x00DF_74D5
    ensures FF(0x56CF_A5CB, 0x00DF_74D5, 0x8556_7D90, 0x1754_A316, 0x0000_0000, 22, 0x49B4_0821) == 0x608D_6B7E
  {
  }

  lemma Values2()
    ensures GG(0x1754_A316, 0x608D_6B7E, 0x00DF_74D5, 0x8556_7D90, 0x6867_6665, 5, 0xF61E_2562) == 0x2D80_71CC
    ensures GG(0x8556_7D90, 0x2D80_71CC, 0x608D_6B7E, 0x00DF_74D5, 0x0080_7A79, 9, 0xC040_B340) == 0x5DCE_E119
    ensures GG(0x00DF_74D5, 0x5DCE_E119, 0x2D80_71CC, 0x608D_6B7E, 0x0000_0000, 14, 0x265E_5A51) == 0xEDFE_7E4B
    ensures GG(0x608D_6B7E, 0xEDFE_7E4B, 0x5DCE_E119, 0x2D80_71CC, 0x6463_6261, 20, 0xE9B6_C7AA) == 0x4C21_45B3
    ensures GG(0x2D80_71CC, 0x4C21_45B3, 0xEDFE_7E4B, 0x5DCE_E119, 0x7877_7675, 5, 0xD62F_105D) == 0x570C_43E0
    ensures GG(0x5DCE_E119, 0x570C_43E0, 0x4C21_45B3, 0xEDFE_7E4B, 0x0000_0000, 9, 0x0244_1453) == 0x977E_FD2A
    ensures GG(0xEDFE_7E4B, 0x977E_FD2A, 0x570C_43E0, 0x4C21_45B3, 0x0000_0000, 14, 0xD8A1_E681) == 0xC28A_B49D
    ensures GG(0x4C21_45B3, 0xC28A_B49D, 0x977E_FD2A, 0x570C_43E0, 0x7473_7271, 20, 0xE7D3_FBC8) == 0xC9F1_62D4
    ensures GG(0x570C_43E0, 0xC9F1_62D4, 0xC28A_B49D, 0x977E_FD2A, 0x0000_0000, 5, 0x21E1_CDE6) == 0x25BF_AE3B
    ensures GG(0x977E_FD2A, 0x25BF_AE3B, 0xC9F1_62D4, 0xC28A_B49D, 0x0000_00D0, 9, 0xC337_07D6) == 0x8998_0104
    ensures GG(0xC28A_B49D, 0x8998_0104, 0x25BF_AE3B, 0xC9F1_62D4, 0x706F_6E6D, 14, 0xF4D5_0D87) == 0xF8C8_365F
    ensures GG(0xC9F1_62D4, 0xF8C8_365F, 0x8998_0104, 0x25BF_AE3B, 0x0000_0000, 20, 0x455A_14ED) == 0xE6D3_B398
    ensures GG(0x25BF_AE3B, 0xE6D3_B398, 0xF8C8_365F, 0x8998_0104, 0x0000_0000, 5, 0xA9E3_E905) == 0xF54D_8710
    ensures GG(0x8998_0104, 0xF54D_8710, 0xE6D3_B398, 0xF8C8_365F, 0x6C6B_6A69, 9, 0xFCEF_A3F8) == 0x927B_72E2
    ensures GG(0xF8C8_365F, 0x927B_72E2, 0xF54D_8710, 0xE6D3_B398, 0x0000_0000, 14, 0x676F_02D9) == 0x2E69_AFC7
    ensures GG(0xE6D3_B398, 0x2E69_AFC7, 0x927B_72E2, 0xF54D_8710, 0x0000_0000, 20, 0x8D2A_4C8A) == 0xAEB3_5766
  {
  }

  lemma Values3()
    ensures HH(0xF54D_8710, 0xAEB3_5766, 0x2E69_AFC7, 0x927B_72E2, 0x7877_7675, 4, 0xFFFA_3942) == 0xB4BF_680E
    ensures HH(0x927B_72E2, 0xB4BF_680E, 0xAEB3_5766, 0x2E69_AFC7, 0x0000_0000, 11, 0x8771_F681) == 0x4C8F_FA80
    ensures HH(0x2E69_AFC7, 0x4C8F_FA80, 0xB4BF_680E, 0xAEB3_5766, 0x0000_0000, 16, 0x6D9D_6122) == 0x2361_ED0A
    ensures HH(0xAEB3_5766, 0x2361_ED0A, 0x4C8F_FA80, 0xB4BF_680E, 0x0000_00D0, 23, 0xFDE5_380C) == 0x06A5_E211
    ensures HH(0xB4BF_680E, 0x06A5_E211, 0x2361_ED0A, 0x4C8F_FA80, 0x6867_6665, 4, 0xA4BE_EA44) == 0xB9C0_C733
    ensures HH(0x4C8F_FA80, 0xB9C0_C733, 0x06A5_E211, 0x2361_ED0A, 0x7473_7271, 11, 0x4BDE_CFA9) == 0xF1E6_DC7A
    ensures HH(0x2361_ED0A, 0xF1E6_DC7A, 0xB9C0_C733, 0x06A5_E211, 0x0000_0000, 16, 0xF6BB_4B60) == 0x23A9_451B
    ensures HH(0x06A5_E211, 0x23A9_451B, 0xF1E6_DC7A, 0xB9C0_C733, 0x0000_0000, 23, 0xBEBF_BC70) == 0x8D41_BF99
    ensures HH(0xB9C0_C733, 0x8D41_BF99, 0x23A9_451B, 0xF1E6_DC7A, 0x0000_0000, 4, 0x289B_7EC6) == 0xA3E8_8EAD
    ensures HH(0xF1E6_DC7A, 0xA3E8_8EAD, 0x8D41_BF99, 0x23A9_451B, 0x6463_6261, 11, 0xEAA1_27FA) == 0x02C0_B11C
    ensures HH(0x23A9_451B, 0x02C0_B11C, 0xA3E8_8EAD, 0x8D41_BF99, 0x706F_6E6D, 16, 0xD4EF_3085) == 0x66F6_468D
    ensures HH(0x8D41_BF99, 0x66F6_468D, 0x02C0_B11C, 0xA3E8_8EAD, 0x0080_7A79, 23, 0x0488_1D05) == 0x90A3_5AF5
    ensures HH(0xA3E8_8EAD, 0x90A3_5AF5, 0x66F6_468D, 0x02C0_B11C, 0x0000_0000, 4, 0xD9D4_D039) == 0xB5D4_1F9C
    ensures HH(0x02C0_B11C, 0xB5D4_1F9C, 0x90A3_5AF5, 0x66F6_468D, 0x0000_0000, 11, 0xE6DB_99E5) == 0xA04B_4904
    ensures HH(0x66F6_468D, 0xA04B_4904, 0xB5D4_1F9C, 0x90A3_5AF5, 0x0000_0000, 16, 0x1FA2_7CF8) == 0x703D_54D8
    ensures HH(0x90A3_5AF5, 0x703D_54D8, 0xA04B_4904, 0xB5D4_1F9C, 0x6C6B_6A69, 23, 0xC4AC_5665) == 0x71D1_0367
  {
  }

  lemma Values4()
    ensures II(0xB5D4_1F9C, 0x71D1_0367, 0x703D_54D8, 0xA04B_4904, 0x6463_6261, 6, 0xF429_2244) == 0xFC32_DD6E
    ensures II(0xA04B_4904, 0xFC32_DD6E, 0x71D1_0367, 0x703D_54D8, 0x0000_0000, 10, 0x432A_FF97) == 0x6545_6B34
    ensures II(0x703D_54D8, 0x6545_6B34, 0xFC32_DD6E, 0x71D1_0367, 0x0000_00D0, 15, 0xAB94_23A7) == 0xB356_02CB
    ensures II(0x71D1_0367, 0xB356_02CB, 0x6545_6B34, 0xFC32_DD6E, 0x7877_7675, 21, 0xFC93_A039) == 0x33ED_B197
    ensures II(0xFC32_DD6E, 0x33ED_B197, 0xB356_02CB, 0x6545_6B34, 0x0000_0000, 6, 0x655B_59C3) == 0xC1E9_42F1
    ensures II(0x6545_6B34, 0xC1E9_42F1, 0x33ED_B197, 0xB356_02CB, 0x706F_6E6D, 10, 0x8F0C_CC92) == 0xD9BB_987C
    ensures II(0xB356_02CB, 0xD9BB_987C, 0xC1E9_42F1, 0x33ED_B197, 0x0000_0000, 15, 0xFFEF_F47D) == 0x23A6_8048
    ensures II(0x33ED_B197, 0x23A6_8048, 0xD9BB_987C, 0xC1E9_42F1, 0x6867_6665, 21, 0x8584_5DD1) == 0x8387_7D1B
    ensures II(0xC1E9_42F1, 0x8387_7D1B, 0x23A6_8048, 0xD9BB_987C, 0x0000_0000, 6, 0x6FA8_7E4F) == 0x0077_C208
    ensures II(0xD9BB_987C, 0x0077_C208, 0x8387_7D1B, 0x23A6_8048, 0x0000_0000, 10, 0xFE2C_E6E0) == 0x847F_C2E7
    ensures II(0x23A6_8048, 0x847F_C2E7, 0x0077_C208, 0x8387_7D1B, 0x0080_7A79, 15, 0xA301_4314) == 0xA3E2_247F
    ensures II(0x8387_7D1B, 0xA3E2_247F, 0x847F_C2E7, 0x0077_C208, 0x0000_0000, 21, 0x4E08_11A1) == 0x5E6B_C930
    ensures II(0x0077_C208, 0x5E6B_C930, 0xA3E2_247F, 0x847F_C2E7, 0x7473_7271, 6, 0xF753_7E82) == 0x708E_D9C2
    ensures II(0x847F_C2E7, 0x708E_D9C2, 0x5E6B_C930, 0xA3E2_247F, 0x0000_0000, 10, 0xBD3A_F235) == 0x2BAF_1354
    ensures II(0xA3E2_247F, 0x2BAF_1354, 0x708E_D9C2, 0x5E6B_C930, 0x6C6B_6A69, 15, 0x2AD7_D2BB) == 0xD38F_1E7F
    ensures II(0x5E6B_C930, 0xD38F_1E7F, 0x2BAF_1354, 0x708E_D9C2, 0x0000_0000, 21, 0xEB86_D391) == 0x1116_E6D8
  {
  }

  lemma Steps1(x: seq<bv32>, n: nat)
    requires x == X && 0 <= n < 4
    ensures Run(After(n), x, 4 * n, 4) == After(n + 1)
  {
    hide FF, GG, HH, II, Run, T, Index, Shift;
    Schedule1();
    Values1();
    match n {
      case 0 => Quad1(After(0), x, 0, 0xD6D1_17A6, 0x4503_B812, 0x227D_8CF1, 0xAAB1_AAAA);
      case 1 => Quad1(After(1), x, 4, 0xFE15_F787, 0xDA9B_BB0D, 0xB711_22FC, 0xA811_B278);
      case 2 => Quad1(After(2), x, 8, 0xAE75_2899, 0x56CF_A5CB, 0x7D4B_D80B, 0x2BBE_757F);
      case _ => Quad1(After(3), x, 12, 0x1754_A316, 0x608D_6B7E, 0x00DF_74D5, 0x8556_7D90);
    }
  }

  lemma Steps2(x: seq<bv32>, n: nat)
    requires x == X && 4 <= n < 8
    ensures Run(After(n), x, 4 * n, 4) == After(n + 1)
  {
    hide FF, GG, HH, II, Run, T, Index, Shift;
    Schedule2();
    Values2();
    match n {
      case 4 => Quad2(After(4), x, 16, 0x2D80_71CC, 0x4C21_45B3, 0xEDFE_7E4B, 0x5DCE_E119);
      case 5 => Quad2(After(5), x, 20, 0x570C_43E0, 0xC9F1_62D4, 0xC28A_B49D, 0x977E_FD2A);
      case 6 => Quad2(After(6), x, 24, 0x25BF_AE3B, 0xE6D3_B398, 0xF8C8_365F, 0x8998_0104);
      case _ => Quad2(After(7), x, 28, 0xF54D_8710, 0xAEB3_5766, 0x2E69_AFC7, 0x927B_72E2);
    }
  }

  lemma Steps3(x: seq<bv32>, n: nat)
    requires x == X && 8 <= n < 12
    ensures Run(After(n), x, 4 * n, 4) == After(n + 1)
  {
    hide FF, GG, HH, II, Run, T, Index, Shift;
    Schedule3();
    Values3();
    match n {
      case 8 => Quad3(After(8), x, 32, 0xB4BF_680E, 0x06A5_E211, 0x2361_ED0A, 0x4C8F_FA80);
      case 9 => Quad3(After(9), x, 36, 0xB9C0_C733, 0x8D41_BF99, 0x23A9_451B, 0xF1E6_DC7A);
      case 10 => Quad3(After(10), x, 40, 0xA3E8_8EAD, 0x90A3_5AF5, 0x66F6_468D, 0x02C0_B11C);
      case _ => Quad3(After(11), x, 44, 0xB5D4_1F9C, 0x71D1_0367, 0x703D_54D8, 0xA04B_4904);
    }
  }

  lemma Steps4(x: seq<bv32>, n: nat)
    requires x == X && 12 <= n < 16
    ensures Run(After(n), x, 4 * n, 4) == After(n + 1)
  {
    hide FF, GG, HH, II, Run, T, Index, Shift;
    Schedule4();
    Values4();
    match n {
      case 12 => Quad4(After(12), x, 48, 0xFC32_DD6E, 0x33ED_B197, 0xB356_02CB, 0x6545_6B34);
      case 13 => Quad4(After(13), x, 52, 0xC1E9_42F1, 0x8387_7D1B, 0x23A6_8048, 0xD9BB_987C);
      case 14 => Quad4(After(14), x, 56, 0x0077_C208, 0x5E6B_C930, 0xA3E2_247F, 0x847F_C2E7);
      case _ => Quad4(After(15), x, 60, 0x708E_D9C2, 0x1116_E6D8, 0xD38F_1E7F, 0x2BAF_1354);
    }
  }

  lemma {:induction false} AllSteps(x: seq<bv32>, n: nat)
    requires x == X && n <= 16
    ensures Run(INITIAL, x, 0, 4 * n) == After(n)
  {
    hide Run, After;
    if n == 0 {
      Start(x);
    } else {
      AllSteps(x, n - 1);
      if n <= 4 {
        Steps1(x, n - 1);
      } else if n <= 8 {
        Steps2(x, n - 1);
      } else if n <= 12 {
        Steps3(x, n - 1);
      } else {
        Steps4(x, n - 1);
      }
      RunSplits(INITIAL, x, 0, 4 * (n - 1), 4);
    }
  }

  lemma Start(x: seq<bv32>)
    requires x == X
    ensures Run(INITIAL, x, 0, 0) == After(0)
  {
  }

  // ---------- the padded message

  lemma PaddedBytes(p: seq<bv8>)
    requires p == PaddedMessage(LETTERS)
    ensures |p| == 64 && p[..16] == FRONT && p[16..26] == BACK && p[26] == 0x80
    ensures (forall i :: 27 <= i < 56 ==> p[i] == 0) && p[56..60] == [0xD0, 0, 0, 0] && p[60..] == [0, 0, 0, 0]
  {
    hide PutWord;
    assert PutWord(Word32(208)) == [0xD0, 0, 0, 0] && PutWord(Word32(0)) == [0, 0, 0, 0] by { LengthBytes(); }
    assert PadCount(26) == 30;
  }

  lemma LengthBytes()
    ensures PutWord(Word32(208)) == [0xD0, 0, 0, 0] && PutWord(Word32(0)) == [0, 0, 0, 0]
  {
  }

  lemma Joined()
    ensures JoinBytes(0x61, 0x62, 0x63, 0x64) == 0x6463_6261
    ensures JoinBytes(0x65, 0x66, 0x67, 0x68) == 0x6867_6665
    ensures JoinBytes(0x69, 0x6A, 0x6B, 0x6C) == 0x6C6B_6A69
    ensures JoinBytes(0x6D, 0x6E, 0x6F, 0x70) == 0x706F_6E6D
    ensures JoinBytes(0x71, 0x72, 0x73, 0x74) == 0x7473_7271
    ensures JoinBytes(0x75, 0x76, 0x77, 0x78) == 0x7877_7675
    ensures JoinBytes(0x79, 0x7A, 0x80, 0x00) == 0x0080_7A79
    ensures JoinBytes(0x00, 0x00, 0x00, 0x00) == 0x0000_0000
    ensures JoinBytes(0xD0, 0x00, 0x00, 0x00) == 0x0000_00D0
  {
  }

  lemma FrontWords(p: seq<bv8>)
    requires |p| == 64 && p[..16] == FRONT
    ensures forall j :: 0 <= j < 4 ==> GetWord(p, 4 * j) == X[j]
  {
    Joined();
    hide JoinBytes;
    var front := p[..16];
    assert forall i {:trigger front[i]} :: 0 <= i < 16 ==> front[i] == p[i];
  }

  lemma BackWords(p: seq<bv8>)
    requires |p| == 64 && p[16..26] == BACK && p[26] == 0x80 && p[27] == 0
    ensures forall j :: 4 <= j < 7 ==> GetWord(p, 4 * j) == X[j]
  {
    Joined();
    hide JoinBytes;
    var back := p[16..26];
    assert forall i {:trigger back[i]} :: 0 <= i < 10 ==> back[i] == p[16 + i];
  }

  lemma ZeroWords(p: seq<bv8>)
    requires |p| == 64 && forall i :: 27 <= i < 56 ==> p[i] == 0
    ensures forall j :: 7 <= j < 14 ==> GetWord(p, 4 * j) == X[j]
  {
    Joined();
    hide JoinBytes;
    forall j | 7 <= j < 14 ensures GetWord(p, 4 * j) == X[j] {
      XAt(j);
    }
  }

  lemma LengthWords(p: seq<bv8>)
    requires |p| == 64 && p[56..60] == [0xD0, 0, 0, 0] && p[60..] == [0, 0, 0, 0]
    ensures forall j :: 14 <= j < 16 ==> GetWord(p, 4 * j) == X[j]
  {
    Joined();
    hide JoinBytes;
    var length, high := p[56..60], p[60..];
    assert forall i {:trigger length[i]} :: 0 <= i < 4 ==> length[i] == p[56 + i];
    assert forall i {:trigger high[i]} :: 0 <= i < 4 ==> high[i] == p[60 + i];
  }

  lemma XAt(j: nat)
    requires 7 <= j < 14
    ensures X[j] == 0
  {
  }

  lemma PaddedWords(p: seq<bv8>)
    requires p == PaddedMessage(LETTERS)
    ensures |p| == 64 && Words(p) == X
  {
    PaddedBytes(p);
    FrontWords(p);
    BackWords(p);
    ZeroWords(p);
    LengthWords(p);
    hide GetWord, PaddedMessage, X;
    assert forall j :: 0 <= j < 16 ==> Words(p)[j] == GetWord(p, 4 * j);
  }

  lemma LastBytes()
    ensures DigestOf(Md(0xD7D3_FCC3, 0x00E4_9261, 0x6C49_FB7D, 0x3BE1_67CA)) == DIGEST
  {
  }

  const DIGEST: seq<bv8> := [0xC3, 0xFC, 0xD3, 0xD7, 0x61, 0x92, 0xE4, 0x00, 0x7D, 0xFB, 0x49, 0x6C, 0xCA, 0x67, 0xE1, 0x3B]

  /** Section A.5 of RFC 1321: the digest of the letters a to z. */
  lemma LettersDigest()
    ensures Digest(LETTERS) == DIGEST
  {
    hide Run, Words, PaddedMessage, DigestOf;
    var p := PaddedMessage(LETTERS);
    PaddedWords(p);
    AllSteps(X, 16);
    LastBytes();
    assert p[..64] == p && p[64..] == [];
    assert Process(INITIAL, p) == Compress(INITIAL, p);
  }
}
