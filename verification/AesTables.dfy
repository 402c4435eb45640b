/** The AES tables: the finite field, the S-box and its inverse as FIPS 197 gives them, and the generator
    that fills the tables at the first key setup. */
module AesTables {
  import opened Bits

  // ---------- GF(2^8), section 4.2 of FIPS 197

  /** Multiplication by x. */
  function XTime(b: bv8): bv8 {
    (b << 1) ^ (if b & 0x80 != 0 then 0x1B else 0)
  }

  /** The product of two field elements, bit by bit of the second. */
  function GMul(a: bv8, b: bv8): bv8 {
    var a1 := XTime(a);
    var a2 := XTime(a1);
    var a3 := XTime(a2);
    var a4 := XTime(a3);
    var a5 := XTime(a4);
    var a6 := XTime(a5);
    var a7 := XTime(a6);
    (if b & 0x01 != 0 then a else 0) ^ (if b & 0x02 != 0 then a1 else 0)
    ^ (if b & 0x04 != 0 then a2 else 0) ^ (if b & 0x08 != 0 then a3 else 0)
    ^ (if b & 0x10 != 0 then a4 else 0) ^ (if b & 0x20 != 0 then a5 else 0)
    ^ (if b & 0x40 != 0 then a6 else 0) ^ (if b & 0x80 != 0 then a7 else 0)
  }

  // ---------- tables of 256 bytes: sixteen rows, the byte for column 0 first

  function Cell(row: bv128, n: bv8): bv8 {
    var half := (if n & 8 == 0 then row >> 64 else row & 0xFFFF_FFFF_FFFF_FFFF) as bv64;
    var quarter := (if n & 4 == 0 then half >> 32 else half & 0xFFFF_FFFF) as bv32;
    var pair := (if n & 2 == 0 then quarter >> 16 else quarter & 0xFFFF) as bv16;
    (if n & 1 == 0 then pair >> 8 else pair & 0xFF) as bv8
  }

  function SubRow(r: bv8): bv128 {
    if r < 8 then
      if r < 4 then
        if r < 2 then
          if r < 1 then
            0x63_7C_77_7B_F2_6B_6F_C5_30_01_67_2B_FE_D7_AB_76
          else
            0xCA_82_C9_7D_FA_59_47_F0_AD_D4_A2_AF_9C_A4_72_C0
        else
          if r < 3 then
            0xB7_FD_93_26_36_3F_F7_CC_34_A5_E5_F1_71_D8_31_15
          else
            0x04_C7_23_C3_18_96_05_9A_07_12_80_E2_EB_27_B2_75
      else
        if r < 6 then
          if r < 5 then
            0x09_83_2C_1A_1B_6E_5A_A0_52_3B_D6_B3_29_E3_2F_84
          else
            0x53_D1_00_ED_20_FC_B1_5B_6A_CB_BE_39_4A_4C_58_CF
        else
          if r < 7 then
            0xD0_EF_AA_FB_43_4D_33_85_45_F9_02_7F_50_3C_9F_A8
          else
            0x51_A3_40_8F_92_9D_38_F5_BC_B6_DA_21_10_FF_F3_D2
    else
      if r < 12 then
        if r < 10 then
          if r < 9 then
            0xCD_0C_13_EC_5F_97_44_17_C4_A7_7E_3D_64_5D_19_73
          else
            0x60_81_4F_DC_22_2A_90_88_46_EE_B8_14_DE_5E_0B_DB
        else
          if r < 11 then
            0xE0_32_3A_0A_49_06_24_5C_C2_D3_AC_62_91_95_E4_79
          else
            0xE7_C8_37_6D_8D_D5_4E_A9_6C_56_F4_EA_65_7A_AE_08
      else
        if r < 14 then
          if r < 13 then
            0xBA_78_25_2E_1C_A6_B4_C6_E8_DD_74_1F_4B_BD_8B_8A
          else
            0x70_3E_B5_66_48_03_F6_0E_61_35_57_B9_86_C1_1D_9E
        else
          if r < 15 then
            0xE1_F8_98_11_69_D9_8E_94_9B_1E_87_E9_CE_55_28_DF
          else
            0x8C_A1_89_0D_BF_E6_42_68_41_99_2D_0F_B0_54_BB_16
  }

  /** SubBytes, figure 7 of FIPS 197. */
  function Sub(i: bv8): bv8 {
    Cell(SubRow(i >> 4), i & 0xF)
  }

  function InvSubRow(r: bv8): bv128 {
    if r < 8 then
      if r < 4 then
        if r < 2 then
          if r < 1 then
            0x52_09_6A_D5_30_36_A5_38_BF_40_A3_9E_81_F3_D7_FB
          else
            0x7C_E3_39_82_9B_2F_FF_87_34_8E_43_44_C4_DE_E9_CB
        else
          if r < 3 then
            0x54_7B_94_32_A6_C2_23_3D_EE_4C_95_0B_42_FA_C3_4E
          else
            0x08_2E_A1_66_28_D9_24_B2_76_5B_A2_49_6D_8B_D1_25
      else
        if r < 6 then
          if r < 5 then
            0x72_F8_F6_64_86_68_98_16_D4_A4_5C_CC_5D_65_B6_92
          else
            0x6C_70_48_50_FD_ED_B9_DA_5E_15_46_57_A7_8D_9D_84
        else
          if r < 7 then
            0x90_D8_AB_00_8C_BC_D3_0A_F7_E4_58_05_B8_B3_45_06
          else
            0xD0_2C_1E_8F_CA_3F_0F_02_C1_AF_BD_03_01_13_8A_6B
    else
      if r < 12 then
        if r < 10 then
          if r < 9 then
            0x3A_91_11_41_4F_67_DC_EA_97_F2_CF_CE_F0_B4_E6_73
          else
            0x96_AC_74_22_E7_AD_35_85_E2_F9_37_E8_1C_75_DF_6E
        else
          if r < 11 then
            0x47_F1_1A_71_1D_29_C5_89_6F_B7_62_0E_AA_18_BE_1B
          else
            0xFC_56_3E_4B_C6_D2_79_20_9A_DB_C0_FE_78_CD_5A_F4
      else
        if r < 14 then
          if r < 13 then
            0x1F_DD_A8_33_88_07_C7_31_B1_12_10_59_27_80_EC_5F
          else
            0x60_51_7F_A9_19_B5_4A_0D_2D_E5_7A_9F_93_C9_9C_EF
        else
          if r < 15 then
            0xA0_E0_3B_4D_AE_2A_F5_B0_C8_EB_BB_3C_83_53_99_61
          else
            0x17_2B_04_7E_BA_77_D6_26_E1_69_14_63_55_21_0C_7D
  }

  /** InvSubBytes, figure 14 of FIPS 197. */
  function InvSub(i: bv8): bv8 {
    Cell(InvSubRow(i >> 4), i & 0xF)
  }

  function ExpRow(r: bv8): bv128 {
    if r < 8 then
      if r < 4 then
        if r < 2 then
          if r < 1 then
            0x01_03_05_0F_11_33_55_FF_1A_2E_72_96_A1_F8_13_35
          else
            0x5F_E1_38_48_D8_73_95_A4_F7_02_06_0A_1E_22_66_AA
        else
          if r < 3 then
            0xE5_34_5C_E4_37_59_EB_26_6A_BE_D9_70_90_AB_E6_31
          else
            0x53_F5_04_0C_14_3C_44_CC_4F_D1_68_B8_D3_6E_B2_CD
      else
        if r < 6 then
          if r < 5 then
            0x4C_D4_67_A9_E0_3B_4D_D7_62_A6_F1_08_18_28_78_88
          else
            0x83_9E_B9_D0_6B_BD_DC_7F_81_98_B3_CE_49_DB_76_9A
        else
          if r < 7 then
            0xB5_C4_57_F9_10_30_50_F0_0B_1D_27_69_BB_D6_61_A3
          else
            0xFE_19_2B_7D_87_92_AD_EC_2F_71_93_AE_E9_20_60_A0
    else
      if r < 12 then
        if r < 10 then
          if r < 9 then
            0xFB_16_3A_4E_D2_6D_B7_C2_5D_E7_32_56_FA_15_3F_41
          else
            0xC3_5E_E2_3D_47_C9_40_C0_5B_ED_2C_74_9C_BF_DA_75
        else
          if r < 11 then
            0x9F_BA_D5_64_AC_EF_2A_7E_82_9D_BC_DF_7A_8E_89_80
          else
            0x9B_B6_C1_58_E8_23_65_AF_EA_25_6F_B1_C8_43_C5_54
      else
        if r < 14 then
          if r < 13 then
            0xFC_1F_21_63_A5_F4_07_09_1B_2D_77_99_B0_CB_46_CA
          else
            0x45_CF_4A_DE_79_8B_86_91_A8_E3_3E_42_C6_51_F3_0E
        else
          if r < 15 then
            0x12_36_5A_EE_29_7B_8D_8C_8F_8A_85_94_A7_F2_0D_17
          else
            0x39_4B_DD_7C_84_97_A2_FD_1C_24_6C_B4_C7_52_F6_01
  }

  /** The powers of {03}; the last one is again 1. */
  function Exp(i: bv8): bv8 {
    Cell(ExpRow(i >> 4), i & 0xF)
  }

  function LogRow(r: bv8): bv128 {
    if r < 8 then
      if r < 4 then
        if r < 2 then
          if r < 1 then
            0x00_FF_19_01_32_02_1A_C6_4B_C7_1B_68_33_EE_DF_03
          else
            0x64_04_E0_0E_34_8D_81_EF_4C_71_08_C8_F8_69_1C_C1
        else
          if r < 3 then
            0x7D_C2_1D_B5_F9_B9_27_6A_4D_E4_A6_72_9A_C9_09_78
          else
            0x65_2F_8A_05_21_0F_E1_24_12_F0_82_45_35_93_DA_8E
      else
        if r < 6 then
          if r < 5 then
            0x96_8F_DB_BD_36_D0_CE_94_13_5C_D2_F1_40_46_83_38
          else
            0x66_DD_FD_30_BF_06_8B_62_B3_25_E2_98_22_88_91_10
        else
          if r < 7 then
            0x7E_6E_48_C3_A3_B6_1E_42_3A_6B_28_54_FA_85_3D_BA
          else
            0x2B_79_0A_15_9B_9F_5E_CA_4E_D4_AC_E5_F3_73_A7_57
    else
      if r < 12 then
        if r < 10 then
          if r < 9 then
            0xAF_58_A8_50_F4_EA_D6_74_4F_AE_E9_D5_E7_E6_AD_E8
          else
            0x2C_D7_75_7A_EB_16_0B_F5_59_CB_5F_B0_9C_A9_51_A0
        else
          if r < 11 then
            0x7F_0C_F6_6F_17_C4_49_EC_D8_43_1F_2D_A4_76_7B_B7
          else
            0xCC_BB_3E_5A_FB_60_B1_86_3B_52_A1_6C_AA_55_29_9D
      else
        if r < 14 then
          if r < 13 then
            0x97_B2_87_90_61_BE_DC_FC_BC_95_CF_CD_37_3F_5B_D1
          else
            0x53_39_84_3C_41_A2_6D_47_14_2A_9E_5D_56_F2_D3_AB
        else
          if r < 15 then
            0x44_11_92_D9_23_20_2E_89_B4_7C_B8_26_77_99_E3_A5
          else
            0x67_4A_ED_DE_C5_31_FE_18_0D_63_8C_80_C0_F7_70_07
  }

  /** The exponent, from 1 to 255, that gives a nonzero element. */
  function Log(i: bv8): bv8 {
    Cell(LogRow(i >> 4), i & 0xF)
  }

  lemma InvSubUndoesSub(b: bv8)
    ensures InvSub(Sub(b)) == b
  {
  }

  lemma SubUndoesInvSub(b: bv8)
    ensures Sub(InvSub(b)) == b
  {
  }

  lemma ExpStep(i: bv8)
    requires i < 255
    ensures Exp(i + 1) == Exp(i) ^ XTime(Exp(i))
  {
    hide Exp, XTime;
    if i < 0x40 {
      ExpStepFirstQuarter(i);
    } else if i < 0x80 {
      ExpStepSecondQuarter(i);
    } else if i < 0xC0 {
      ExpStepThirdQuarter(i);
    } else {
      ExpStepLastQuarter(i);
    }
  }

  lemma ExpStepFirstQuarter(i: bv8)
    requires i < 0x40
    ensures Exp(i + 1) == Exp(i) ^ XTime(Exp(i))
  {
  }

  lemma ExpStepSecondQuarter(i: bv8)
    requires 0x40 <= i < 0x80
    ensures Exp(i + 1) == Exp(i) ^ XTime(Exp(i))
  {
  }

  lemma ExpStepThirdQuarter(i: bv8)
    requires 0x80 <= i < 0xC0
    ensures Exp(i + 1) == Exp(i) ^ XTime(Exp(i))
  {
  }

  lemma ExpStepLastQuarter(i: bv8)
    requires 0xC0 <= i < 255
    ensures Exp(i + 1) == Exp(i) ^ XTime(Exp(i))
  {
  }

  lemma ExpOfLog(b: bv8)
    requires b != 0
    ensures Exp(Log(b)) == b && Log(b) != 0
  {
  }

  lemma LogOfExp(i: bv8)
    ensures Exp(i) != 0 && (i != 0 ==> Log(Exp(i)) == i)
  {
  }

  function RotateByte(b: bv8): bv8 {
    (b << 1) | (b >> 7)
  }

  /** The affine transformation of section 5.1.1 of FIPS 197. */
  function Affine(b: bv8): bv8 {
    var b1 := RotateByte(b);
    var b2 := RotateByte(b1);
    var b3 := RotateByte(b2);
    var b4 := RotateByte(b3);
    b ^ b1 ^ b2 ^ b3 ^ b4 ^ 0x63
  }

  /** The S-box is the affine image of the field inverse, 0 standing for its own inverse. */
  lemma SubIsAffineInverse(b: bv8)
    ensures b != 0 ==> Sub(b) == Affine(Exp(255 - Log(b)))
    ensures Sub(0) == Affine(0)
  {
    if b == 0 {
    } else if b < 0x40 {
      AffineFirstQuarter(b);
    } else if b < 0x80 {
      AffineSecondQuarter(b);
    } else if b < 0xC0 {
      AffineThirdQuarter(b);
    } else {
      AffineLastQuarter(b);
    }
    hide Exp, Log;
  }

  lemma AffineFirstQuarter(b: bv8)
    requires 0 < b < 0x40
    ensures Sub(b) == Affine(Exp(255 - Log(b)))
  {
  }

  lemma AffineSecondQuarter(b: bv8)
    requires 0x40 <= b < 0x80
    ensures Sub(b) == Affine(Exp(255 - Log(b)))
  {
  }

  lemma AffineThirdQuarter(b: bv8)
    requires 0x80 <= b < 0xC0
    ensures Sub(b) == Affine(Exp(255 - Log(b)))
  {
  }

  lemma AffineLastQuarter(b: bv8)
    requires 0xC0 <= b
    ensures Sub(b) == Affine(Exp(255 - Log(b)))
  {
  }

  // ---------- products by logarithms

  lemma XTimeAdds(a: bv8, b: bv8)
    ensures XTime(a ^ b) == XTime(a) ^ XTime(b)
  {
    if a & 0x80 != 0 {
      if b & 0x80 != 0 { assert (a ^ b) & 0x80 == 0; } else { assert (a ^ b) & 0x80 != 0; }
    } else {
      if b & 0x80 != 0 { assert (a ^ b) & 0x80 != 0; } else { assert (a ^ b) & 0x80 == 0; }
    }
  }

  /** {09}, {0b}, {0d} and {0e}, the coefficients of InvMixColumns. */
  predicate Coefficient(c: bv8) {
    c == 0x09 || c == 0x0B || c == 0x0D || c == 0x0E
  }

  lemma TimesThree(c: bv8, b: bv8)
    requires Coefficient(c)
    ensures GMul(b ^ XTime(b), c) == GMul(b, c) ^ XTime(GMul(b, c))
  {
    hide GMul, XTime;
    if c == 0x09 {
      NineTimesThree(b);
    } else if c == 0x0B {
      ElevenTimesThree(b);
    } else if c == 0x0D {
      ThirteenTimesThree(b);
    } else {
      FourteenTimesThree(b);
    }
  }

  lemma NineTimesThree(b: bv8)
    ensures GMul(b ^ XTime(b), 0x09) == GMul(b, 0x09) ^ XTime(GMul(b, 0x09))
  {
  }

  lemma ElevenTimesThree(b: bv8)
    ensures GMul(b ^ XTime(b), 0x0B) == GMul(b, 0x0B) ^ XTime(GMul(b, 0x0B))
  {
  }

  lemma ThirteenTimesThree(b: bv8)
    ensures GMul(b ^ XTime(b), 0x0D) == GMul(b, 0x0D) ^ XTime(GMul(b, 0x0D))
  {
  }

  lemma FourteenTimesThree(b: bv8)
    ensures GMul(b ^ XTime(b), 0x0E) == GMul(b, 0x0E) ^ XTime(GMul(b, 0x0E))
  {
  }

  /** 255 minus the logarithm is the logarithm of the field inverse. */
  lemma InverseByLogs(b: bv8)
    requires b != 0
    ensures GMul(b, Exp(255 - Log(b))) == 1
  {
    hide Exp, Log, GMul;
    if b < 0x20 {
      InverseIn00(b);
    } else if b < 0x40 {
      InverseIn20(b);
    } else if b < 0x60 {
      InverseIn40(b);
    } else if b < 0x80 {
      InverseIn60(b);
    } else if b < 0xA0 {
      InverseIn80(b);
    } else if b < 0xC0 {
      InverseInA0(b);
    } else if b < 0xE0 {
      InverseInC0(b);
    } else {
      InverseInE0(b);
    }
  }

  lemma InverseIn00(b: bv8)
    requires 0 < b < 0x20
    ensures GMul(b, Exp(255 - Log(b))) == 1
  {
  }

  lemma InverseIn20(b: bv8)
    requires 0x20 <= b < 0x40
    ensures GMul(b, Exp(255 - Log(b))) == 1
  {
  }

  lemma InverseIn40(b: bv8)
    requires 0x40 <= b < 0x60
    ensures GMul(b, Exp(255 - Log(b))) == 1
  {
  }

  lemma InverseIn60(b: bv8)
    requires 0x60 <= b < 0x80
    ensures GMul(b, Exp(255 - Log(b))) == 1
  {
  }

  lemma InverseIn80(b: bv8)
    requires 0x80 <= b < 0xA0
    ensures GMul(b, Exp(255 - Log(b))) == 1
  {
  }

  lemma InverseInA0(b: bv8)
    requires 0xA0 <= b < 0xC0
    ensures GMul(b, Exp(255 - Log(b))) == 1
  {
  }

  lemma InverseInC0(b: bv8)
    requires 0xC0 <= b < 0xE0
    ensures GMul(b, Exp(255 - Log(b))) == 1
  {
  }

  lemma InverseInE0(b: bv8)
    requires 0xE0 <= b
    ensures GMul(b, Exp(255 - Log(b))) == 1
  {
  }

  function Power(i: nat): bv8
    requires i < 256
  {
    Exp(ToByte(i))
  }

  lemma PowerOfLog(b: bv8)
    requires b != 0
    ensures Power(Log(b) as nat) == b && 1 <= Log(b) as nat <= 255
  {
    ExpOfLog(b);
    hide Exp, Log, ToByte;
    ToByteOf(Log(b));
    ZeroByte(Log(b));
  }

  lemma PowersOfZero()
    ensures Power(0) == 1 == Power(255)
  {
    assert Exp(255) == Exp(0) == 1;
    ZeroByte(0);
  }

  lemma NextPower(i: nat)
    requires i < 255
    ensures Power(i + 1) == Power(i) ^ XTime(Power(i))
  {
    hide Exp, ToByte, XTime;
    ToByteNext(i);
    ExpStep(ToByte(i));
  }

  lemma PowerStep(i: nat)
    requires i < 255
    ensures Power((i + 1) % 255) == Power(i) ^ XTime(Power(i)) == Power(i + 1)
  {
    hide Exp, ToByte, XTime, Power;
    NextPower(i);
    PowersOfZero();
    if i < 254 { assert (i + 1) % 255 == i + 1; } else { assert (i + 1) % 255 == 0; }
  }

  /** Adding exponents modulo 255 multiplies by a coefficient. */
  lemma {:induction false} TimesPower(l: nat, c: bv8, i: nat)
    requires 1 <= l < 255 && Coefficient(c) && Power(l) == c && i < 255
    ensures GMul(Power(i), c) == Power((l + i) % 255)
    decreases i
  {
    hide Exp, GMul, XTime, Power, Coefficient;
    PowersOfZero();
    if i == 0 {
      OneTimes(c);
    } else {
      TimesPower(l, c, i - 1);
      PowerStep(i - 1);
      TimesThree(c, Power(i - 1));
      PowerStep((l + i - 1) % 255);
      NextExponent(l + i - 1);
    }
  }

  lemma NextExponent(n: nat)
    ensures (n % 255 + 1) % 255 == (n + 1) % 255
  {
  }

  lemma OneTimes(c: bv8)
    ensures GMul(1, c) == c && GMul(0, c) == 0
  {
  }

  lemma CoefficientLog(c: bv8)
    requires Coefficient(c)
    ensures c != 0 && Log(c) < 255
  {
  }

  /** The generator's MUL: adding logarithms modulo 255 multiplies in the field. */
  lemma ProductByLogs(c: bv8, b: bv8)
    requires Coefficient(c) && b != 0
    ensures c != 0 && GMul(b, c) == Power((Log(c) as nat + Log(b) as nat) % 255)
  {
    CoefficientLog(c);
    hide Exp, Log, GMul, Power, Coefficient;
    PowerOfLog(c);
    PowerOfLog(b);
    PowersOfZero();
    var l, i := Log(c) as nat, Log(b) as nat;
    NotTop(Log(c));
    if i == 255 {
      TimesPower(l, c, 0);
      assert (l + 255) % 255 == l % 255;
    } else {
      TimesPower(l, c, i);
    }
  }

  lemma NotTop(b: bv8)
    requires b < 255
    ensures b as nat < 255
  {
  }

  lemma PowerDistinct(k: nat, i: nat)
    requires k < i < 256 && Power(k) == Power(i)
    ensures k == 0 && i == 255
  {
    LogOfExp(ToByte(k));
    LogOfExp(ToByte(i));
    hide Exp, Log, ToByte;
    ToByteValue(k);
    ToByteValue(i);
    ZeroByte(ToByte(k));
    ZeroByte(ToByte(i));
    if k == 0 {
      PowersOfZero();
      LogOfExp(ToByte(255));
    }
  }

  // ---------- the tables

  /** Four bytes as a little-endian word. */
  function Word(b0: bv8, b1: bv8, b2: bv8, b3: bv8): bv32 {
    (b0 as bv32) ^ (b1 as bv32 << 8) ^ (b2 as bv32 << 16) ^ (b3 as bv32 << 24)
  }

  /** MixColumns of a column whose first byte only is set: {02}, {01}, {01} and {03} times the byte. */
  function MixWord(b: bv8): bv32 {
    Word(XTime(b), b, b, XTime(b) ^ b)
  }

  /** InvMixColumns of a column whose first byte only is set: {0e}, {09}, {0d} and {0b} times the byte. */
  function InvMixWord(b: bv8): bv32 {
    Word(GMul(b, 0x0E), GMul(b, 0x09), GMul(b, 0x0D), GMul(b, 0x0B))
  }

  /** The round constants, section 5.2 of FIPS 197: the powers of {02}. */
  function RoundConstant(i: nat): bv8 {
    if i == 0 then 1 else XTime(RoundConstant(i - 1))
  }

  class Tables {
    const fsb: array<bv8>
    const ft0: array<bv32>
    const rsb: array<bv8>
    const rt0: array<bv32>
    const rcon: array<bv32>
    var initDone: bool

    constructor ()
      ensures Shaped() && !initDone
      ensures fresh(fsb) && fresh(ft0) && fresh(rsb) && fresh(rt0) && fresh(rcon)
    {
      fsb, ft0, rsb, rt0, rcon := new bv8[256], new bv32[256], new bv8[256], new bv32[256], new bv32[10];
      initDone := false;
    }

    ghost predicate Shaped() {
      && fsb.Length == ft0.Length == rsb.Length == rt0.Length == 256 && rcon.Length == 10
      && fsb != rsb && ft0 != rt0 && ft0 != rcon && rt0 != rcon
    }

    ghost function Arrays(): set<object> {
      {fsb as object, ft0, rsb, rt0, rcon}
    }

    /** The tables hold what FIPS 197 says they should. */
    ghost predicate Filled()
      requires Shaped()
      reads fsb, ft0, rsb, rt0, rcon
    {
      && (forall b: bv8 :: fsb[b as nat] == Sub(b))
      && (forall b: bv8 :: rsb[b as nat] == InvSub(b))
      && (forall b: bv8 :: ft0[b as nat] == MixWord(Sub(b)))
      && (forall b: bv8 :: rt0[b as nat] == InvMixWord(InvSub(b)))
      && (forall i :: 0 <= i < 10 ==> rcon[i] == RoundConstant(i) as bv32)
    }

    /** aes_gen_tables */
    method Generate()
      requires Shaped()
      modifies fsb, ft0, rsb, rt0, rcon
      ensures Filled()
    {
      hide Sub, InvSub, MixWord, InvMixWord, Power, ToByte, PowersIn;
      var pow, log := PowersAndLogs();
      RoundConstants();
      Boxes(pow, log);
      Words(pow, log);
      forall b: bv8 ensures fsb[b as nat] == Sub(b) && rsb[b as nat] == InvSub(b) { ToByteOf(b); }
      forall b: bv8 ensures ft0[b as nat] == MixWord(Sub(b)) && rt0[b as nat] == InvMixWord(InvSub(b)) { ToByteOf(b); }
    }

    ghost predicate BoxesFilled(n: nat)
      requires Shaped() && n <= 256
      reads fsb, rsb
    {
      forall k :: 0 <= k < n ==> fsb[k] == Sub(ToByte(k)) && rsb[k] == InvSub(ToByte(k))
    }

    static ghost predicate PowersIn(pow: array<bv8>, log: array<nat>)
      reads pow, log
    {
      && pow.Length == 256 && log.Length == 256
      && (forall i :: 0 <= i < 256 ==> pow[i] == Power(i))
      && (forall b: bv8 :: b != 0 ==> log[b as nat] == Log(b) as nat)
    }

    /** The logarithm written last for exponent `k` once the loop is at `i`: 0 and 255 share an element. */
    static ghost function LastLog(k: nat, i: nat): nat {
      if k == 0 && i == 256 then 255 else k
    }

    method PowersAndLogs() returns (pow: array<bv8>, log: array<nat>)
      ensures fresh(pow) && fresh(log) && PowersIn(pow, log)
    {
      hide Exp, Log, XTime, Power;
      pow, log := new bv8[256], new nat[256];
      PowersOfZero();
      var x: bv8 := 1;
      for i := 0 to 256
        invariant i < 256 ==> x == Power(i)
        invariant forall k :: 0 <= k < i ==> pow[k] == Power(k)
        invariant forall k :: 0 <= k < i ==> log[Power(k) as nat] == LastLog(k, i)
      {
        forall k | 0 <= k < i && Power(k) as nat == x as nat ensures k == 0 && i == 255 {
          SameByte(Power(k), x);
          PowerDistinct(k, i);
        }
        pow[i] := x;
        log[x as nat] := i;
        if i < 255 { PowerStep(i); }
        x := x ^ XTime(x);
      }
      forall b: bv8 | b != 0 ensures log[b as nat] == Log(b) as nat {
        PowerOfLog(b);
      }
    }

    method RoundConstants()
      requires Shaped()
      modifies rcon
      ensures forall i :: 0 <= i < 10 ==> rcon[i] == RoundConstant(i) as bv32
    {
      hide XTime;
      var x: bv8 := 1;
      for i := 0 to 10
        invariant x == RoundConstant(i)
        invariant forall k :: 0 <= k < i ==> rcon[k] == RoundConstant(k) as bv32
      {
        rcon[i] := x as bv32;
        x := XTime(x);
      }
    }

    method Boxes(pow: array<bv8>, log: array<nat>)
      requires Shaped() && PowersIn(pow, log) && Apart(pow, log)
      modifies fsb, rsb
      ensures BoxesFilled(256)
    {
      hide Sub, InvSub, ToByte, PowersIn, Target;
      BoxOfZero();
      fsb[0] := 0x63;
      rsb[0x63] := 0;
      for i := 1 to 256
        invariant forall k :: 0 <= k < i ==> fsb[k] == Sub(ToByte(k))
        invariant forall k :: 0 <= k < i ==> rsb[Target(k)] == ToByte(k)
        invariant PowersIn(pow, log)
      {
        var x := Box(pow, log, i);
        forall k | 0 <= k < i ensures Target(k) != Target(i) { SubDistinct(k, i); }
        fsb[i] := x;
        rsb[x as nat] := ToByte(i);
      }
      forall k | 0 <= k < 256 ensures rsb[k] == InvSub(ToByte(k)) {
        InverseEntry(k);
        assert rsb[Target(InvSub(ToByte(k)) as nat)] == InvSub(ToByte(k));
      }
    }

    /** Where the inverse entry for `k` goes. */
    static ghost function Target(k: nat): (r: nat)
      requires k < 256
      ensures r < 256
    {
      Sub(ToByte(k)) as nat
    }

    /** One S-box entry: the inverse by logarithms, then the affine steps. */
    static method Box(pow: array<bv8>, log: array<nat>, i: nat) returns (x: bv8)
      requires 1 <= i < 256 && PowersIn(pow, log)
      ensures x == Sub(ToByte(i)) && x as nat == Target(i)
    {
      hide Exp, Log, Sub, ToByte, Affine, Power;
      ghost var b := ToByte(i);
      ToByteValue(i);
      ZeroByte(b);
      PowerOfLog(b);
      InverseIndex(b);
      SubIsAffineInverse(b);
      x := pow[255 - log[i]];
      x := AffineSteps(x);
    }

    static method AffineSteps(inverse: bv8) returns (x: bv8)
      ensures x == Affine(inverse)
    {
      x := inverse;
      var y := x;
      y := RotateByte(y);
      x := x ^ y;
      y := RotateByte(y);
      x := x ^ y;
      y := RotateByte(y);
      x := x ^ y;
      y := RotateByte(y);
      x := x ^ y ^ 0x63;
    }

    method Words(pow: array<bv8>, log: array<nat>)
      requires Shaped() && PowersIn(pow, log) && Apart(pow, log) && BoxesFilled(256)
      modifies ft0, rt0
      ensures forall k :: 0 <= k < 256 ==> ft0[k] == MixWord(Sub(ToByte(k))) && rt0[k] == InvMixWord(InvSub(ToByte(k)))
    {
      hide Sub, InvSub, ToByte, MixWord, InvMixWord, PowersIn;
      for i := 0 to 256
        invariant forall k :: 0 <= k < i ==> ft0[k] == MixWord(Sub(ToByte(k))) && rt0[k] == InvMixWord(InvSub(ToByte(k)))
        invariant PowersIn(pow, log)
      {
        var f := ForwardWord(fsb[i]);
        ft0[i] := f;
        var r := ReverseWord(pow, log, rsb[i]);
        rt0[i] := r;
      }
    }

    static method ForwardWord(x: bv8) returns (w: bv32)
      ensures w == MixWord(x)
    {
      hide XTime, Word;
      var y := XTime(x);
      var z := y ^ x;
      w := Word(y, x, x, z);
    }

    static method ReverseWord(pow: array<bv8>, log: array<nat>, x: bv8) returns (w: bv32)
      requires PowersIn(pow, log)
      ensures w == InvMixWord(x)
    {
      hide PowersIn, GMul, Word;
      var e := Mul(pow, log, 0x0E, x);
      var n := Mul(pow, log, 0x09, x);
      var d := Mul(pow, log, 0x0D, x);
      var b := Mul(pow, log, 0x0B, x);
      w := Word(e, n, d, b);
    }

    ghost predicate Apart(pow: array<bv8>, log: array<nat>) {
      pow as object !in Arrays() && log as object !in Arrays()
    }

    /** The macro MUL. */
    static method Mul(pow: array<bv8>, log: array<nat>, x: bv8, y: bv8) returns (r: bv8)
      requires PowersIn(pow, log) && Coefficient(x)
      ensures r == GMul(y, x)
    {
      hide Exp, Log, GMul, Power;
      assert x != 0;
      if y != 0 {
        ProductByLogs(x, y);
        r := pow[(log[x as nat] + log[y as nat]) % 255];
      } else {
        OneTimes(x);
        r := 0;
      }
    }
  }

  lemma BoxOfZero()
    ensures Sub(ToByte(0)) == 0x63 && ToByte(0) == 0 && Tables.Target(0) == 0x63
  {
    ZeroByte(0);
    assert Sub(0) == 0x63;
    hide Sub;
  }

  lemma InverseIndex(b: bv8)
    requires b != 0
    ensures Log(b) as nat <= 255 && Power(255 - Log(b) as nat) == Exp(255 - Log(b))
  {
    hide Exp, Log, ToByte;
    Complement(Log(b));
  }

  lemma InverseEntry(k: nat)
    requires k < 256
    ensures var i := InvSub(ToByte(k)) as nat;
      i < 256 && ToByte(i) == InvSub(ToByte(k)) && Tables.Target(i) == k
  {
    hide Sub, InvSub, ToByte;
    ToByteValue(k);
    ToByteOf(InvSub(ToByte(k)));
    SubUndoesInvSub(ToByte(k));
  }

  lemma SubDistinct(k: nat, i: nat)
    requires k < i < 256
    ensures Tables.Target(k) != Tables.Target(i)
  {
    hide Sub, InvSub, ToByte;
    ToByteValue(k);
    ToByteValue(i);
    if Sub(ToByte(k)) as nat == Sub(ToByte(i)) as nat {
      SameByte(Sub(ToByte(k)), Sub(ToByte(i)));
      InvSubUndoesSub(ToByte(k));
      InvSubUndoesSub(ToByte(i));
    }
  }
}
