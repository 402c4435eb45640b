/** The table-driven CRC-32 and the bit-at-a-time CRC it stands for. */
module Crc32 {

  const POLY: bv32 := 0xEDB8_8320
  const START: bv32 := 0xFFFF_FFFF

  // ---------- words; proofs about messages use only the laws stated for these

  function Plus(x: bv32, y: bv32): bv32 {
    x ^ y
  }

  function Widen(b: bv8): bv32 {
    b as bv32
  }

  function Low(x: bv32): bv8 {
    (x & 0xFF) as bv8
  }

  function Drop(x: bv32): bv32 {
    x >> 8
  }

  // ---------- bit at a time, section 8 of RFC 1952: the register shifts right, low-order bits first

  function Half(x: bv32): bv32 {
    x >> 1
  }

  predicate LowBit(x: bv32) {
    x & 1 == 1
  }

  function Feedback(on: bool): bv32 {
    if on then POLY else 0
  }

  function BitStep(reg: bv32): bv32 {
    Plus(Half(reg), Feedback(LowBit(reg)))
  }

  function EightSteps(reg: bv32): bv32 {
    BitStep(BitStep(BitStep(BitStep(BitStep(BitStep(BitStep(BitStep(reg))))))))
  }

  /** One message bit enters the register. */
  function ShiftIn(reg: bv32, bit: bool): bv32 {
    BitStep(Plus(reg, if bit then 1 else 0))
  }

  /** The bits of a byte, low-order first. */
  function BitsOf(b: bv8): seq<bool> {
    [b & 1 != 0, b & 2 != 0, b & 4 != 0, b & 8 != 0, b & 16 != 0, b & 32 != 0, b & 64 != 0, b & 128 != 0]
  }

  function MessageBits(msg: seq<bv8>): seq<bool> {
    if msg == [] then [] else MessageBits(msg[..|msg| - 1]) + BitsOf(msg[|msg| - 1])
  }

  function ShiftAll(reg: bv32, bits: seq<bool>): bv32 {
    if bits == [] then reg else ShiftIn(ShiftAll(reg, bits[..|bits| - 1]), bits[|bits| - 1])
  }

  function Final(reg: bv32): bv32 {
    reg ^ 0xFFFF_FFFF
  }

  /** The CRC of a message, bit by bit. */
  function BitwiseCrc(msg: seq<bv8>): bv32 {
    Final(ShiftAll(START, MessageBits(msg)))
  }

  // ---------- the table, four entries to a row, the lowest index first

  function Row(r: bv8): bv128 {
    if r < 32 then
      if r < 16 then
        if r < 8 then
          if r < 4 then
            if r < 2 then
              if r < 1 then
                0x00000000_77073096_EE0E612C_990951BA
              else
                0x076DC419_706AF48F_E963A535_9E6495A3
            else
              if r < 3 then
                0x0EDB8832_79DCB8A4_E0D5E91E_97D2D988
              else
                0x09B64C2B_7EB17CBD_E7B82D07_90BF1D91
          else
            if r < 6 then
              if r < 5 then
                0x1DB71064_6AB020F2_F3B97148_84BE41DE
              else
                0x1ADAD47D_6DDDE4EB_F4D4B551_83D385C7
            else
              if r < 7 then
                0x136C9856_646BA8C0_FD62F97A_8A65C9EC
              else
                0x14015C4F_63066CD9_FA0F3D63_8D080DF5
        else
          if r < 12 then
            if r < 10 then
              if r < 9 then
                0x3B6E20C8_4C69105E_D56041E4_A2677172
              else
                0x3C03E4D1_4B04D447_D20D85FD_A50AB56B
            else
              if r < 11 then
                0x35B5A8FA_42B2986C_DBBBC9D6_ACBCF940
              else
                0x32D86CE3_45DF5C75_DCD60DCF_ABD13D59
          else
            if r < 14 then
              if r < 13 then
                0x26D930AC_51DE003A_C8D75180_BFD06116
              else
                0x21B4F4B5_56B3C423_CFBA9599_B8BDA50F
            else
              if r < 15 then
                0x2802B89E_5F058808_C60CD9B2_B10BE924
              else
                0x2F6F7C87_58684C11_C1611DAB_B6662D3D
      else
        if r < 24 then
          if r < 20 then
            if r < 18 then
              if r < 17 then
                0x76DC4190_01DB7106_98D220BC_EFD5102A
              else
                0x71B18589_06B6B51F_9FBFE4A5_E8B8D433
            else
              if r < 19 then
                0x7807C9A2_0F00F934_9609A88E_E10E9818
              else
                0x7F6A0DBB_086D3D2D_91646C97_E6635C01
          else
            if r < 22 then
              if r < 21 then
                0x6B6B51F4_1C6C6162_856530D8_F262004E
              else
                0x6C0695ED_1B01A57B_8208F4C1_F50FC457
            else
              if r < 23 then
                0x65B0D9C6_12B7E950_8BBEB8EA_FCB9887C
              else
                0x62DD1DDF_15DA2D49_8CD37CF3_FBD44C65
        else
          if r < 28 then
            if r < 26 then
              if r < 25 then
                0x4DB26158_3AB551CE_A3BC0074_D4BB30E2
              else
                0x4ADFA541_3DD895D7_A4D1C46D_D3D6F4FB
            else
              if r < 27 then
                0x4369E96A_346ED9FC_AD678846_DA60B8D0
              else
                0x44042D73_33031DE5_AA0A4C5F_DD0D7CC9
          else
            if r < 30 then
              if r < 29 then
                0x5005713C_270241AA_BE0B1010_C90C2086
              else
                0x5768B525_206F85B3_B966D409_CE61E49F
            else
              if r < 31 then
                0x5EDEF90E_29D9C998_B0D09822_C7D7A8B4
              else
                0x59B33D17_2EB40D81_B7BD5C3B_C0BA6CAD
    else
      if r < 48 then
        if r < 40 then
          if r < 36 then
            if r < 34 then
              if r < 33 then
                0xEDB88320_9ABFB3B6_03B6E20C_74B1D29A
              else
                0xEAD54739_9DD277AF_04DB2615_73DC1683
            else
              if r < 35 then
                0xE3630B12_94643B84_0D6D6A3E_7A6A5AA8
              else
                0xE40ECF0B_9309FF9D_0A00AE27_7D079EB1
          else
            if r < 38 then
              if r < 37 then
                0xF00F9344_8708A3D2_1E01F268_6906C2FE
              else
                0xF762575D_806567CB_196C3671_6E6B06E7
            else
              if r < 39 then
                0xFED41B76_89D32BE0_10DA7A5A_67DD4ACC
              else
                0xF9B9DF6F_8EBEEFF9_17B7BE43_60B08ED5
        else
          if r < 44 then
            if r < 42 then
              if r < 41 then
                0xD6D6A3E8_A1D1937E_38D8C2C4_4FDFF252
              else
                0xD1BB67F1_A6BC5767_3FB506DD_48B2364B
            else
              if r < 43 then
                0xD80D2BDA_AF0A1B4C_36034AF6_41047A60
              else
                0xDF60EFC3_A867DF55_316E8EEF_4669BE79
          else
            if r < 46 then
              if r < 45 then
                0xCB61B38C_BC66831A_256FD2A0_5268E236
              else
                0xCC0C7795_BB0B4703_220216B9_5505262F
            else
              if r < 47 then
                0xC5BA3BBE_B2BD0B28_2BB45A92_5CB36A04
              else
                0xC2D7FFA7_B5D0CF31_2CD99E8B_5BDEAE1D
      else
        if r < 56 then
          if r < 52 then
            if r < 50 then
              if r < 49 then
                0x9B64C2B0_EC63F226_756AA39C_026D930A
              else
                0x9C0906A9_EB0E363F_72076785_05005713
            else
              if r < 51 then
                0x95BF4A82_E2B87A14_7BB12BAE_0CB61B38
              else
                0x92D28E9B_E5D5BE0D_7CDCEFB7_0BDBDF21
          else
            if r < 54 then
              if r < 53 then
                0x86D3D2D4_F1D4E242_68DDB3F8_1FDA836E
              else
                0x81BE16CD_F6B9265B_6FB077E1_18B74777
            else
              if r < 55 then
                0x88085AE6_FF0F6A70_66063BCA_11010B5C
              else
                0x8F659EFF_F862AE69_616BFFD3_166CCF45
        else
          if r < 60 then
            if r < 58 then
              if r < 57 then
                0xA00AE278_D70DD2EE_4E048354_3903B3C2
              else
                0xA7672661_D06016F7_4969474D_3E6E77DB
            else
              if r < 59 then
                0xAED16A4A_D9D65ADC_40DF0B66_37D83BF0
              else
                0xA9BCAE53_DEBB9EC5_47B2CF7F_30B5FFE9
          else
            if r < 62 then
              if r < 61 then
                0xBDBDF21C_CABAC28A_53B39330_24B4A3A6
              else
                0xBAD03605_CDD70693_54DE5729_23D967BF
            else
              if r < 63 then
                0xB3667A2E_C4614AB8_5D681B02_2A6F2B94
              else
                0xB40BBE37_C30C8EA1_5A05DF1B_2D02EF8D
  }

  function Entry(row: bv128, n: bv8): bv32 {
    var half := (if n & 2 == 0 then row >> 64 else row & 0xFFFF_FFFF_FFFF_FFFF) as bv64;
    (if n & 1 == 0 then half >> 32 else half & 0xFFFF_FFFF) as bv32
  }

  /** crc_tab32 */
  function Table(i: bv8): bv32 {
    Entry(Row(i >> 2), i)
  }

  lemma TableIsEightSteps(i: bv8)
    ensures Table(i) == EightSteps(Widen(i))
  {
    hide Table, EightSteps;
    if i < 0x40 {
      FirstQuarter(i);
    } else if i < 0x80 {
      SecondQuarter(i);
    } else if i < 0xC0 {
      ThirdQuarter(i);
    } else {
      LastQuarter(i);
    }
  }

  lemma FirstQuarter(i: bv8)
    requires i < 0x40
    ensures Table(i) == EightSteps(Widen(i))
  {
  }

  lemma SecondQuarter(i: bv8)
    requires 0x40 <= i < 0x80
    ensures Table(i) == EightSteps(Widen(i))
  {
  }

  lemma ThirdQuarter(i: bv8)
    requires 0x80 <= i < 0xC0
    ensures Table(i) == EightSteps(Widen(i))
  {
  }

  lemma LastQuarter(i: bv8)
    requires 0xC0 <= i
    ensures Table(i) == EightSteps(Widen(i))
  {
  }

  // ---------- bytes at a time

  /** update_crc_32 */
  function UpdateCrc32(crc: bv32, c: bv8): bv32 {
    Plus(Drop(crc), Table(Low(Plus(crc, Widen(c)))))
  }

  // ---------- a step is linear, and shifts words whose low bit is clear

  lemma PlusCommutes(x: bv32, y: bv32)
    ensures Plus(x, y) == Plus(y, x)
  {
  }

  lemma PlusAssociates(x: bv32, y: bv32, z: bv32)
    ensures Plus(x, Plus(y, z)) == Plus(Plus(x, y), z)
  {
  }

  lemma PlusSwaps(a: bv32, b: bv32, p: bv32, q: bv32)
    ensures Plus(Plus(a, b), Plus(p, q)) == Plus(Plus(a, p), Plus(b, q))
  {
    hide Plus;
    PlusAssociates(Plus(a, b), p, q);
    PlusAssociates(a, b, p);
    PlusCommutes(b, p);
    PlusAssociates(a, p, b);
    PlusAssociates(Plus(a, p), b, q);
  }

  lemma LowBitAdds(x: bv32, y: bv32)
    ensures LowBit(Plus(x, y)) <==> (LowBit(x) != LowBit(y))
  {
  }

  lemma HalfAdds(x: bv32, y: bv32)
    ensures Half(Plus(x, y)) == Plus(Half(x), Half(y))
  {
  }

  lemma FeedbackAdds(a: bool, b: bool)
    ensures Feedback(a != b) == Plus(Feedback(a), Feedback(b))
  {
  }

  lemma StepAdds(x: bv32, y: bv32)
    ensures BitStep(Plus(x, y)) == Plus(BitStep(x), BitStep(y))
  {
    hide Plus, Half, Feedback, LowBit;
    LowBitAdds(x, y);
    HalfAdds(x, y);
    FeedbackAdds(LowBit(x), LowBit(y));
    PlusSwaps(Half(x), Half(y), Feedback(LowBit(x)), Feedback(LowBit(y)));
  }

  lemma EvenStep(x: bv32)
    requires !LowBit(x)
    ensures BitStep(x) == Half(x)
  {
  }

  lemma EightStepsAdd(x: bv32, y: bv32)
    ensures EightSteps(Plus(x, y)) == Plus(EightSteps(x), EightSteps(y))
  {
    hide BitStep, Plus;
    var x1, y1 := BitStep(x), BitStep(y);
    var x2, y2 := BitStep(x1), BitStep(y1);
    var x3, y3 := BitStep(x2), BitStep(y2);
    var x4, y4 := BitStep(x3), BitStep(y3);
    var x5, y5 := BitStep(x4), BitStep(y4);
    var x6, y6 := BitStep(x5), BitStep(y5);
    var x7, y7 := BitStep(x6), BitStep(y6);
    StepAdds(x, y);
    StepAdds(x1, y1);
    StepAdds(x2, y2);
    StepAdds(x3, y3);
    StepAdds(x4, y4);
    StepAdds(x5, y5);
    StepAdds(x6, y6);
    StepAdds(x7, y7);
  }

  /** The upper three bytes of a word. */
  function High(x: bv32): bv32 {
    (x >> 8) << 8
  }

  lemma WordParts(x: bv32)
    ensures x == Plus(High(x), Widen(Low(x)))
  {
  }

  lemma EightHalves(x: bv32)
    ensures Half(Half(Half(Half(Half(Half(Half(Half(High(x))))))))) == Drop(x)
    ensures !LowBit(High(x))
    ensures !LowBit(Half(High(x)))
    ensures !LowBit(Half(Half(High(x))))
    ensures !LowBit(Half(Half(Half(High(x)))))
    ensures !LowBit(Half(Half(Half(Half(High(x))))))
    ensures !LowBit(Half(Half(Half(Half(Half(High(x)))))))
    ensures !LowBit(Half(Half(Half(Half(Half(Half(High(x))))))))
    ensures !LowBit(Half(Half(Half(Half(Half(Half(Half(High(x)))))))))
  {
  }

  lemma HighIsShifted(x: bv32)
    ensures EightSteps(High(x)) == Drop(x)
  {
    hide BitStep, Half, High, LowBit, Drop;
    EightHalves(x);
    var h := High(x);
    EvenStep(h);
    EvenStep(Half(h));
    EvenStep(Half(Half(h)));
    EvenStep(Half(Half(Half(h))));
    EvenStep(Half(Half(Half(Half(h)))));
    EvenStep(Half(Half(Half(Half(Half(h))))));
    EvenStep(Half(Half(Half(Half(Half(Half(h)))))));
    EvenStep(Half(Half(Half(Half(Half(Half(Half(h))))))));
  }

  lemma ShiftedOut(x: bv32)
    ensures EightSteps(x) == Plus(Drop(x), EightSteps(Widen(Low(x))))
  {
    hide EightSteps, Plus, Drop, High, Widen, Low;
    WordParts(x);
    EightStepsAdd(High(x), Widen(Low(x)));
    HighIsShifted(x);
  }

  lemma HighBytesStay(crc: bv32, c: bv8)
    ensures Drop(Plus(crc, Widen(c))) == Drop(crc)
  {
  }

  /** The table step is eight steps of the polynomial, for every register and byte. */
  lemma TableStep(crc: bv32, c: bv8)
    ensures UpdateCrc32(crc, c) == EightSteps(Plus(crc, Widen(c)))
  {
    hide Table, EightSteps, Plus, Drop, Low, Widen;
    var x := Plus(crc, Widen(c));
    TableIsEightSteps(Low(x));
    ShiftedOut(x);
    HighBytesStay(crc, c);
  }

  /** The fold of update_crc_32 over a message. */
  function Fold(reg: bv32, msg: seq<bv8>): bv32 {
    if msg == [] then reg else UpdateCrc32(Fold(reg, msg[..|msg| - 1]), msg[|msg| - 1])
  }

  lemma {:induction false} FoldSplits(reg: bv32, a: seq<bv8>, b: seq<bv8>)
    ensures Fold(reg, a + b) == Fold(Fold(reg, a), b)
    decreases |b|
  {
    hide UpdateCrc32;
    if b == [] {
      assert a + b == a;
    } else {
      assert (a + b)[..|a + b| - 1] == a + b[..|b| - 1];
      FoldSplits(reg, a, b[..|b| - 1]);
    }
  }

  lemma {:induction false} ShiftAllSplits(reg: bv32, a: seq<bool>, b: seq<bool>)
    ensures ShiftAll(reg, a + b) == ShiftAll(ShiftAll(reg, a), b)
    decreases |b|
  {
    hide ShiftIn;
    if b == [] {
      assert a + b == a;
    } else {
      assert (a + b)[..|a + b| - 1] == a + b[..|b| - 1];
      ShiftAllSplits(reg, a, b[..|b| - 1]);
    }
  }

  function Rest(b: bv8): bv8 {
    b >> 1
  }

  predicate Odd(b: bv8) {
    b & 1 != 0
  }

  lemma OneBit(reg: bv32, b: bv8)
    ensures BitStep(Plus(reg, Widen(b))) == Plus(ShiftIn(reg, Odd(b)), Widen(Rest(b)))
  {
    hide BitStep, Plus, Widen, Odd, Rest, Doubled, Half;
    var bit := if Odd(b) then 1 else 0;
    ByteParts(b);
    PlusAssociates(reg, bit, Doubled(Rest(b)));
    StepAdds(Plus(reg, bit), Doubled(Rest(b)));
    EvenStep(Doubled(Rest(b)));
  }

  function Doubled(b: bv8): bv32 {
    Widen(b << 1)
  }

  lemma ByteParts(b: bv8)
    ensures Widen(b) == Plus(if Odd(b) then 1 else 0, Doubled(Rest(b)))
    ensures !LowBit(Doubled(Rest(b))) && Half(Doubled(Rest(b))) == Widen(Rest(b))
  {
  }

  lemma Rests(b: bv8)
    ensures Rest(Rest(Rest(Rest(Rest(Rest(Rest(Rest(b)))))))) == 0
    ensures BitsOf(b) == [Odd(b), Odd(Rest(b)), Odd(Rest(Rest(b))), Odd(Rest(Rest(Rest(b)))), Odd(Rest(Rest(Rest(Rest(b))))),
                          Odd(Rest(Rest(Rest(Rest(Rest(b)))))), Odd(Rest(Rest(Rest(Rest(Rest(Rest(b))))))),
                          Odd(Rest(Rest(Rest(Rest(Rest(Rest(Rest(b))))))))]
  {
  }

  lemma PlusZero(x: bv32)
    ensures Plus(x, Widen(0)) == x
  {
  }

  /** A byte enters bit by bit as it does all at once. */
  lemma ByteBits(reg: bv32, b: bv8)
    ensures var t := BitsOf(b);
      ShiftIn(ShiftIn(ShiftIn(ShiftIn(ShiftIn(ShiftIn(ShiftIn(ShiftIn(reg, t[0]), t[1]), t[2]), t[3]), t[4]), t[5]), t[6]), t[7])
      == EightSteps(Plus(reg, Widen(b)))
  {
    hide BitStep, ShiftIn, Plus, Widen, Odd, Rest, BitsOf;
    Rests(b);
    var b1 := Rest(b);
    var b2 := Rest(b1);
    var b3 := Rest(b2);
    var b4 := Rest(b3);
    var b5 := Rest(b4);
    var b6 := Rest(b5);
    var b7 := Rest(b6);
    var r1 := ShiftIn(reg, Odd(b));
    var r2 := ShiftIn(r1, Odd(b1));
    var r3 := ShiftIn(r2, Odd(b2));
    var r4 := ShiftIn(r3, Odd(b3));
    var r5 := ShiftIn(r4, Odd(b4));
    var r6 := ShiftIn(r5, Odd(b5));
    var r7 := ShiftIn(r6, Odd(b6));
    OneBit(reg, b);
    OneBit(r1, b1);
    OneBit(r2, b2);
    OneBit(r3, b3);
    OneBit(r4, b4);
    OneBit(r5, b5);
    OneBit(r6, b6);
    OneBit(r7, b7);
    PlusZero(ShiftIn(r7, Odd(b7)));
  }

  lemma {:induction false} ShiftSome(reg: bv32, bits: seq<bool>, n: nat)
    requires 0 < n <= |bits|
    ensures ShiftAll(reg, bits[..n]) == ShiftIn(ShiftAll(reg, bits[..n - 1]), bits[n - 1])
  {
    hide ShiftIn;
    assert bits[..n][..n - 1] == bits[..n - 1];
  }

  lemma ShiftByte(reg: bv32, b: bv8)
    ensures ShiftAll(reg, BitsOf(b)) == EightSteps(Plus(reg, Widen(b)))
  {
    hide ShiftIn, EightSteps, Plus, Widen;
    var bits := BitsOf(b);
    assert bits[..8] == bits;
    ShiftSome(reg, bits, 8);
    ShiftSome(reg, bits, 7);
    ShiftSome(reg, bits, 6);
    ShiftSome(reg, bits, 5);
    ShiftSome(reg, bits, 4);
    ShiftSome(reg, bits, 3);
    ShiftSome(reg, bits, 2);
    ShiftSome(reg, bits, 1);
    ByteBits(reg, b);
  }

  /** Folding the table step over the bytes shifts in every bit of the message. */
  lemma {:induction false} FoldIsBitwise(reg: bv32, msg: seq<bv8>)
    ensures Fold(reg, msg) == ShiftAll(reg, MessageBits(msg))
  {
    hide UpdateCrc32, ShiftAll, EightSteps, BitsOf, Plus, Widen;
    if msg == [] {
      EmptyShift(reg);
    } else {
      var front, last := msg[..|msg| - 1], msg[|msg| - 1];
      FoldIsBitwise(reg, front);
      TableStep(Fold(reg, front), last);
      ShiftByte(Fold(reg, front), last);
      ShiftAllSplits(reg, MessageBits(front), BitsOf(last));
    }
  }

  lemma EmptyShift(reg: bv32)
    ensures ShiftAll(reg, []) == reg
  {
  }

  /** crc_32 of the bytes from `from` on: zero for a null pointer, otherwise the CRC of the bytes. */
  method Crc(input: array?<bv8>, from: nat, numBytes: nat) returns (r: bv32)
    requires input != null ==> from + numBytes <= input.Length
    ensures r == BitwiseCrc(if input == null then [] else input[from..from + numBytes])
    ensures r == Final(Fold(START, if input == null then [] else input[from..from + numBytes]))
  {
    hide UpdateCrc32, ShiftAll, Final;
    var crc := START;
    if input != null {
      var a := 0;
      while a < numBytes
        invariant a <= numBytes && crc == Fold(START, input[from..from + a])
      {
        assert input[from..from + a + 1][..a] == input[from..from + a];
        crc := UpdateCrc32(crc, input[from + a]);
        a := a + 1;
      }
    }
    FoldIsBitwise(START, if input == null then [] else input[from..from + numBytes]);
    r := Final(crc);
  }

  /** The check value of this CRC: that of the digits 1 to 9. */
  lemma CheckValue()
    ensures BitwiseCrc([0x31, 0x32, 0x33, 0x34, 0x35, 0x36, 0x37, 0x38, 0x39]) == 0xCBF4_3926
  {
    var msg: seq<bv8> := [0x31, 0x32, 0x33, 0x34, 0x35, 0x36, 0x37, 0x38, 0x39];
    FoldIsBitwise(START, msg);
    CheckSteps();
    hide UpdateCrc32, ShiftAll, MessageBits, Final, Fold;
    FoldNothing(START);
    assert msg[..0] == [] && msg[..9] == msg;
    FoldNext(START, msg, 0);
    FoldNext(START, msg, 1);
    FoldNext(START, msg, 2);
    FoldNext(START, msg, 3);
    FoldNext(START, msg, 4);
    FoldNext(START, msg, 5);
    FoldNext(START, msg, 6);
    FoldNext(START, msg, 7);
    FoldNext(START, msg, 8);
    assert Final(0x340B_C6D9) == 0xCBF4_3926 by { ComplementOf(); }
  }

  lemma ComplementOf()
    ensures Final(0x340B_C6D9) == 0xCBF4_3926
  {
  }

  lemma FoldNext(reg: bv32, msg: seq<bv8>, n: nat)
    requires n < |msg|
    ensures Fold(reg, msg[..n + 1]) == UpdateCrc32(Fold(reg, msg[..n]), msg[n])
  {
    hide UpdateCrc32;
    assert msg[..n + 1][..n] == msg[..n];
  }

  lemma FoldNothing(reg: bv32)
    ensures Fold(reg, []) == reg
  {
  }

  lemma CheckSteps()
    ensures UpdateCrc32(START, 0x31) == 0x7C23_1048
    ensures UpdateCrc32(0x7C23_1048, 0x32) == 0xB0AC_BB32
    ensures UpdateCrc32(0xB0AC_BB32, 0x33) == 0x77B7_9C2D
    ensures UpdateCrc32(0x77B7_9C2D, 0x34) == 0x641C_1F5C
    ensures UpdateCrc32(0x641C_1F5C, 0x35) == 0x340A_C5E3
    ensures UpdateCrc32(0x340A_C5E3, 0x36) == 0xF68D_2C9E
    ensures UpdateCrc32(0xF68D_2C9E, 0x37) == 0xAFFC_9660
    ensures UpdateCrc32(0xAFFC_9660, 0x38) == 0x651F_2550
    ensures UpdateCrc32(0x651F_2550, 0x39) == 0x340B_C6D9
  {
  }

  // ---------- what the code detects

  function UnStep(reg: bv32): bv32 {
    if reg & 0x8000_0000 != 0 then ((reg ^ POLY) << 1) | 1 else reg << 1
  }

  lemma StepIsUndone(reg: bv32)
    ensures UnStep(BitStep(reg)) == reg
  {
  }

  lemma EightStepsInjective(x: bv32, y: bv32)
    requires EightSteps(x) == EightSteps(y)
    ensures x == y
  {
    hide BitStep, UnStep;
    EightAreUndone(x);
    EightAreUndone(y);
  }

  lemma EightAreUndone(x: bv32)
    ensures UnStep(UnStep(UnStep(UnStep(UnStep(UnStep(UnStep(UnStep(EightSteps(x))))))))) == x
  {
    hide BitStep, UnStep;
    var x1 := BitStep(x);
    var x2 := BitStep(x1);
    var x3 := BitStep(x2);
    var x4 := BitStep(x3);
    var x5 := BitStep(x4);
    var x6 := BitStep(x5);
    var x7 := BitStep(x6);
    StepIsUndone(x);
    StepIsUndone(x1);
    StepIsUndone(x2);
    StepIsUndone(x3);
    StepIsUndone(x4);
    StepIsUndone(x5);
    StepIsUndone(x6);
    StepIsUndone(x7);
  }

  lemma PlusInjective(x: bv32, a: bv8, y: bv32, b: bv8)
    requires Plus(x, Widen(a)) == Plus(y, Widen(b))
    ensures a == b <==> x == y
  {
    PlusTwice(x, Widen(a));
    PlusTwice(y, Widen(a));
    if x == y {
      SumDifference(x, a, b);
    }
  }

  lemma PlusTwice(x: bv32, w: bv32)
    ensures Plus(Plus(x, w), w) == x
  {
  }

  lemma SumDifference(x: bv32, a: bv8, b: bv8)
    requires Plus(x, Widen(a)) == Plus(x, Widen(b))
    ensures a == b
  {
  }

  lemma {:induction false} FoldInjective(x: bv32, y: bv32, msg: seq<bv8>)
    requires Fold(x, msg) == Fold(y, msg)
    ensures x == y
  {
    hide UpdateCrc32, EightSteps, Plus, Widen;
    if msg != [] {
      var front, last := msg[..|msg| - 1], msg[|msg| - 1];
      StepInjective(Fold(x, front), last, Fold(y, front), last);
      FoldInjective(x, y, front);
    }
  }

  /** Neither two registers nor two bytes give the same next register. */
  lemma StepInjective(x: bv32, a: bv8, y: bv32, b: bv8)
    requires UpdateCrc32(x, a) == UpdateCrc32(y, b)
    ensures a == b <==> x == y
  {
    hide UpdateCrc32, EightSteps, Plus, Widen;
    TableStep(x, a);
    TableStep(y, b);
    EightStepsInjective(Plus(x, Widen(a)), Plus(y, Widen(b)));
    PlusInjective(x, a, y, b);
  }

  /** A message with one byte changed, anywhere, has another CRC. */
  lemma OneChangedByteIsDetected(msg: seq<bv8>, i: nat, b: bv8)
    requires i < |msg| && msg[i] != b
    ensures BitwiseCrc(msg) != BitwiseCrc(msg[i := b])
  {
    hide UpdateCrc32, ShiftAll, Final, Fold, MessageBits;
    var front, back := msg[..i], msg[i + 1..];
    assert msg == (front + [msg[i]]) + back && msg[i := b] == (front + [b]) + back;
    FoldIsBitwise(START, msg);
    FoldIsBitwise(START, msg[i := b]);
    FoldSplits(START, front + [msg[i]], back);
    FoldSplits(START, front + [b], back);
    FoldOneMore(START, front, msg[i]);
    FoldOneMore(START, front, b);
    var reg := Fold(START, front);
    if BitwiseCrc(msg) == BitwiseCrc(msg[i := b]) {
      ComplementInjective(Fold(START, msg), Fold(START, msg[i := b]));
      FoldInjective(UpdateCrc32(reg, msg[i]), UpdateCrc32(reg, b), back);
      StepInjective(reg, msg[i], reg, b);
    }
  }

  lemma FoldOneMore(reg: bv32, front: seq<bv8>, b: bv8)
    ensures Fold(reg, front + [b]) == UpdateCrc32(Fold(reg, front), b)
  {
    hide UpdateCrc32;
    assert (front + [b])[..|front|] == front;
  }

  lemma ComplementInjective(x: bv32, y: bv32)
    requires Final(x) == Final(y)
    ensures x == y
  {
  }
}
