/** AES as FIPS 197 defines it: columns of bytes, the cipher, the inverse cipher and the equivalent inverse
    cipher, and the theorem that decryption undoes encryption. */
module AesSpec {
  import opened Bits
  import opened AesTables

  datatype Col = Col(b0: bv8, b1: bv8, b2: bv8, b3: bv8)
  datatype State = State(c0: Col, c1: Col, c2: Col, c3: Col)

  // ---------- columns

  function Add(x: Col, y: Col): Col {
    Col(Xor(x.b0, y.b0), Xor(x.b1, y.b1), Xor(x.b2, y.b2), Xor(x.b3, y.b3))
  }

  function SubCol(c: Col): Col {
    Col(Sub(c.b0), Sub(c.b1), Sub(c.b2), Sub(c.b3))
  }

  function InvSubCol(c: Col): Col {
    Col(InvSub(c.b0), InvSub(c.b1), InvSub(c.b2), InvSub(c.b3))
  }

  /** {03} times a byte. */
  function Triple(b: bv8): bv8 {
    XTime(b) ^ b
  }

  /** MixColumns, section 5.1.3 of FIPS 197. */
  function MixCol(c: Col): Col {
    Col(Sum4(XTime(c.b0), Triple(c.b1), c.b2, c.b3),
        Sum4(c.b0, XTime(c.b1), Triple(c.b2), c.b3),
        Sum4(c.b0, c.b1, XTime(c.b2), Triple(c.b3)),
        Sum4(Triple(c.b0), c.b1, c.b2, XTime(c.b3)))
  }

  /** InvMixColumns, section 5.3.3 of FIPS 197. */
  function InvMixCol(c: Col): Col {
    Col(Sum4(GMul(c.b0, 0x0E), GMul(c.b1, 0x0B), GMul(c.b2, 0x0D), GMul(c.b3, 0x09)),
        Sum4(GMul(c.b0, 0x09), GMul(c.b1, 0x0E), GMul(c.b2, 0x0B), GMul(c.b3, 0x0D)),
        Sum4(GMul(c.b0, 0x0D), GMul(c.b1, 0x09), GMul(c.b2, 0x0E), GMul(c.b3, 0x0B)),
        Sum4(GMul(c.b0, 0x0B), GMul(c.b1, 0x0D), GMul(c.b2, 0x09), GMul(c.b3, 0x0E)))
  }

  lemma TripleAdds(a: bv8, b: bv8)
    ensures XTime(Xor(a, b)) == Xor(XTime(a), XTime(b))
    ensures Triple(Xor(a, b)) == Xor(Triple(a), Triple(b))
  {
    XTimeAdds(a, b);
    hide XTime;
  }

  lemma MixAdds(x: Col, y: Col)
    ensures MixCol(Add(x, y)) == Add(MixCol(x), MixCol(y))
  {
    hide XTime, Triple, Xor, Sum4;
    TripleAdds(x.b0, y.b0);
    TripleAdds(x.b1, y.b1);
    TripleAdds(x.b2, y.b2);
    TripleAdds(x.b3, y.b3);
    Regroup4(XTime(x.b0), Triple(x.b1), x.b2, x.b3, XTime(y.b0), Triple(y.b1), y.b2, y.b3);
    Regroup4(x.b0, XTime(x.b1), Triple(x.b2), x.b3, y.b0, XTime(y.b1), Triple(y.b2), y.b3);
    Regroup4(x.b0, x.b1, XTime(x.b2), Triple(x.b3), y.b0, y.b1, XTime(y.b2), Triple(y.b3));
    Regroup4(Triple(x.b0), x.b1, x.b2, XTime(x.b3), Triple(y.b0), y.b1, y.b2, XTime(y.b3));
  }

  // A coefficient's product as a sum of doublings.

  lemma Product9(a: bv8)
    ensures GMul(a, 0x09) == Sum4(a, 0, 0, XTime(XTime(XTime(a))))
  {
    hide XTime;
  }

  lemma ProductB(a: bv8)
    ensures GMul(a, 0x0B) == Sum4(a, XTime(a), 0, XTime(XTime(XTime(a))))
  {
    hide XTime;
  }

  lemma ProductD(a: bv8)
    ensures GMul(a, 0x0D) == Sum4(a, 0, XTime(XTime(a)), XTime(XTime(XTime(a))))
  {
    hide XTime;
  }

  lemma ProductE(a: bv8)
    ensures GMul(a, 0x0E) == Sum4(0, XTime(a), XTime(XTime(a)), XTime(XTime(XTime(a))))
  {
    hide XTime;
  }

  lemma ProductTerms(a: bv8)
    ensures var a1 := XTime(a); var a2 := XTime(a1); var a3 := XTime(a2);
      && GMul(a, 0x09) == Sum4(a, 0, 0, a3)
      && GMul(a, 0x0B) == Sum4(a, a1, 0, a3)
      && GMul(a, 0x0D) == Sum4(a, 0, a2, a3)
      && GMul(a, 0x0E) == Sum4(0, a1, a2, a3)
  {
    hide XTime, GMul, Sum4;
    Product9(a);
    ProductB(a);
    ProductD(a);
    ProductE(a);
  }

  lemma ProductsAdd(a: bv8, b: bv8)
    ensures GMul(Xor(a, b), 0x0E) == Xor(GMul(a, 0x0E), GMul(b, 0x0E))
    ensures GMul(Xor(a, b), 0x0B) == Xor(GMul(a, 0x0B), GMul(b, 0x0B))
    ensures GMul(Xor(a, b), 0x0D) == Xor(GMul(a, 0x0D), GMul(b, 0x0D))
    ensures GMul(Xor(a, b), 0x09) == Xor(GMul(a, 0x09), GMul(b, 0x09))
  {
    hide XTime, GMul, Xor, Sum4;
    var a1, b1 := XTime(a), XTime(b);
    var a2, b2 := XTime(a1), XTime(b1);
    var a3, b3 := XTime(a2), XTime(b2);
    TripleAdds(a, b);
    TripleAdds(a1, b1);
    TripleAdds(a2, b2);
    ProductTerms(a);
    ProductTerms(b);
    ProductTerms(Xor(a, b));
    XorZero(0);
    Regroup4(a, 0, 0, a3, b, 0, 0, b3);
    Regroup4(a, a1, 0, a3, b, b1, 0, b3);
    Regroup4(a, 0, a2, a3, b, 0, b2, b3);
    Regroup4(0, a1, a2, a3, 0, b1, b2, b3);
  }

  lemma InvMixAdds(x: Col, y: Col)
    ensures InvMixCol(Add(x, y)) == Add(InvMixCol(x), InvMixCol(y))
  {
    hide GMul, Xor, Sum4;
    ProductsAdd(x.b0, y.b0);
    ProductsAdd(x.b1, y.b1);
    ProductsAdd(x.b2, y.b2);
    ProductsAdd(x.b3, y.b3);
    Regroup4(GMul(x.b0, 0x0E), GMul(x.b1, 0x0B), GMul(x.b2, 0x0D), GMul(x.b3, 0x09),
             GMul(y.b0, 0x0E), GMul(y.b1, 0x0B), GMul(y.b2, 0x0D), GMul(y.b3, 0x09));
    Regroup4(GMul(x.b0, 0x09), GMul(x.b1, 0x0E), GMul(x.b2, 0x0B), GMul(x.b3, 0x0D),
             GMul(y.b0, 0x09), GMul(y.b1, 0x0E), GMul(y.b2, 0x0B), GMul(y.b3, 0x0D));
    Regroup4(GMul(x.b0, 0x0D), GMul(x.b1, 0x09), GMul(x.b2, 0x0E), GMul(x.b3, 0x0B),
             GMul(y.b0, 0x0D), GMul(y.b1, 0x09), GMul(y.b2, 0x0E), GMul(y.b3, 0x0B));
    Regroup4(GMul(x.b0, 0x0B), GMul(x.b1, 0x0D), GMul(x.b2, 0x09), GMul(x.b3, 0x0E),
             GMul(y.b0, 0x0B), GMul(y.b1, 0x0D), GMul(y.b2, 0x09), GMul(y.b3, 0x0E));
  }

  /** The coefficients of the two matrices cancel, checked on one byte. */
  lemma UnitProducts(b: bv8)
    ensures Sum4(GMul(XTime(b), 0x0E), GMul(b, 0x0B), GMul(b, 0x0D), GMul(Triple(b), 0x09)) == b
    ensures Sum4(GMul(XTime(b), 0x09), GMul(b, 0x0E), GMul(b, 0x0B), GMul(Triple(b), 0x0D)) == 0
    ensures Sum4(GMul(XTime(b), 0x0D), GMul(b, 0x09), GMul(b, 0x0E), GMul(Triple(b), 0x0B)) == 0
    ensures Sum4(GMul(XTime(b), 0x0B), GMul(b, 0x0D), GMul(b, 0x09), GMul(Triple(b), 0x0E)) == 0
  {
  }

  lemma MixUnit(b: bv8)
    ensures MixCol(Col(b, 0, 0, 0)) == Col(XTime(b), b, b, Triple(b))
    ensures MixCol(Col(0, b, 0, 0)) == Col(Triple(b), XTime(b), b, b)
    ensures MixCol(Col(0, 0, b, 0)) == Col(b, Triple(b), XTime(b), b)
    ensures MixCol(Col(0, 0, 0, b)) == Col(b, b, Triple(b), XTime(b))
  {
    assert XTime(0) == 0 && Triple(0) == 0;
    hide XTime, Triple, Sum4;
    SumWithZeros(XTime(b));
    SumWithZeros(Triple(b));
    SumWithZeros(b);
  }

  lemma InvMixUndoesMixUnit(b: bv8)
    ensures InvMixCol(MixCol(Col(b, 0, 0, 0))) == Col(b, 0, 0, 0)
    ensures InvMixCol(MixCol(Col(0, b, 0, 0))) == Col(0, b, 0, 0)
    ensures InvMixCol(MixCol(Col(0, 0, b, 0))) == Col(0, 0, b, 0)
    ensures InvMixCol(MixCol(Col(0, 0, 0, b))) == Col(0, 0, 0, b)
  {
    hide XTime, Triple, GMul, MixCol, Sum4;
    MixUnit(b);
    UnitProducts(b);
    var x, t := XTime(b), Triple(b);
    Rotate4(GMul(x, 0x0E), GMul(b, 0x0B), GMul(b, 0x0D), GMul(t, 0x09));
    Rotate4(GMul(x, 0x09), GMul(b, 0x0E), GMul(b, 0x0B), GMul(t, 0x0D));
    Rotate4(GMul(x, 0x0D), GMul(b, 0x09), GMul(b, 0x0E), GMul(t, 0x0B));
    Rotate4(GMul(x, 0x0B), GMul(b, 0x0D), GMul(b, 0x09), GMul(t, 0x0E));
  }

  lemma UnitsAdd(c: Col)
    ensures Add(Col(c.b0, 0, 0, 0), Col(0, c.b1, 0, 0)) == Col(c.b0, c.b1, 0, 0)
    ensures Add(Col(0, 0, c.b2, 0), Col(0, 0, 0, c.b3)) == Col(0, 0, c.b2, c.b3)
    ensures Add(Col(c.b0, c.b1, 0, 0), Col(0, 0, c.b2, c.b3)) == c
  {
    hide Xor;
    XorZero(c.b0);
    XorZero(c.b1);
    XorZero(c.b2);
    XorZero(c.b3);
    XorZero(0);
  }

  lemma InvMixUndoesMixOfSum(x: Col, y: Col)
    requires InvMixCol(MixCol(x)) == x && InvMixCol(MixCol(y)) == y
    ensures InvMixCol(MixCol(Add(x, y))) == Add(x, y)
  {
    hide MixCol, InvMixCol;
    MixAdds(x, y);
    InvMixAdds(MixCol(x), MixCol(y));
  }

  lemma InvMixUndoesMix(c: Col)
    ensures InvMixCol(MixCol(c)) == c
  {
    hide MixCol, InvMixCol, Add;
    InvMixUndoesMixUnit(c.b0);
    InvMixUndoesMixUnit(c.b1);
    InvMixUndoesMixUnit(c.b2);
    InvMixUndoesMixUnit(c.b3);
    UnitsAdd(c);
    InvMixUndoesMixOfSum(Col(c.b0, 0, 0, 0), Col(0, c.b1, 0, 0));
    InvMixUndoesMixOfSum(Col(0, 0, c.b2, 0), Col(0, 0, 0, c.b3));
    InvMixUndoesMixOfSum(Col(c.b0, c.b1, 0, 0), Col(0, 0, c.b2, c.b3));
  }

  // ---------- states

  function AddRoundKey(s: State, k: State): State {
    State(Add(s.c0, k.c0), Add(s.c1, k.c1), Add(s.c2, k.c2), Add(s.c3, k.c3))
  }

  function SubBytes(s: State): State {
    State(SubCol(s.c0), SubCol(s.c1), SubCol(s.c2), SubCol(s.c3))
  }

  function InvSubBytes(s: State): State {
    State(InvSubCol(s.c0), InvSubCol(s.c1), InvSubCol(s.c2), InvSubCol(s.c3))
  }

  /** Row r moves r places to the left, section 5.1.2 of FIPS 197. */
  function ShiftRows(s: State): State {
    State(Col(s.c0.b0, s.c1.b1, s.c2.b2, s.c3.b3), Col(s.c1.b0, s.c2.b1, s.c3.b2, s.c0.b3),
          Col(s.c2.b0, s.c3.b1, s.c0.b2, s.c1.b3), Col(s.c3.b0, s.c0.b1, s.c1.b2, s.c2.b3))
  }

  function InvShiftRows(s: State): State {
    State(Col(s.c0.b0, s.c3.b1, s.c2.b2, s.c1.b3), Col(s.c1.b0, s.c0.b1, s.c3.b2, s.c2.b3),
          Col(s.c2.b0, s.c1.b1, s.c0.b2, s.c3.b3), Col(s.c3.b0, s.c2.b1, s.c1.b2, s.c0.b3))
  }

  function MixColumns(s: State): State {
    State(MixCol(s.c0), MixCol(s.c1), MixCol(s.c2), MixCol(s.c3))
  }

  function InvMixColumns(s: State): State {
    State(InvMixCol(s.c0), InvMixCol(s.c1), InvMixCol(s.c2), InvMixCol(s.c3))
  }

  lemma AddTwice(x: Col, y: Col)
    ensures Add(Add(x, y), y) == x
  {
    hide Xor;
    XorTwice(x.b0, y.b0);
    XorTwice(x.b1, y.b1);
    XorTwice(x.b2, y.b2);
    XorTwice(x.b3, y.b3);
  }

  lemma AddRoundKeyTwice(s: State, k: State)
    ensures AddRoundKey(AddRoundKey(s, k), k) == s
  {
    hide Add;
    AddTwice(s.c0, k.c0);
    AddTwice(s.c1, k.c1);
    AddTwice(s.c2, k.c2);
    AddTwice(s.c3, k.c3);
  }

  lemma InvSubColUndoes(c: Col)
    ensures InvSubCol(SubCol(c)) == c
  {
    hide Sub, InvSub;
    InvSubUndoesSub(c.b0);
    InvSubUndoesSub(c.b1);
    InvSubUndoesSub(c.b2);
    InvSubUndoesSub(c.b3);
  }

  /** The substitution and the shift are undone, in either order. */
  lemma SubAndShiftAreUndone(s: State)
    ensures InvShiftRows(InvSubBytes(ShiftRows(SubBytes(s)))) == s
    ensures InvSubBytes(InvShiftRows(ShiftRows(SubBytes(s)))) == s
  {
    hide Sub, InvSub;
    InvSubColUndoes(s.c0);
    InvSubColUndoes(s.c1);
    InvSubColUndoes(s.c2);
    InvSubColUndoes(s.c3);
  }

  lemma InvMixColumnsUndoes(s: State)
    ensures InvMixColumns(MixColumns(s)) == s
  {
    hide MixCol, InvMixCol;
    InvMixUndoesMix(s.c0);
    InvMixUndoesMix(s.c1);
    InvMixUndoesMix(s.c2);
    InvMixUndoesMix(s.c3);
  }

  lemma InvMixColumnsAdds(s: State, k: State)
    ensures InvMixColumns(AddRoundKey(s, k)) == AddRoundKey(InvMixColumns(s), InvMixColumns(k))
  {
    hide InvMixCol, Add;
    InvMixAdds(s.c0, k.c0);
    InvMixAdds(s.c1, k.c1);
    InvMixAdds(s.c2, k.c2);
    InvMixAdds(s.c3, k.c3);
  }

  // ---------- the ciphers; `keys` holds one round key more than there are rounds

  function EncRound(s: State, k: State): State {
    AddRoundKey(MixColumns(ShiftRows(SubBytes(s))), k)
  }

  function EncRounds(s: State, keys: seq<State>, r: nat): State
    requires r < |keys|
  {
    if r == 0 then AddRoundKey(s, keys[0]) else EncRound(EncRounds(s, keys, r - 1), keys[r])
  }

  function EncFinal(s: State, k: State): State {
    AddRoundKey(ShiftRows(SubBytes(s)), k)
  }

  /** Cipher, section 5.1 of FIPS 197. */
  function Cipher(s: State, keys: seq<State>): State
    requires |keys| >= 2
  {
    EncFinal(EncRounds(s, keys, |keys| - 2), keys[|keys| - 1])
  }

  function DecRound(s: State, k: State): State {
    AddRoundKey(InvMixColumns(InvShiftRows(InvSubBytes(s))), k)
  }

  function DecRounds(s: State, keys: seq<State>, r: nat): State
    requires r < |keys|
  {
    if r == 0 then AddRoundKey(s, keys[0]) else DecRound(DecRounds(s, keys, r - 1), keys[r])
  }

  function DecFinal(s: State, k: State): State {
    AddRoundKey(InvShiftRows(InvSubBytes(s)), k)
  }

  /** EqInvCipher, section 5.3.5 of FIPS 197, on its own key schedule. */
  function EqInvCipher(s: State, keys: seq<State>): State
    requires |keys| >= 2
  {
    DecFinal(DecRounds(s, keys, |keys| - 2), keys[|keys| - 1])
  }

  /** The key schedule of the equivalent inverse cipher: reversed, and mixed but at the two ends. */
  function DecKey(keys: seq<State>, r: nat): State
    requires r < |keys|
  {
    var k := keys[|keys| - 1 - r];
    if r == 0 || r == |keys| - 1 then k else InvMixColumns(k)
  }

  function DecKeys(keys: seq<State>): (d: seq<State>)
    ensures |d| == |keys|
  {
    seq(|keys|, r requires 0 <= r < |keys| => DecKey(keys, r))
  }

  /** After r rounds of decryption the state is what encryption had before the key of round n - r was
      added. */
  lemma {:induction false} DecRoundsUndo(s: State, keys: seq<State>, r: nat)
    requires |keys| >= 2 && r <= |keys| - 2
    ensures DecRounds(Cipher(s, keys), DecKeys(keys), r) == ShiftRows(SubBytes(EncRounds(s, keys, |keys| - 2 - r)))
    decreases r
  {
    hide AddRoundKey, InvMixColumns, MixColumns, ShiftRows, SubBytes, InvShiftRows, InvSubBytes;
    var n := |keys| - 1;
    if r == 0 {
      AddRoundKeyTwice(ShiftRows(SubBytes(EncRounds(s, keys, n - 1))), keys[n]);
    } else {
      DecRoundsUndo(s, keys, r - 1);
      var before := EncRounds(s, keys, n - r);
      SubAndShiftAreUndone(before);
      var u := ShiftRows(SubBytes(EncRounds(s, keys, n - r - 1)));
      InvMixColumnsAdds(MixColumns(u), keys[n - r]);
      InvMixColumnsUndoes(u);
      AddRoundKeyTwice(u, InvMixColumns(keys[n - r]));
      InvOrder(ShiftRows(SubBytes(before)));
    }
  }

  lemma InvOrder(s: State)
    ensures InvShiftRows(InvSubBytes(s)) == InvSubBytes(InvShiftRows(s))
  {
    hide InvSub;
  }

  /** Decryption with the decryption key schedule undoes encryption, for every block, any round keys and
      any number of rounds. */
  lemma DecryptionUndoesEncryption(s: State, keys: seq<State>)
    requires |keys| >= 2
    ensures EqInvCipher(Cipher(s, keys), DecKeys(keys)) == s
  {
    hide AddRoundKey, InvMixColumns, MixColumns, ShiftRows, SubBytes, InvShiftRows, InvSubBytes, Cipher;
    var n := |keys| - 1;
    DecRoundsUndo(s, keys, n - 1);
    SubAndShiftAreUndone(EncRounds(s, keys, 0));
    AddRoundKeyTwice(s, keys[0]);
  }

  // ---------- the straightforward inverse cipher

  /** The rounds n-1, ..., n-r of InvCipher, section 5.3 of FIPS 197, with the encryption key schedule. */
  function InvRounds(s: State, keys: seq<State>, r: nat): State
    requires r < |keys|
  {
    if r == 0 then AddRoundKey(s, keys[|keys| - 1])
    else InvMixColumns(AddRoundKey(InvSubBytes(InvShiftRows(InvRounds(s, keys, r - 1))), keys[|keys| - 1 - r]))
  }

  function InvCipher(s: State, keys: seq<State>): State
    requires |keys| >= 2
  {
    AddRoundKey(InvSubBytes(InvShiftRows(InvRounds(s, keys, |keys| - 2))), keys[0])
  }

  lemma {:induction false} DecRoundsAreInvRounds(s: State, keys: seq<State>, r: nat)
    requires |keys| >= 2 && r <= |keys| - 2
    ensures DecRounds(s, DecKeys(keys), r) == InvRounds(s, keys, r)
    decreases r
  {
    hide AddRoundKey, InvMixColumns, InvShiftRows, InvSubBytes;
    if r > 0 {
      DecRoundsAreInvRounds(s, keys, r - 1);
      var u := InvRounds(s, keys, r - 1);
      InvOrder(u);
      InvMixColumnsAdds(InvSubBytes(InvShiftRows(u)), keys[|keys| - 1 - r]);
    }
  }

  /** The equivalent inverse cipher computes the inverse cipher, on every block. */
  lemma EquivalentInverse(s: State, keys: seq<State>)
    requires |keys| >= 2
    ensures EqInvCipher(s, DecKeys(keys)) == InvCipher(s, keys)
  {
    hide AddRoundKey, InvMixColumns, InvShiftRows, InvSubBytes;
    DecRoundsAreInvRounds(s, keys, |keys| - 2);
    InvOrder(InvRounds(s, keys, |keys| - 2));
  }
}
