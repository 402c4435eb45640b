/** Conversions between numbers and bytes, kept in one place: everywhere else a byte is a `bv8`. */
module Bits {

  lemma NextByte(b: bv8)
    requires b < 255
    ensures (b + 1) as nat == b as nat + 1
  {
  }

  lemma BelowTop(b: bv8)
    requires b as nat < 255
    ensures b < 255
  {
  }

  /** The byte of a number, by counting up: the verifier's own conversion is costly to reason about. */
  function Narrow(i: nat): (b: bv8)
    requires i < 256
    ensures b as nat == i
  {
    if i == 0 then 0
    else
      var b := Narrow(i - 1);
      BelowTop(b);
      NextByte(b);
      b + 1
  }

  /** The byte of a number. Its value is given by the lemma below, not by an ensures, so that proofs which
      do not need it are spared the conversion. */
  function ToByte(i: nat): bv8
    requires i < 256
  {
    Narrow(i)
  }

  lemma ToByteValue(i: nat)
    requires i < 256
    ensures ToByte(i) as nat == i
  {
  }

  lemma SameByte(a: bv8, b: bv8)
    requires a as nat == b as nat
    ensures a == b
  {
  }

  lemma ToByteOf(b: bv8)
    ensures ToByte(b as nat) == b
  {
    hide ToByte;
    ToByteValue(b as nat);
    SameByte(ToByte(b as nat), b);
  }

  lemma ToByteNext(i: nat)
    requires i < 255
    ensures ToByte(i) < 255 && ToByte(i + 1) == ToByte(i) + 1
  {
    hide ToByte;
    ToByteValue(i);
    ToByteValue(i + 1);
    BelowTop(ToByte(i));
    NextByte(ToByte(i));
    SameByte(ToByte(i + 1), ToByte(i) + 1);
  }

  lemma Complement(b: bv8)
    ensures (255 - b) as nat == 255 - b as nat
    ensures ToByte(255 - b as nat) == 255 - b
  {
    ComplementValue(b);
    hide ToByte;
    ToByteValue(255 - b as nat);
    SameByte(ToByte(255 - b as nat), 255 - b);
  }

  lemma ComplementValue(b: bv8)
    ensures (255 - b) as nat == 255 - b as nat
  {
  }

  lemma ZeroByte(b: bv8)
    ensures b == 0 <==> b as nat == 0
    ensures ToByte(0) == 0 && ToByte(1) == 1 && ToByte(255) == 255
  {
  }

  /** Addition modulo 256. */
  function AddByte(a: bv8, b: bv8): bv8 {
    a + b
  }

  // ---------- sums of bytes; proofs elsewhere use only these laws

  function Xor(a: bv8, b: bv8): bv8 {
    a ^ b
  }

  function Sum4(a: bv8, b: bv8, c: bv8, d: bv8): bv8 {
    Xor(Xor(Xor(a, b), c), d)
  }

  lemma XorCommutes(a: bv8, b: bv8)
    ensures Xor(a, b) == Xor(b, a)
  {
  }

  lemma XorAssociates(a: bv8, b: bv8, c: bv8)
    ensures Xor(Xor(a, b), c) == Xor(a, Xor(b, c))
  {
  }

  lemma XorZero(a: bv8)
    ensures Xor(a, 0) == a && Xor(0, a) == a && Xor(a, a) == 0
  {
  }

  lemma XorTwice(a: bv8, b: bv8)
    ensures Xor(Xor(a, b), b) == a
  {
    hide Xor;
    XorAssociates(a, b, b);
    XorZero(a);
    XorZero(b);
  }

  lemma Regroup2(a: bv8, b: bv8, a': bv8, b': bv8)
    ensures Xor(Xor(a, a'), Xor(b, b')) == Xor(Xor(a, b), Xor(a', b'))
  {
    hide Xor;
    XorAssociates(a, a', Xor(b, b'));
    XorAssociates(a', b, b');
    XorCommutes(a', b);
    XorAssociates(b, a', b');
    XorAssociates(a, b, Xor(a', b'));
  }

  lemma Regroup4(a: bv8, b: bv8, c: bv8, d: bv8, a': bv8, b': bv8, c': bv8, d': bv8)
    ensures Sum4(Xor(a, a'), Xor(b, b'), Xor(c, c'), Xor(d, d')) == Xor(Sum4(a, b, c, d), Sum4(a', b', c', d'))
  {
    hide Xor;
    Regroup2(a, b, a', b');
    Regroup2(Xor(a, b), c, Xor(a', b'), c');
    Regroup2(Xor(Xor(a, b), c), d, Xor(Xor(a', b'), c'), d');
  }

  lemma SumWithZeros(a: bv8)
    ensures Sum4(a, 0, 0, 0) == a && Sum4(0, a, 0, 0) == a && Sum4(0, 0, a, 0) == a && Sum4(0, 0, 0, a) == a
  {
    hide Xor;
    XorZero(a);
    XorZero(0);
  }

  lemma Rotate(a: bv8, b: bv8, c: bv8, d: bv8)
    ensures Sum4(a, b, c, d) == Sum4(b, c, d, a)
  {
    hide Xor;
    XorAssociates(a, b, c);
    XorAssociates(a, Xor(b, c), d);
    XorCommutes(a, Xor(Xor(b, c), d));
  }

  lemma Rotate4(a: bv8, b: bv8, c: bv8, d: bv8)
    ensures Sum4(a, b, c, d) == Sum4(b, c, d, a) == Sum4(c, d, a, b) == Sum4(d, a, b, c)
  {
    hide Sum4;
    Rotate(a, b, c, d);
    Rotate(b, c, d, a);
    Rotate(c, d, a, b);
  }
}
