/** Numbers in request headers: a 32-bit integer written in decimal, low digit first, then turned round in
    place. */
module HttpDigits {

  const INT32_MAX := 0x7FFF_FFFF
  const MAX_INT32_NO_OF_DECIMAL_DIGITS := 10

  // ---------- decimal text

  function DigitChar(d: nat): char
    requires d < 10
  {
    '0' + d as char
  }

  /** The decimal digits of a number, high digit first. */
  function Digits(n: nat): (s: string)
    ensures |s| >= 1
  {
    if n < 10 then [DigitChar(n)] else Digits(n / 10) + [DigitChar(n % 10)]
  }

  function Decimal(v: int): string {
    if v < 0 then "-" + Digits(-v) else Digits(v)
  }

  predicate IsDigits(s: string) {
    forall i :: 0 <= i < |s| ==> '0' <= s[i] <= '9'
  }

  /** The number that digits stand for. */
  function NumberOf(s: string): nat
    requires IsDigits(s)
  {
    if s == [] then 0 else 10 * NumberOf(s[..|s| - 1]) + (s[|s| - 1] as nat - '0' as nat)
  }

  /** The digits of a number are digits, stand for it, and do not begin with a needless zero. */
  lemma {:induction false} DigitsReadBack(n: nat)
    ensures IsDigits(Digits(n)) && NumberOf(Digits(n)) == n && (Digits(n)[0] == '0' <==> n == 0)
  {
    if n >= 10 {
      DigitsReadBack(n / 10);
      var front := Digits(n / 10);
      assert Digits(n)[..|Digits(n)| - 1] == front;
    } else {
      assert Digits(n)[..0] == [];
    }
  }

  /** The text of a number begins with a minus sign exactly when it is negative, and what follows stands for its size. */
  lemma DecimalReadBack(v: int)
    ensures var s := Decimal(v); var digits := if s[0] == '-' then s[1..] else s;
      (s[0] == '-' <==> v < 0) && IsDigits(digits) && NumberOf(digits) == if v < 0 then -v else v
  {
    DigitsReadBack(if v < 0 then -v else v);
    hide Digits;
  }

  function Power10(k: nat): nat {
    if k == 0 then 1 else 10 * Power10(k - 1)
  }

  /** A number has at most k digits exactly when it is below the k-th power of ten. */
  lemma {:induction false} DigitCount(n: nat, k: nat)
    requires k >= 1
    ensures |Digits(n)| <= k <==> n < Power10(k)
  {
    if n < 10 {
      PowerAtLeastTen(k);
    } else if k > 1 {
      DigitCount(n / 10, k - 1);
      assert n < 10 * Power10(k - 1) <==> n / 10 < Power10(k - 1);
    } else {
      PowerOne();
    }
  }

  lemma PowerOne()
    ensures Power10(1) == 10
  {
    assert Power10(0) == 1;
  }

  lemma {:induction false} PowerAtLeastTen(k: nat)
    requires k >= 1
    ensures Power10(k) >= 10
  {
    if k == 1 {
      PowerOne();
    } else {
      PowerAtLeastTen(k - 1);
    }
  }

  /** The ten characters that callers must give hold every 32-bit number that needs no more than nine digits after a
      minus sign, and no other. */
  lemma TenCharactersFit(v: int)
    requires -INT32_MAX <= v <= INT32_MAX
    ensures |Decimal(v)| <= MAX_INT32_NO_OF_DECIMAL_DIGITS <==> v > -1_000_000_000
  {
    assert Power10(3) == 1000 && Power10(6) == 1000 * Power10(3) && Power10(9) == 1000 * Power10(6);
    assert Power10(10) == 10 * Power10(9);
    DigitCount(if v < 0 then -v else v, if v < 0 then 9 else 10);
  }

  function Reversed(s: string): (r: string)
    ensures |r| == |s| && forall i :: 0 <= i < |s| ==> r[i] == s[|s| - 1 - i]
  {
    if s == [] then [] else Reversed(s[1..]) + [s[0]]
  }

  lemma ReversedAppend(s: string, c: char)
    ensures Reversed(s + [c]) == [c] + Reversed(s)
  {
  }

  lemma DigitsSplit(n: nat)
    requires n >= 10
    ensures Digits(n) == Digits(n / 10) + [DigitChar(n % 10)]
  {
  }

  // ---------- convertInt32ToAscii

  /** Writes the number's text and returns its length. The negation of the least 32-bit integer does not exist, so
      that value is outside the contract; and the text must fit, which the source's own bound does not ensure. */
  method ConvertInt32ToAscii(value: int, buffer: array<char>) returns (length: nat)
    requires -INT32_MAX <= value <= INT32_MAX && buffer.Length >= |Decimal(value)|
    modifies buffer
    ensures length == |Decimal(value)| <= buffer.Length && buffer[..length] == Decimal(value)
    ensures forall k :: length <= k < buffer.Length ==> buffer[k] == old(buffer[k])
  {
    var isNegative := 0;
    var absoluteValue := value;
    if value < 0 {
      isNegative := 1;
      buffer[0] := '-';
      absoluteValue := value * -1;
    }
    var numOfDigits := WriteReversed(absoluteValue, buffer, isNegative);
    ReverseDigits(buffer, isNegative, numOfDigits);
    length := isNegative + numOfDigits;
    assert buffer[..length] == buffer[..isNegative] + buffer[isNegative..length];
  }

  /** The do-while loop: digits from the low end. */
  method WriteReversed(value: nat, buffer: array<char>, from: nat) returns (count: nat)
    requires from + |Digits(value)| <= buffer.Length
    modifies buffer
    ensures count == |Digits(value)| && Reversed(buffer[from..from + count]) == Digits(value)
    ensures forall k :: 0 <= k < buffer.Length && !(from <= k < from + count) ==> buffer[k] == old(buffer[k])
  {
    hide Digits, Reversed;
    var rest := value;
    count := 0;
    ghost var written: string := [];
    assert Digits(rest) + Reversed(written) == Digits(value) by { NothingReversed(Digits(rest)); }
    while true
      invariant from + count + |Digits(rest)| <= buffer.Length && |written| == count
      invariant buffer[from..from + count] == written && Digits(rest) + Reversed(written) == Digits(value)
      invariant forall k :: 0 <= k < buffer.Length && !(from <= k < from + count) ==> buffer[k] == old(buffer[k])
      decreases rest
    {
      LastDigit(rest);
      var c := DigitChar(rest % 10);
      ReversedAppend(written, c);
      buffer[from + count] := c;
      assert buffer[from..from + count] == written;
      assert buffer[from..from + count + 1] == written + [c];
      ghost var before := rest;
      count, rest, written := count + 1, rest / 10, written + [c];
      if rest == 0 {
        break;
      }
      Regroup(Digits(rest), c, Reversed(written[..count - 1]));
      assert written[..count - 1] + [c] == written;
    }
  }

  lemma NothingReversed(s: string)
    ensures s + Reversed([]) == s
  {
  }

  lemma LastDigit(n: nat)
    ensures Digits(n) == (if n / 10 == 0 then [] else Digits(n / 10)) + [DigitChar(n % 10)]
  {
    if n >= 10 {
      DigitsSplit(n);
    }
  }

  lemma Regroup(a: string, c: char, b: string)
    ensures (a + [c]) + b == a + ([c] + b)
  {
  }

  /** The second loop: the digits change places pairwise. */
  method ReverseDigits(buffer: array<char>, from: nat, count: nat)
    requires from + count <= buffer.Length
    modifies buffer
    ensures buffer[from..from + count] == Reversed(old(buffer[from..from + count]))
    ensures forall k :: 0 <= k < buffer.Length && !(from <= k < from + count) ==> buffer[k] == old(buffer[k])
  {
    ghost var was := buffer[from..from + count];
    var index := 0;
    while index < count / 2
      invariant 0 <= index <= count / 2
      invariant forall i :: from <= i < from + index ==> buffer[i] == was[count - 1 - (i - from)]
      invariant forall i :: from + count - index <= i < from + count ==> buffer[i] == was[count - 1 - (i - from)]
      invariant forall i :: from + index <= i < from + count - index ==> buffer[i] == was[i - from]
      invariant forall k :: 0 <= k < buffer.Length && !(from <= k < from + count) ==> buffer[k] == old(buffer[k])
    {
      var temp := buffer[from + index];
      buffer[from + index] := buffer[from + count - index - 1];
      buffer[from + count - index - 1] := temp;
      index := index + 1;
    }
    ghost var now := buffer[from..from + count];
    forall k | 0 <= k < count ensures now[k] == Reversed(was)[k] {
      assert now[k] == buffer[from + k] == was[count - 1 - k];
    }
  }
}
