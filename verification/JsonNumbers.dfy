/** Numbers: what strtod takes of a text, described apart from how it is scanned, and what the parser makes of it. */
module JsonNumbers {
  import opened JsonSyntax
  import opened JsonGrammar
  import opened JsonRoundTrip

  predicate Digits(s: string) {
    forall i :: 0 <= i < |s| ==> IsDigit(s[i])
  }

  predicate SignText(s: string) {
    s == "" || s == "-" || s == "+"
  }

  predicate FractionText(s: string) {
    s == "" || (s[0] == '.' && Digits(s[1..]))
  }

  /** The pieces of a decimal number; the exponent's are its letter, its sign and its digits. */
  datatype Parts = Parts(sign: string, whole: string, fraction: string, letter: string, expSign: string, expDigits: string) {
    predicate Valid() {
      && SignText(sign) && Digits(whole) && FractionText(fraction) && (whole != "" || |fraction| > 1)
      && (if letter == "" then expSign == expDigits == ""
          else (letter == "e" || letter == "E") && SignText(expSign) && Digits(expDigits) && expDigits != "")
    }

    function Exponent(): string {
      letter + (expSign + expDigits)
    }

    function Text(): string {
      sign + (whole + (fraction + Exponent()))
    }

    /** Section 6 of RFC 8259: no plus sign and no needless zero in front, digits before and behind the point. */
    predicate Json() {
      && Valid() && sign != "+" && whole != "" && (whole[0] == '0' ==> |whole| == 1)
      && (fraction == "" || |fraction| > 1)
    }
  }

  // ---------- runs of digits

  lemma {:induction false} SpanIs(s: string, i: nat)
    requires i <= |s|
    ensures var n := DigitSpan(s, i); Digits(s[i..i + n]) && (i + n < |s| ==> !IsDigit(s[i + n]))
    decreases |s| - i
  {
    if i < |s| && IsDigit(s[i]) {
      SpanIs(s, i + 1);
      var n := DigitSpan(s, i + 1);
      assert s[i..i + 1 + n] == [s[i]] + s[i + 1..i + 1 + n];
    }
  }

  lemma {:induction false} SpanAtLeast(s: string, i: nat, n: nat)
    requires i + n <= |s| && Digits(s[i..i + n])
    ensures DigitSpan(s, i) >= n
    ensures DigitSpan(s, i) > n ==> i + n < |s| && IsDigit(s[i + n])
    decreases n
  {
    if n > 0 {
      assert s[i..i + n][0] == s[i];
      assert s[i..i + n][1..] == s[i + 1..i + n];
      SpanAtLeast(s, i + 1, n - 1);
    }
  }

  // ---------- no decimal number in front of the text is longer

  /** Where the pieces of a number at the front of `s` are. */
  lemma PiecesAt(s: string, p: Parts)
    requires Reads(s, 0, p.Text())
    ensures var a := |p.sign|; var b := a + |p.whole|; var c := b + |p.fraction|; var d := c + |p.letter|;
      var e := d + |p.expSign|;
      && e + |p.expDigits| == |p.Text()| <= |s|
      && Reads(s, 0, p.sign) && Reads(s, a, p.whole) && Reads(s, b, p.fraction) && Reads(s, c, p.letter) && Reads(s, d, p.expSign)
      && Reads(s, e, p.expDigits)
  {
    var c := |p.sign| + |p.whole| + |p.fraction|;
    hide Reads;
    ReadsConcat(s, 0, p.sign, p.whole + (p.fraction + p.Exponent()));
    ReadsConcat(s, |p.sign|, p.whole, p.fraction + p.Exponent());
    ReadsConcat(s, |p.sign| + |p.whole|, p.fraction, p.Exponent());
    ReadsConcat(s, c, p.letter, p.expSign + p.expDigits);
    ReadsConcat(s, c + |p.letter|, p.expSign, p.expDigits);
    Within(s, 0, p.Text());
  }

  lemma Within(s: string, i: nat, w: string)
    requires Reads(s, i, w)
    ensures i + |w| <= |s|
  {
  }

  lemma Prefix(s: string, w: string)
    requires w <= s
    ensures Reads(s, 0, w)
  {
  }

  predicate IsSign(c: char) {
    c == '-' || c == '+'
  }

  predicate IsLetter(c: char) {
    c == 'e' || c == 'E'
  }

  lemma Opens(s: string, i: nat, w: string)
    requires Reads(s, i, w)
    ensures i + |w| <= |s| && s[i..i + |w|] == w
    ensures w != "" ==> s[i] == w[0] && s[i + 1..i + |w|] == w[1..]
    ensures Digits(w) && w != "" ==> IsDigit(s[i])
  {
    if w != "" {
      assert s[i..i + |w|][0] == s[i] && s[i..i + |w|][1..] == s[i + 1..i + |w|];
    }
  }

  /** What stands at the borders of the pieces. */
  lemma FractionOpens(w: string)
    requires FractionText(w) && w != ""
    ensures w[0] == '.' && Digits(w[1..])
  {
  }

  lemma Borders(s: string, p: Parts)
    requires p.Valid() && p.Text() <= s
    ensures var a := |p.sign|; var b := a + |p.whole|; var c := b + |p.fraction|;
      && c + |p.Exponent()| == |p.Text()| <= |s| && a < |s|
      && a == (if IsSign(s[0]) then 1 else 0)
      && Digits(s[a..b]) && (p.fraction != "" ==> s[b] == '.' && Digits(s[b + 1..c]))
      && (p.letter != "" ==> IsLetter(s[c]))
  {
    hide Digits, Parts.Text, Reads, FractionText;
    Prefix(s, p.Text());
    PiecesAt(s, p);
    var a := |p.sign|;
    var b := a + |p.whole|;
    Opens(s, 0, p.sign);
    Opens(s, a, p.whole);
    Opens(s, b, p.fraction);
    Opens(s, b + |p.fraction|, p.letter);
    if p.fraction != "" {
      FractionOpens(p.fraction);
    }
  }

  lemma ExponentBorders(s: string, p: Parts)
    requires p.Valid() && p.Text() <= s && p.letter != ""
    ensures var c := |p.sign| + |p.whole| + |p.fraction|; var d := c + 1; var e := d + |p.expSign|;
      && c < d < |s| && IsLetter(s[c]) && e == (if IsSign(s[d]) then d + 1 else d)
      && e < e + |p.expDigits| == |p.Text()| <= |s| && Digits(s[e..|p.Text()|])
  {
    hide Digits, Parts.Text, Reads, FractionText;
    Prefix(s, p.Text());
    PiecesAt(s, p);
    var c := |p.sign| + |p.whole| + |p.fraction|;
    Opens(s, c, p.letter);
    Opens(s, c + 1, p.expSign);
    Opens(s, c + 1 + |p.expSign|, p.expDigits);
  }

  // ---------- the scan in stages

  function SignEnd(s: string): (a: nat)
    ensures a <= |s|
  {
    if s != "" && IsSign(s[0]) then 1 else 0
  }

  function WholeEnd(s: string): (b: nat)
    ensures SignEnd(s) <= b <= |s|
  {
    SignEnd(s) + DigitSpan(s, SignEnd(s))
  }

  function MantissaEnd(s: string): (c: nat)
    ensures WholeEnd(s) <= c <= |s|
  {
    var b := WholeEnd(s);
    if b < |s| && s[b] == '.' then b + 1 + DigitSpan(s, b + 1) else b
  }

  function ExponentSign(s: string, c: nat): (e: nat)
    requires c < |s|
    ensures c < e <= |s|
  {
    if c + 1 < |s| && IsSign(s[c + 1]) then c + 2 else c + 1
  }

  function NumberEnd(s: string, c: nat): (n: nat)
    requires c <= |s|
    ensures c <= n <= |s|
  {
    if c == |s| || !IsLetter(s[c]) then c
    else
      var e := ExponentSign(s, c);
      var digits := DigitSpan(s, e);
      if digits == 0 then c else e + digits
  }

  /** There is a digit before or behind the point. */
  predicate HasDigit(s: string) {
    SignEnd(s) < WholeEnd(s) || WholeEnd(s) + 1 < MantissaEnd(s)
  }

  lemma Stages(s: string)
    ensures StrtodLength(s) == if HasDigit(s) then NumberEnd(s, MantissaEnd(s)) else 0
  {
    hide DigitSpan;
  }

  lemma WholeReaches(s: string, p: Parts)
    requires p.Valid() && p.Text() <= s
    ensures var b := |p.sign| + |p.whole|; SignEnd(s) == |p.sign| && b <= WholeEnd(s)
    ensures var b := |p.sign| + |p.whole|; b < WholeEnd(s) ==> p.fraction == "" && p.letter == ""
  {
    Borders(s, p);
    SpanAtLeast(s, |p.sign|, |p.whole|);
    hide DigitSpan, Digits, Parts.Text;
  }

  lemma MantissaReaches(s: string, p: Parts)
    requires p.Valid() && p.Text() <= s && WholeEnd(s) == |p.sign| + |p.whole|
    ensures var c := |p.sign| + |p.whole| + |p.fraction|; c <= MantissaEnd(s) && (c < MantissaEnd(s) ==> p.letter == "")
  {
    Borders(s, p);
    if p.fraction != "" {
      SpanAtLeast(s, |p.sign| + |p.whole| + 1, |p.fraction| - 1);
    }
    hide DigitSpan, Digits, Parts.Text, WholeEnd, SignEnd;
  }

  lemma ExponentReaches(s: string, p: Parts)
    requires p.Valid() && p.Text() <= s && p.letter != ""
    ensures var c := |p.sign| + |p.whole| + |p.fraction|; c < |s| && |p.Text()| <= NumberEnd(s, c)
  {
    ExponentBorders(s, p);
    var c := |p.sign| + |p.whole| + |p.fraction|;
    SpanAtLeast(s, c + 1 + |p.expSign|, |p.expDigits|);
    hide DigitSpan, Digits, Parts.Valid, Parts.Text;
  }

  /** Of all decimal numbers at the front of a text, none is longer than what strtod takes. */
  lemma NoneIsLonger(s: string, p: Parts)
    requires p.Valid() && p.Text() <= s
    ensures |p.Text()| <= StrtodLength(s)
  {
    Stages(s);
    hide StrtodLength, SignEnd, WholeEnd, MantissaEnd, NumberEnd, Digits, FractionText, SignText, Parts.Text;
    WholeReaches(s, p);
    Borders(s, p);
    var b := |p.sign| + |p.whole|;
    if b == WholeEnd(s) {
      MantissaReaches(s, p);
    }
    if p.letter != "" {
      ExponentReaches(s, p);
    }
  }

  // ---------- and that is one

  /** The pieces of what strtod takes. */
  function Taken(s: string): (p: Parts)
    requires StrtodLength(s) > 0
  {
    var a, b, c := SignEnd(s), WholeEnd(s), MantissaEnd(s);
    var n := NumberEnd(s, c);
    if n == c then Parts(s[..a], s[a..b], s[b..c], "", "", "")
    else
      var e := ExponentSign(s, c);
      Parts(s[..a], s[a..b], s[b..c], [s[c]], s[c + 1..e], s[e..n])
  }

  lemma Rejoin(s: string, a: nat, b: nat, c: nat, d: nat, e: nat, n: nat)
    requires a <= b <= c <= d <= e <= n <= |s|
    ensures s[..a] + (s[a..b] + (s[b..c] + (s[c..d] + (s[d..e] + s[e..n])))) == s[..n]
  {
    assert s[d..n] == s[d..e] + s[e..n];
    assert s[c..n] == s[c..d] + s[d..n];
    assert s[b..n] == s[b..c] + s[c..n];
    assert s[a..n] == s[a..b] + s[b..n];
    assert s[..n] == s[..a] + s[a..n];
  }

  lemma MantissaIs(s: string)
    ensures var a, b, c := SignEnd(s), WholeEnd(s), MantissaEnd(s);
      SignText(s[..a]) && Digits(s[a..b]) && FractionText(s[b..c])
  {
    var a, b, c := SignEnd(s), WholeEnd(s), MantissaEnd(s);
    SpanIs(s, a);
    if c > b {
      SpanIs(s, b + 1);
      assert s[b..c][1..] == s[b + 1..c];
    }
    assert a == 1 ==> s[..a] == [s[0]];
    hide DigitSpan, Digits;
  }

  lemma ExponentIs(s: string, c: nat)
    requires c <= |s| && NumberEnd(s, c) > c
    ensures var e, n := ExponentSign(s, c), NumberEnd(s, c);
      c < |s| && IsLetter(s[c]) && e < n && SignText(s[c + 1..e]) && Digits(s[e..n])
  {
    var e := ExponentSign(s, c);
    SpanIs(s, e);
    assert e == c + 2 ==> s[c + 1..e] == [s[c + 1]];
    hide DigitSpan, Digits;
  }

  lemma MantissaAlone(s: string, a: nat, b: nat, c: nat)
    requires a <= b <= c <= |s| && SignText(s[..a]) && Digits(s[a..b]) && FractionText(s[b..c]) && (a < b || b + 1 < c)
    ensures var p := Parts(s[..a], s[a..b], s[b..c], "", "", ""); p.Valid() && p.Text() == s[..c]
  {
    var p := Parts(s[..a], s[a..b], s[b..c], "", "", "");
    assert s[..a] + (s[a..b] + s[b..c]) == s[..c];
    assert p.Exponent() == "" && s[b..c] + p.Exponent() == s[b..c];
    hide Digits, SignText, FractionText, Parts.Exponent;
  }

  lemma WithExponent(s: string, a: nat, b: nat, c: nat, e: nat, n: nat)
    requires a <= b <= c < e < n <= |s| && SignText(s[..a]) && Digits(s[a..b]) && FractionText(s[b..c])
    requires (a < b || b + 1 < c)
    requires IsLetter(s[c]) && SignText(s[c + 1..e]) && Digits(s[e..n])
    ensures var p := Parts(s[..a], s[a..b], s[b..c], [s[c]], s[c + 1..e], s[e..n]); p.Valid() && p.Text() == s[..n]
  {
    Rejoin(s, a, b, c, c + 1, e, n);
    assert s[c..c + 1] == [s[c]];
    hide Digits, SignText, FractionText;
  }

  lemma TakenIsANumber(s: string)
    requires StrtodLength(s) > 0
    ensures Taken(s).Valid() && Taken(s).Text() == s[..StrtodLength(s)]
  {
    Stages(s);
    hide StrtodLength;
    var a, b, c := SignEnd(s), WholeEnd(s), MantissaEnd(s);
    var n := NumberEnd(s, c);
    MantissaIs(s);
    if n > c {
      ExponentIs(s, c);
    }
    hide SignEnd, WholeEnd, MantissaEnd, NumberEnd, ExponentSign, Digits, SignText, FractionText, Parts.Valid, Parts.Text;
    if n == c {
      MantissaAlone(s, a, b, c);
    } else {
      WithExponent(s, a, b, c, ExponentSign(s, c), n);
    }
  }

  /** What strtod takes of a text is the longest decimal number at its front, or nothing if there is none. */
  lemma TakesTheLongest(s: string)
    ensures StrtodLength(s) > 0 ==> exists p: Parts :: p.Valid() && p.Text() == s[..StrtodLength(s)]
    ensures forall p: Parts :: p.Valid() && p.Text() <= s ==> 0 < |p.Text()| <= StrtodLength(s)
  {
    if StrtodLength(s) > 0 {
      TakenIsANumber(s);
      var p := Taken(s);
      assert p.Valid() && p.Text() == s[..StrtodLength(s)];
      hide StrtodLength;
    }
    forall p: Parts | p.Valid() && p.Text() <= s ensures 0 < |p.Text()| <= StrtodLength(s) {
      Borders(s, p);
      NoneIsLonger(s, p);
    }
  }

  /** A decimal number is taken whole. */
  lemma NumberIsTakenWhole(p: Parts)
    requires p.Valid()
    ensures StrtodLength(p.Text()) == |p.Text()| > 0
  {
    assert p.Text() <= p.Text();
    Borders(p.Text(), p);
    NoneIsLonger(p.Text(), p);
  }

  // ---------- what the parser makes of it

  lemma DigitsAndChars(a: string, b: string)
    requires (forall i :: 0 <= i < |a| ==> IsNumberChar(a[i])) && forall i :: 0 <= i < |b| ==> IsNumberChar(b[i])
    ensures forall i :: 0 <= i < |a + b| ==> IsNumberChar((a + b)[i])
  {
    hide IsNumberChar;
  }

  lemma NumberChars(p: Parts)
    requires p.Valid()
    ensures forall i :: 0 <= i < |p.Text()| ==> IsNumberChar(p.Text()[i])
  {
    assert forall i :: 0 <= i < |p.fraction| ==> IsNumberChar(p.fraction[i]) by {
      assert forall i :: 1 <= i < |p.fraction| ==> p.fraction[1..][i - 1] == p.fraction[i];
    }
    assert forall i :: 0 <= i < |p.whole| ==> IsNumberChar(p.whole[i]);
    assert forall i :: 0 <= i < |p.expDigits| ==> IsNumberChar(p.expDigits[i]);
    hide Digits, FractionText;
    DigitsAndChars(p.expSign, p.expDigits);
    DigitsAndChars(p.letter, p.expSign + p.expDigits);
    DigitsAndChars(p.fraction, p.Exponent());
    DigitsAndChars(p.whole, p.fraction + p.Exponent());
    DigitsAndChars(p.sign, p.whole + (p.fraction + p.Exponent()));
    hide IsNumberChar;
  }

  /** A decimal number of at most 63 characters, before anything that is no number character, is what the parser reads. */
  lemma NumberIsParsed(t: string, i: nat, p: Parts)
    requires Terminated(t) && i < |t| && p.Valid() && Reads(t, i, p.Text()) && |p.Text()| <= 63
    requires i + |p.Text()| < |t| && !IsNumberChar(t[i + |p.Text()|])
    ensures ParseNumber(t, i) == Ok(Number(p.Text()), i + |p.Text()|)
  {
    NumberChars(p);
    NumberIsTakenWhole(p);
    hide StrtodLength, IsNumberChar, Parts.Text, Parts.Valid;
    TokenIsParsed(t, i, p.Text());
  }

  lemma TokenIsParsed(t: string, i: nat, s: string)
    requires Terminated(t) && i < |t| && Reads(t, i, s) && |s| <= 63 && StrtodLength(s) == |s| > 0
    requires (forall k :: 0 <= k < |s| ==> IsNumberChar(s[k])) && i + |s| < |t| && !IsNumberChar(t[i + |s|])
    ensures ParseNumber(t, i) == Ok(Number(s), i + |s|)
  {
    hide StrtodLength, IsNumberChar;
    CharsAt(t, i, s);
    assert forall k :: i <= k < i + |s| ==> IsNumberChar(t[k]);
    NumberSpanIs(t, i, |s|, 63);
    hide NumberSpan;
  }

  lemma CharsAt(t: string, i: nat, s: string)
    requires Reads(t, i, s)
    ensures i + |s| <= |t| && t[i..i + |s|] == s && forall k :: i <= k < i + |s| ==> t[k] == s[k - i]
  {
    forall k | i <= k < i + |s| ensures t[k] == s[k - i] {
      assert t[i..i + |s|][k - i] == t[k];
    }
  }

  lemma JsonStart(p: Parts)
    requires p.Json()
    ensures p.Text() != "" && (p.Text()[0] == '-' || IsDigit(p.Text()[0]))
  {
    var s := p.Text();
    Borders(s, p);
    assert s[|p.sign|..|p.sign| + |p.whole|][0] == s[|p.sign|];
  }

  lemma NumberBranch(t: string, i: nat, depth: nat)
    requires Terminated(t) && i < |t| && (t[i] == '-' || IsDigit(t[i]))
    ensures ParseValue(t, i, depth) == ParseNumber(t, i)
  {
    hide ParseNumber, ParseArray, ParseObject, ParseString;
    if i + 4 <= |t| {
      assert t[i..i + 4][0] == t[i];
    }
    if i + 5 <= |t| {
      assert t[i..i + 5][0] == t[i];
    }
  }

  /** Every number of RFC 8259 of at most 63 characters is read as it stands, inside any text. */
  lemma JsonNumberIsParsed(t: string, i: nat, p: Parts, depth: nat)
    requires Terminated(t) && i < |t| && p.Json() && Reads(t, i, p.Text()) && |p.Text()| <= 63
    requires i + |p.Text()| < |t| && !IsNumberChar(t[i + |p.Text()|])
    ensures ParseValue(t, i, depth) == Ok(Number(p.Text()), i + |p.Text()|)
  {
    NumberIsParsed(t, i, p);
    JsonStart(p);
    CharsAt(t, i, p.Text());
    NumberBranch(t, i, depth);
    hide ParseValue, ParseNumber;
  }

  /** The numbers that the printer is taken to write: exactly the decimal numbers of at most 25 characters that begin with
      a digit or a minus sign. */
  lemma PrintedNumbers(s: string)
    ensures NumberText(s) <==> |s| <= 25 && exists p: Parts :: p.Valid() && p.Text() == s && (s[0] == '-' || IsDigit(s[0]))
  {
    if NumberText(s) {
      TakenIsANumber(s);
      assert s[..|s|] == s;
      var p := Taken(s);
      assert p.Valid() && p.Text() == s;
    }
    if p: Parts :| p.Valid() && p.Text() == s && |s| <= 25 && |s| > 0 && (s[0] == '-' || IsDigit(s[0])) {
      NumberIsTakenWhole(p);
      NumberChars(p);
    }
  }


  /** Every number of RFC 8259 of at most 25 characters is among them. */
  lemma ShortJsonNumbers(p: Parts)
    requires p.Json() && |p.Text()| <= 25
    ensures NumberText(p.Text())
  {
    JsonStart(p);
    var s := p.Text();
    assert p.Valid() && p.Text() == s;
    PrintedNumbers(s);
  }
}
