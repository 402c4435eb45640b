/** `\u` escapes: UTF-16 in, UTF-8 out, and which escapes the parser lets through. */
module JsonEscapes {
  import opened JsonSyntax
  import opened JsonGrammar

  predicate Continuation(c: char) {
    0x80 <= c as int < 0xC0
  }

  /** Reading UTF-8 back, section 3 of RFC 3629: the code point of a sequence and its length. */
  function Utf8Decode(s: string): (r: Parsed<nat>)
  {
    if s == "" then Fail
    else if s[0] as int < 0x80 then Ok(s[0] as int, 1)
    else if 0xC0 <= s[0] as int < 0xE0 && |s| >= 2 && Continuation(s[1]) then
      Ok((s[0] as int - 0xC0) * 0x40 + (s[1] as int - 0x80), 2)
    else if 0xE0 <= s[0] as int < 0xF0 && |s| >= 3 && Continuation(s[1]) && Continuation(s[2]) then
      Ok(((s[0] as int - 0xE0) * 0x40 + (s[1] as int - 0x80)) * 0x40 + (s[2] as int - 0x80), 3)
    else if 0xF0 <= s[0] as int < 0xF8 && |s| >= 4 && Continuation(s[1]) && Continuation(s[2]) && Continuation(s[3]) then
      Ok((((s[0] as int - 0xF0) * 0x40 + (s[1] as int - 0x80)) * 0x40 + (s[2] as int - 0x80)) * 0x40
         + (s[3] as int - 0x80), 4)
    else Fail
  }

  lemma SixBitGroups(cp: nat)
    ensures cp == cp / 0x40 * 0x40 + cp % 0x40
    ensures cp / 0x40 == cp / 0x1000 * 0x40 + cp / 0x40 % 0x40
    ensures cp / 0x1000 == cp / 0x40000 * 0x40 + cp / 0x1000 % 0x40
  {
  }

  lemma DecodeTwo(a: nat, b: nat, rest: string)
    requires a < 0x20 && b < 0x40
    ensures Utf8Decode([(0xC0 + a) as char, (0x80 + b) as char] + rest) == Ok(a * 0x40 + b, 2)
  {
  }

  lemma DecodeThree(a: nat, b: nat, c: nat, rest: string)
    requires a < 0x10 && b < 0x40 && c < 0x40
    ensures Utf8Decode([(0xE0 + a) as char, (0x80 + b) as char, (0x80 + c) as char] + rest)
         == Ok((a * 0x40 + b) * 0x40 + c, 3)
  {
  }

  lemma DecodeFour(a: nat, b: nat, c: nat, d: nat, rest: string)
    requires a < 8 && b < 0x40 && c < 0x40 && d < 0x40
    ensures Utf8Decode([(0xF0 + a) as char, (0x80 + b) as char, (0x80 + c) as char, (0x80 + d) as char] + rest)
         == Ok(((a * 0x40 + b) * 0x40 + c) * 0x40 + d, 4)
  {
  }

  /** UTF-8 decoding undoes encoding, whatever follows, and the encoding is the shortest one. */
  lemma Utf8IsReadBack(cp: nat, rest: string)
    requires cp <= 0x10FFFF
    ensures Utf8Decode(Utf8(cp) + rest) == Ok(cp, |Utf8(cp)|)
    ensures |Utf8(cp)| == if cp < 0x80 then 1 else if cp < 0x800 then 2 else if cp < 0x10000 then 3 else 4
  {
    hide Utf8Decode;
    SixBitGroups(cp);
    if cp < 0x80 {
      assert Utf8Decode([cp as char] + rest) == Ok(cp, 1) by { DecodeOne(cp, rest); }
    } else if cp < 0x800 {
      DecodeTwo(cp / 0x40, cp % 0x40, rest);
    } else if cp < 0x10000 {
      DecodeThree(cp / 0x1000, cp / 0x40 % 0x40, cp % 0x40, rest);
    } else {
      DecodeFour(cp / 0x40000, cp / 0x1000 % 0x40, cp / 0x40 % 0x40, cp % 0x40, rest);
    }
  }

  lemma DecodeOne(a: nat, rest: string)
    requires a < 0x80
    ensures Utf8Decode([a as char] + rest) == Ok(a, 1)
  {
  }

  predicate ScalarValue(cp: nat) {
    cp <= 0x10FFFF && !(0xD800 <= cp <= 0xDFFF)
  }

  function UpperDigit(d: nat): char
    requires d < 16
  {
    if d < 10 then ('0' as int + d) as char else ('A' as int + (d - 10)) as char
  }

  /** A hexadecimal digit in either case. */
  predicate Spells(c: char, d: nat)
    requires d < 16
  {
    c == HexDigit(d) || c == UpperDigit(d)
  }

  lemma SpelledValue(c: char, d: nat)
    requires d < 16 && Spells(c, d)
    ensures HexValue(c) == d
  {
  }

  predicate FourDigitsAt(t: string, p: nat, u: nat)
    requires u < 0x10000 && p + 4 <= |t|
  {
    Spells(t[p], u / 0x1000) && Spells(t[p + 1], u / 0x100 % 0x10) && Spells(t[p + 2], u / 0x10 % 0x10) && Spells(t[p + 3], u % 0x10)
  }

  function EscapeLength(cp: nat): nat {
    if cp < 0x10000 then 6 else 12
  }

  /** The escape for a code point, section 7 of RFC 8259: one `\u` sequence, or a surrogate pair. The digits may have
      either case, each for itself. */
  predicate EscapedAt(t: string, p: nat, cp: nat)
    requires ScalarValue(cp) && p + EscapeLength(cp) <= |t|
  {
    && t[p] == '\\' && t[p + 1] == 'u'
    && if cp < 0x10000 then FourDigitsAt(t, p + 2, cp)
       else FourDigitsAt(t, p + 2, 0xD800 + (cp - 0x10000) / 0x400) && t[p + 6] == '\\' && t[p + 7] == 'u'
            && FourDigitsAt(t, p + 8, 0xDC00 + (cp - 0x10000) % 0x400)
  }

  lemma HexDigits(u: nat)
    requires u < 0x10000
    ensures ((u / 0x1000 * 16 + u / 0x100 % 0x10) * 16 + u / 0x10 % 0x10) * 16 + u % 0x10 == u
  {
    assert u / 0x10 / 0x10 == u / 0x100 && u / 0x100 / 0x10 == u / 0x1000;
  }

  lemma FourDigitsAreRead(t: string, p: nat, u: nat)
    requires u < 0x10000 && p + 4 <= |t| && FourDigitsAt(t, p, u)
    ensures Hex4(t, p) == u && FourHexDigits(t, p)
  {
    hide Spells, HexValue;
    SpelledValue(t[p], u / 0x1000);
    SpelledValue(t[p + 1], u / 0x100 % 0x10);
    SpelledValue(t[p + 2], u / 0x10 % 0x10);
    SpelledValue(t[p + 3], u % 0x10);
    HexDigits(u);
  }

  /** Every Unicode scalar value, escaped in whatever case its digits are written, is decoded to itself. */
  lemma EscapeIsDecoded(t: string, p: nat, end: nat, cp: nat)
    requires ScalarValue(cp) && p + EscapeLength(cp) <= end < |t| && EscapedAt(t, p, cp)
    ensures Utf16Escape(t, p, end) == Decoded(cp, EscapeLength(cp))
  {
    hide Hex4, FourHexDigits, FourDigitsAt;
    if cp < 0x10000 {
      FourDigitsAreRead(t, p + 2, cp);
    } else {
      FourDigitsAreRead(t, p + 2, 0xD800 + (cp - 0x10000) / 0x400);
      FourDigitsAreRead(t, p + 8, 0xDC00 + (cp - 0x10000) % 0x400);
    }
  }

  /** An escape as section 7 of RFC 8259 wants it: four hexadecimal digits, surrogates only in pairs. */
  predicate WellFormedEscape(t: string, p: nat, end: nat)
    requires end < |t|
  {
    && p + 6 <= end && FourHexDigits(t, p + 2)
    && !LowSurrogate(Hex4(t, p + 2))
    && (HighSurrogate(Hex4(t, p + 2)) ==>
        p + 12 <= end && t[p + 6] == '\\' && t[p + 7] == 'u' && LowSurrogate(Hex4(t, p + 8)))
  }

  /** A decoded code point is always a Unicode scalar value: no lone surrogate gets through. The escapes
      accepted beyond the well-formed ones are exactly those with six characters of room whose four
      characters are not all hexadecimal digits; they are read as the NUL character. */
  lemma AcceptedEscapes(t: string, p: nat, end: nat)
    requires p < end < |t|
    ensures var r := Utf16Escape(t, p, end);
      && (r.Decoded? ==> ScalarValue(r.codepoint))
      && (r.Decoded? <==> WellFormedEscape(t, p, end) || (p + 6 <= end && !FourHexDigits(t, p + 2)))
      && (p + 6 <= end && !FourHexDigits(t, p + 2) ==> r == Decoded(0, 6))
  {
  }

  /** Four characters that are no digits pass as a NUL. */
  lemma MalformedEscapeIsAccepted()
    ensures var t := "\"\\uzzzz\"" + [NUL]; ParseString(t, 0) == Ok([NUL], 8)
  {
    var t := "\"\\uzzzz\"" + [NUL];
    assert t[1] == '\\' && t[2] == 'u' && t[3] == 'z' && t[7] == '"';
    assert ClosingQuote(t, 1) == ClosingQuote(t, 3) == ClosingQuote(t, 4) == ClosingQuote(t, 5)
        == ClosingQuote(t, 6) == ClosingQuote(t, 7);
    assert !FourHexDigits(t, 3) by { assert HexValue(t[3]) < 0; }
    assert Unescape(t, 7, 7) == Ok("", 7);
    assert Utf8(0) + "" == [NUL];
  }
}
