/** What the parser's functions compute, as functions of the text and of the position they start at.
    A text ends with the NUL that cJSON_ParseWithOpts counts into the buffer's length. */
module JsonGrammar {
  import opened JsonSyntax

  const NESTING_LIMIT := 1000

  datatype Parsed<+T> = Fail | Ok(value: T, next: nat)

  predicate Terminated(t: string) {
    t != "" && t[|t| - 1] == NUL
  }

  // ---------- whitespace, literals and numbers

  function WhitespaceEnd(t: string, i: nat): (r: nat)
    requires i <= |t|
    ensures i <= r <= |t|
    ensures r < |t| ==> t[r] as int > 32
    ensures forall k :: i <= k < r ==> t[k] as int <= 32
    decreases |t| - i
  {
    if i < |t| && t[i] as int <= 32 then WhitespaceEnd(t, i + 1) else i
  }

  /** buffer_skip_whitespace steps back onto the last byte when everything left is white space. */
  function Skip(t: string, i: nat): (r: nat)
    requires Terminated(t) && i < |t|
    ensures i <= r < |t|
  {
    var e := WhitespaceEnd(t, i);
    if e == |t| then e - 1 else e
  }

  predicate Reads(t: string, i: nat, word: string) {
    i + |word| <= |t| && t[i..i + |word|] == word
  }

  function NumberSpan(t: string, i: nat, limit: nat): (n: nat)
    requires i <= |t|
    ensures n <= limit && i + n <= |t|
    ensures forall k :: i <= k < i + n ==> IsNumberChar(t[k])
    ensures n < limit && i + n < |t| ==> !IsNumberChar(t[i + n])
    decreases limit
  {
    if limit > 0 && i < |t| && IsNumberChar(t[i]) then 1 + NumberSpan(t, i + 1, limit - 1) else 0
  }

  lemma {:induction false} NumberSpanIs(t: string, i: nat, n: nat, limit: nat)
    requires n <= limit && i + n <= |t|
    requires forall k :: i <= k < i + n ==> IsNumberChar(t[k])
    requires n == limit || i + n == |t| || !IsNumberChar(t[i + n])
    ensures NumberSpan(t, i, limit) == n
    decreases n
  {
    hide IsNumberChar;
    if n > 0 { NumberSpanIs(t, i + 1, n - 1, limit - 1); }
  }

  function ParseNumber(t: string, i: nat): (r: Parsed<Json>)
    requires Terminated(t) && i < |t|
    ensures r.Ok? ==> i < r.next < |t| && r.value.Number?
  {
    var span := NumberSpan(t, i, 63);
    assert span > 0 ==> t[i + span - 1] != NUL;
    var n := StrtodLength(t[i..i + span]);
    if n == 0 then Fail else Ok(Number(t[i..i + n]), i + n)
  }

  // ---------- strings

  /** Where the string literal whose first character is at `p` ends: its closing quote. */
  function ClosingQuote(t: string, p: nat): (r: Parsed<()>)
    requires p <= |t|
    ensures r.Ok? ==> p <= r.next < |t| && t[r.next] == '"'
    decreases |t| - p
  {
    if p == |t| then Fail
    else if t[p] == '"' then Ok((), p)
    else if t[p] == '\\' then
      if p + 1 == |t| then Fail else ClosingQuote(t, p + 2)
    else ClosingQuote(t, p + 1)
  }

  function HexValue(c: char): (d: int)
    ensures -1 <= d < 16
  {
    if '0' <= c <= '9' then c as int - '0' as int
    else if 'A' <= c <= 'F' then 10 + c as int - 'A' as int
    else if 'a' <= c <= 'f' then 10 + c as int - 'a' as int
    else -1
  }

  lemma HexDigitValue(d: nat)
    requires d < 16
    ensures HexValue(HexDigit(d)) == d
  {
  }

  predicate FourHexDigits(t: string, p: nat)
    requires p + 4 <= |t|
  {
    forall k :: p <= k < p + 4 ==> HexValue(t[k]) >= 0
  }

  /** parse_hex4 answers 0 when one of the four characters is no hexadecimal digit. */
  function Hex4(t: string, p: nat): (h: nat)
    requires p + 4 <= |t|
    ensures h < 0x10000
  {
    if FourHexDigits(t, p) then
      ((HexValue(t[p]) * 16 + HexValue(t[p + 1])) * 16 + HexValue(t[p + 2])) * 16 + HexValue(t[p + 3])
    else 0
  }

  /** UTF-8, section 3 of RFC 3629. */
  function Utf8(cp: nat): (r: string)
    requires cp <= 0x10FFFF
    ensures 1 <= |r| <= 4
  {
    if cp < 0x80 then [cp as char]
    else if cp < 0x800 then [(0xC0 + cp / 0x40) as char, (0x80 + cp % 0x40) as char]
    else if cp < 0x10000 then
      [(0xE0 + cp / 0x1000) as char, (0x80 + cp / 0x40 % 0x40) as char, (0x80 + cp % 0x40) as char]
    else
      [(0xF0 + cp / 0x40000) as char, (0x80 + cp / 0x1000 % 0x40) as char,
       (0x80 + cp / 0x40 % 0x40) as char, (0x80 + cp % 0x40) as char]
  }

  predicate HighSurrogate(u: nat) { 0xD800 <= u <= 0xDBFF }

  predicate LowSurrogate(u: nat) { 0xDC00 <= u <= 0xDFFF }

  datatype Escaped = Malformed | Decoded(codepoint: nat, length: nat)

  /** The `\u` escape at `p` in a literal that ends at `end`: its code point and how much it spans. */
  function Utf16Escape(t: string, p: nat, end: nat): (r: Escaped)
    requires end < |t|
    ensures r.Decoded? ==> r.codepoint <= 0x10FFFF && (r.length == 6 || r.length == 12) && p + r.length <= end
  {
    if p + 6 > end then Malformed
    else
      var first := Hex4(t, p + 2);
      if LowSurrogate(first) then Malformed
      else if HighSurrogate(first) then
        if p + 12 > end || t[p + 6] != '\\' || t[p + 7] != 'u' then Malformed
        else
          var second := Hex4(t, p + 8);
          if LowSurrogate(second) then Decoded(0x10000 + first % 0x400 * 0x400 + second % 0x400, 12)
          else Malformed
      else Decoded(first, 6)
  }

  /** The character that a two-character escape stands for. */
  function SimpleEscape(c: char): (r: Parsed<char>) {
    match c
    case 'b' => Ok(8 as char, 2)
    case 'f' => Ok(12 as char, 2)
    case 'n' => Ok('\n', 2)
    case 'r' => Ok('\r', 2)
    case 't' => Ok('\t', 2)
    case '"' => Ok('"', 2)
    case '\\' => Ok('\\', 2)
    case '/' => Ok('/', 2)
    case _ => Fail
  }

  /** The next step of reading a literal: the bytes it stores and the position after it. */
  function LiteralStep(t: string, p: nat, end: nat): (r: Parsed<string>)
    requires p < end < |t|
    ensures r.Ok? ==> p < r.next <= end + 1
  {
    if t[p] != '\\' then Ok([t[p]], p + 1)
    else if t[p + 1] == 'u' then
      match Utf16Escape(t, p, end)
      case Malformed => Fail
      case Decoded(cp, length) => Ok(Utf8(cp), p + length)
    else
      match SimpleEscape(t[p + 1])
      case Fail => Fail
      case Ok(c, length) => Ok([c], p + length)
  }

  /** The bytes that the literal from `p` to the closing quote at `end` stands for. */
  function Unescape(t: string, p: nat, end: nat): (r: Parsed<string>)
    requires end < |t|
    decreases end + 1 - p
  {
    if p >= end then Ok("", p)
    else
      match LiteralStep(t, p, end)
      case Fail => Fail
      case Ok(bytes, q) =>
        match Unescape(t, q, end)
        case Fail => Fail
        case Ok(rest, e) => Ok(bytes + rest, e)
  }

  function ParseString(t: string, i: nat): (r: Parsed<string>)
    requires Terminated(t) && i < |t|
    ensures r.Ok? ==> i < r.next < |t|
  {
    if t[i] != '"' then Fail
    else
      match ClosingQuote(t, i + 1)
      case Fail => Fail
      case Ok(_, end) =>
        match Unescape(t, i + 1, end)
        case Fail => Fail
        case Ok(bytes, _) => Ok(bytes, end + 1)
  }

  // ---------- values

  function ParseValue(t: string, i: nat, depth: nat): (r: Parsed<Json>)
    requires Terminated(t) && i < |t|
    ensures r.Ok? ==> i < r.next < |t|
    decreases NESTING_LIMIT - depth, 2, 0
  {
    if Reads(t, i, "null") then Ok(Null, i + 4)
    else if Reads(t, i, "false") then Ok(False, i + 5)
    else if Reads(t, i, "true") then Ok(True, i + 4)
    else if t[i] == '"' then
      match ParseString(t, i)
      case Fail => Fail
      case Ok(bytes, next) => Ok(String(bytes), next)
    else if t[i] == '-' || IsDigit(t[i]) then ParseNumber(t, i)
    else if t[i] == '[' then ParseArray(t, i, depth)
    else if t[i] == '{' then ParseObject(t, i, depth)
    else Fail
  }

  function ParseArray(t: string, i: nat, depth: nat): (r: Parsed<Json>)
    requires Terminated(t) && i < |t| && t[i] == '['
    ensures r.Ok? ==> i < r.next < |t|
    decreases NESTING_LIMIT - depth, 1, 0
  {
    if depth >= NESTING_LIMIT then Fail
    else
      var j := Skip(t, i + 1);
      if t[j] == ']' then Ok(Array([]), j + 1)
      else
        match ParseItems(t, j, depth + 1)
        case Fail => Fail
        case Ok(items, next) => Ok(Array(items), next)
  }

  /** The items of an array from the one at `i` to the closing bracket. */
  function ParseItems(t: string, i: nat, depth: nat): (r: Parsed<seq<Json>>)
    requires Terminated(t) && i < |t|
    requires depth <= NESTING_LIMIT
    ensures r.Ok? ==> i < r.next < |t|
    decreases NESTING_LIMIT - depth, 3, |t| - i
  {
    match ParseValue(t, i, depth)
    case Fail => Fail
    case Ok(item, next) =>
      var k := Skip(t, next);
      if t[k] == ',' then
        match ParseItems(t, Skip(t, k + 1), depth)
        case Fail => Fail
        case Ok(items, end) => Ok([item] + items, end)
      else if t[k] == ']' then Ok([item], k + 1)
      else Fail
  }

  function ParseObject(t: string, i: nat, depth: nat): (r: Parsed<Json>)
    requires Terminated(t) && i < |t| && t[i] == '{'
    ensures r.Ok? ==> i < r.next < |t|
    decreases NESTING_LIMIT - depth, 1, 0
  {
    if depth >= NESTING_LIMIT then Fail
    else
      var j := Skip(t, i + 1);
      if t[j] == '}' then Ok(Object([]), j + 1)
      else
        match ParseMembers(t, j, depth + 1)
        case Fail => Fail
        case Ok(members, next) => Ok(Object(members), next)
  }

  function ParseMember(t: string, i: nat, depth: nat): (r: Parsed<Member>)
    requires Terminated(t) && i < |t|
    requires depth <= NESTING_LIMIT
    ensures r.Ok? ==> i < r.next < |t|
    decreases NESTING_LIMIT - depth, 3, 0
  {
    match ParseString(t, i)
    case Fail => Fail
    case Ok(name, next) =>
      var k := Skip(t, next);
      if t[k] != ':' then Fail
      else
        match ParseValue(t, Skip(t, k + 1), depth)
        case Fail => Fail
        case Ok(value, end) => Ok(Member(name, value), end)
  }

  /** The members of an object from the one at `i` to the closing brace. */
  function ParseMembers(t: string, i: nat, depth: nat): (r: Parsed<seq<Member>>)
    requires Terminated(t) && i < |t|
    requires depth <= NESTING_LIMIT
    ensures r.Ok? ==> i < r.next < |t|
    decreases NESTING_LIMIT - depth, 4, |t| - i
  {
    match ParseMember(t, i, depth)
    case Fail => Fail
    case Ok(m, next) =>
      var k := Skip(t, next);
      if t[k] == ',' then
        match ParseMembers(t, Skip(t, k + 1), depth)
        case Fail => Fail
        case Ok(members, end) => Ok([m] + members, end)
      else if t[k] == '}' then Ok([m], k + 1)
      else Fail
  }

  /** cJSON_ParseWithOpts: a leading byte order mark and white space are skipped; with `wholeText`
      nothing but white space may follow the value. */
  function ParseText(value: string, wholeText: bool): (r: Parsed<Json>)
    ensures r.Ok? ==> r.next <= |value|
  {
    var t := value + [NUL];
    var start := if 4 < |t| && t[..3] == BYTE_ORDER_MARK then 3 else 0;
    match ParseValue(t, Skip(t, start), 0)
    case Fail => Fail
    case Ok(v, next) =>
      if !wholeText then Ok(v, next)
      else
        var end := Skip(t, next);
        if t[end] == NUL then Ok(v, end) else Fail
  }

  const BYTE_ORDER_MARK: string := [0xEF as char, 0xBB as char, 0xBF as char]
}
