/** The parser over its buffer: offset and depth move in place, string bytes go into an allocated array
    sized by a first pass. Each method is proved to compute the function of JsonGrammar it stands for. */
module JsonParser {
  import opened JsonSyntax
  import G = JsonGrammar

  // ---------- how much a literal needs

  /** Room needed by the literal from `p`: one byte per character that does not open an escape pair of
      the first pass; `second` tells that `p` is the second character of such a pair. */
  ghost function Room(t: string, p: nat, end: nat, second: bool): nat
    requires end <= |t|
    decreases end - p
  {
    if p >= end then 0
    else if !second && t[p] == '\\' then Room(t, p + 1, end, true)
    else 1 + Room(t, p + 1, end, false)
  }

  ghost predicate OpensPair(t: string, p: nat, second: bool)
    requires p < |t|
  {
    !second && t[p] == '\\'
  }

  /** The first pass, started at `p` in the given state, stops at `end` between two steps. */
  ghost predicate StopsAt(t: string, p: nat, end: nat, second: bool)
    requires end <= |t|
    decreases end - p
  {
    if p >= end then p == end && !second else StopsAt(t, p + 1, end, OpensPair(t, p, second))
  }

  /** The backslashes the first pass counts from `p` to `end`. */
  ghost function Skipped(t: string, p: nat, end: nat): nat
    requires end <= |t|
    decreases end - p
  {
    if p >= end then 0
    else if t[p] == '\\' then 1 + Skipped(t, p + 2, end)
    else Skipped(t, p + 1, end)
  }

  lemma {:induction false} FirstPass(t: string, p: nat, end: nat)
    requires p <= |t| && G.ClosingQuote(t, p) == G.Ok((), end)
    ensures StopsAt(t, p, end, false)
    ensures Room(t, p, end, false) + Skipped(t, p, end) == end - p
    decreases |t| - p
  {
    if t[p] == '\\' {
      FirstPass(t, p + 2, end);
      assert StopsAt(t, p + 1, end, true) && Room(t, p + 1, end, true) == 1 + Room(t, p + 2, end, false);
    } else if t[p] != '"' {
      FirstPass(t, p + 1, end);
    }
  }

  /** Whatever the state, two characters leave room for at least one byte. */
  lemma RoomDrops(t: string, p: nat, end: nat, second: bool) returns (then_: bool)
    requires p + 2 <= end <= |t| && StopsAt(t, p, end, second)
    ensures StopsAt(t, p + 2, end, then_) && Room(t, p, end, second) >= 1 + Room(t, p + 2, end, then_)
  {
    var middle := OpensPair(t, p, second);
    then_ := OpensPair(t, p + 1, middle);
    assert StopsAt(t, p + 1, end, middle);
  }

  lemma {:induction false} RoomDropsBy(t: string, p: nat, end: nat, second: bool, pairs: nat) returns (then_: bool)
    requires p + 2 * pairs <= end <= |t| && StopsAt(t, p, end, second)
    ensures StopsAt(t, p + 2 * pairs, end, then_)
    ensures Room(t, p, end, second) >= pairs + Room(t, p + 2 * pairs, end, then_)
    decreases pairs
  {
    then_ := second;
    if pairs > 0 {
      var next := RoomDrops(t, p, end, second);
      then_ := RoomDropsBy(t, p + 2, end, next, pairs - 1);
    }
  }

  /** The first pass bounds the second: a step of the second pass, wherever the first pass was there,
      stores no more than the room it gives up, also when the two passes split the escapes differently. */
  lemma StepFits(t: string, p: nat, end: nat, second: bool) returns (then_: bool)
    requires p < end < |t| && StopsAt(t, p, end, second)
    requires G.LiteralStep(t, p, end).Ok?
    ensures var r := G.LiteralStep(t, p, end);
      && (r.next <= end ==> StopsAt(t, r.next, end, then_))
      && Room(t, p, end, second) >= |r.value| + (if r.next <= end then Room(t, r.next, end, then_) else 0)
  {
    var r := G.LiteralStep(t, p, end);
    then_ := false;
    if t[p] != '\\' {
    } else if t[p + 1] == 'u' {
      then_ := RoomDropsBy(t, p, end, second, (r.next - p) / 2);
      assert |r.value| <= (if r.next - p == 6 then 3 else 4) by { EscapeSize(t, p, end); }
    } else if p + 2 <= end {
      then_ := RoomDrops(t, p, end, second);
    } else {
      assert !OpensPair(t, p, second);
    }
  }

  lemma {:induction false} SecondPassFits(t: string, p: nat, end: nat, second: bool)
    requires p <= end < |t| && StopsAt(t, p, end, second)
    ensures G.Unescape(t, p, end).Ok? ==> |G.Unescape(t, p, end).value| <= Room(t, p, end, second)
    decreases end - p
  {
    hide G.LiteralStep;
    if p < end && G.LiteralStep(t, p, end).Ok? {
      var r := G.LiteralStep(t, p, end);
      var then_ := StepFits(t, p, end, second);
      if r.next <= end {
        SecondPassFits(t, r.next, end, then_);
      }
    }
  }

  /** For every input, well-formed or not, the bytes that the second pass stores are no more than the literal's
      length less the backslashes that the first pass skipped: with the terminator they fit the allocation. */
  lemma LiteralFits(t: string, p: nat, end: nat)
    requires p <= |t| && end < |t| && G.ClosingQuote(t, p) == G.Ok((), end) && G.Unescape(t, p, end).Ok?
    ensures |G.Unescape(t, p, end).value| + Skipped(t, p, end) <= end - p
  {
    hide G.LiteralStep;
    FirstPass(t, p, end);
    SecondPassFits(t, p, end, false);
  }

  lemma EscapeSize(t: string, p: nat, end: nat)
    requires end < |t|
    ensures var r := G.Utf16Escape(t, p, end);
      r.Decoded? ==> |G.Utf8(r.codepoint)| <= (if r.length == 6 then 3 else 4)
  {
    hide G.Hex4, G.FourHexDigits;
  }

  function Prepend<T>(xs: seq<T>, r: G.Parsed<seq<T>>): G.Parsed<seq<T>> {
    match r
    case Fail => G.Fail
    case Ok(ys, next) => G.Ok(xs + ys, next)
  }

  lemma PrependNothing<T>(r: G.Parsed<seq<T>>)
    ensures Prepend([], r) == r
  {
    if r.Ok? { assert [] + r.value == r.value; }
  }

  lemma PrependTwice<T>(xs: seq<T>, x: T, r: G.Parsed<seq<T>>)
    ensures Prepend(xs + [x], r) == Prepend(xs, Prepend([x], r))
  {
    if r.Ok? { assert xs + [x] + r.value == xs + ([x] + r.value); }
  }

  lemma PrependFails<T>(xs: seq<T>)
    ensures Prepend(xs, G.Fail) == G.Fail
  {
  }

  lemma PrependLast<T>(xs: seq<T>, x: T, next: nat)
    ensures Prepend(xs, G.Ok([x], next)) == G.Ok(xs + [x], next)
  {
  }

  /** What one item, or one member, makes of the list that it starts. */
  lemma UnfoldItems(t: string, i: nat, depth: nat)
    requires G.Terminated(t) && i < |t| && depth <= G.NESTING_LIMIT
    ensures var v := G.ParseValue(t, i, depth);
      G.ParseItems(t, i, depth) ==
        if v.Fail? then G.Fail
        else
          var k := G.Skip(t, v.next);
          if t[k] == ',' then Prepend([v.value], G.ParseItems(t, G.Skip(t, k + 1), depth))
          else if t[k] == ']' then G.Ok([v.value], k + 1)
          else G.Fail
  {
    hide G.ParseValue, G.Skip;
  }

  lemma UnfoldMembers(t: string, i: nat, depth: nat)
    requires G.Terminated(t) && i < |t| && depth <= G.NESTING_LIMIT
    ensures var v := G.ParseMember(t, i, depth);
      G.ParseMembers(t, i, depth) ==
        if v.Fail? then G.Fail
        else
          var k := G.Skip(t, v.next);
          if t[k] == ',' then Prepend([v.value], G.ParseMembers(t, G.Skip(t, k + 1), depth))
          else if t[k] == '}' then G.Ok([v.value], k + 1)
          else G.Fail
  {
    hide G.ParseMember, G.Skip;
  }

  /** Skipping white space again, from where it stopped, does not move. */
  lemma SkipTwice(t: string, i: nat)
    requires G.Terminated(t) && i < |t|
    ensures G.Skip(t, G.Skip(t, i)) == G.Skip(t, i)
  {
    var j := G.Skip(t, i);
    if t[j] as int <= 32 { assert G.WhitespaceEnd(t, j + 1) == |t|; }
  }

  // ---------- the buffer

  class ParseBuffer {
    const content: string
    var offset: nat
    var depth: nat

    constructor (text: string)
      ensures content == text + [NUL] && offset == 0 && depth == 0
    {
      content := text + [NUL];
      offset := 0;
      depth := 0;
    }

    ghost predicate Valid()
      reads this
    {
      G.Terminated(content) && offset < |content| && depth <= G.NESTING_LIMIT
    }

    method BufferSkipWhitespace()
      requires Valid()
      modifies this`offset
      ensures Valid() && offset == G.Skip(content, old(offset))
    {
      while offset < |content| && content[offset] as int <= 32
        invariant old(offset) <= offset <= |content|
        invariant G.WhitespaceEnd(content, offset) == G.WhitespaceEnd(content, old(offset))
        decreases |content| - offset
      {
        offset := offset + 1;
      }
      if offset == |content| {
        offset := offset - 1;
      }
    }

    method ParseHex4(input: nat) returns (h: nat)
      requires input + 4 <= |content|
      ensures h == G.Hex4(content, input)
    {
      h := 0;
      for i := 0 to 4
        invariant forall k :: input <= k < input + i ==> G.HexValue(content[k]) >= 0
        invariant i == 0 ==> h == 0
        invariant i == 1 ==> h == G.HexValue(content[input]) * 16
        invariant i == 2 ==> h == (G.HexValue(content[input]) * 16 + G.HexValue(content[input + 1])) * 16
        invariant i == 3 ==> h == ((G.HexValue(content[input]) * 16 + G.HexValue(content[input + 1])) * 16
                                   + G.HexValue(content[input + 2])) * 16
        invariant i == 4 ==> h == ((G.HexValue(content[input]) * 16 + G.HexValue(content[input + 1])) * 16
                                   + G.HexValue(content[input + 2])) * 16 + G.HexValue(content[input + 3])
      {
        var c := content[input + i];
        if '0' <= c <= '9' {
          h := h + (c as int - '0' as int);
        } else if 'A' <= c <= 'F' {
          h := h + 10 + c as int - 'A' as int;
        } else if 'a' <= c <= 'f' {
          h := h + 10 + c as int - 'a' as int;
        } else {
          assert G.HexValue(content[input + i]) < 0;
          return 0;
        }
        if i < 3 {
          h := h * 16;
        }
      }
    }

    /** Stores the UTF-8 of the escape at `input` from `pos` on; `length` 0 reports a refused escape. */
    method Utf16LiteralToUtf8(input: nat, end: nat, output: array<char>, pos: nat) returns (length: nat, pos': nat)
      requires input < end < |content|
      requires G.Utf16Escape(content, input, end).Decoded? ==>
                 pos + |G.Utf8(G.Utf16Escape(content, input, end).codepoint)| <= output.Length
      modifies output
      ensures length == 0 <==> G.Utf16Escape(content, input, end).Malformed?
      ensures var r := G.Utf16Escape(content, input, end);
        r.Decoded? ==>
          && length == r.length && pos' == pos + |G.Utf8(r.codepoint)| <= output.Length
          && output[..pos'] == old(output[..pos]) + G.Utf8(r.codepoint)
    {
      hide G.Utf8, G.Utf16Escape;
      pos' := pos;
      var codepoint;
      length, codepoint := ReadEscape(input, end);
      if length > 0 {
        pos' := EncodeUtf8(codepoint, output, pos);
      }
    }

    /** The first half of utf16_literal_to_utf8: the code point, from one unit or a surrogate pair. */
    method ReadEscape(input: nat, end: nat) returns (length: nat, codepoint: nat)
      requires input < end < |content|
      ensures var r := G.Utf16Escape(content, input, end);
        if r.Malformed? then length == 0 else length == r.length > 0 && codepoint == r.codepoint
    {
      hide G.Hex4;
      length, codepoint := 0, 0;
      if end - input < 6 {
        return;
      }
      var firstCode := ParseHex4(input + 2);
      if 0xDC00 <= firstCode <= 0xDFFF {
        return;
      }
      if 0xD800 <= firstCode <= 0xDBFF {
        var second := input + 6;
        if end - second < 6 {
          return;
        }
        if content[second] != '\\' || content[second + 1] != 'u' {
          return;
        }
        var secondCode := ParseHex4(second + 2);
        if secondCode < 0xDC00 || secondCode > 0xDFFF {
          return;
        }
        return 12, 0x10000 + firstCode % 0x400 * 0x400 + secondCode % 0x400;
      }
      return 6, firstCode;
    }

    /** The encoding tail of utf16_literal_to_utf8: continuation bytes from the last one back, six bits
        at a time, then the first byte. */
    static method EncodeUtf8(codepoint: nat, output: array<char>, pos: nat) returns (pos': nat)
      requires codepoint <= 0x10FFFF && pos + |G.Utf8(codepoint)| <= output.Length
      modifies output
      ensures pos' == pos + |G.Utf8(codepoint)|
      ensures output[..pos'] == old(output[..pos]) + G.Utf8(codepoint)
    {
      var length, firstByteMark := 1, 0;
      if codepoint < 0x80 {
      } else if codepoint < 0x800 {
        length, firstByteMark := 2, 0xC0;
      } else if codepoint < 0x10000 {
        length, firstByteMark := 3, 0xE0;
      } else {
        length, firstByteMark := 4, 0xF0;
      }
      Utf8Bytes(codepoint);
      ghost var utf8 := G.Utf8(codepoint);
      hide G.Utf8, Sextets;
      var rest := FillBack(codepoint, output, pos, length, utf8);
      output[pos] := (firstByteMark + rest) as char;
      pos' := pos + length;
      Stored(output[..], old(output[..pos]), utf8);
    }

    static lemma Stored(all: string, before: string, text: string)
      requires |before| + |text| <= |all| && all[..|before|] == before
      requires forall k :: 0 <= k < |text| ==> all[|before| + k] == text[k]
      ensures all[..|before| + |text|] == before + text
    {
      var w := all[..|before| + |text|];
      forall k | 0 <= k < |w| ensures w[k] == (before + text)[k] {
        if k < |before| {
          assert all[..|before|][k] == all[k];
        } else {
          assert all[|before| + (k - |before|)] == text[k - |before|];
        }
      }
    }

    /** The continuation bytes, from the last one back; `rest` is what is left of the code point. */
    static method FillBack(codepoint: nat, output: array<char>, pos: nat, length: nat, ghost utf8: string) returns (rest: nat)
      requires codepoint <= 0x10FFFF && utf8 == G.Utf8(codepoint) && length == |utf8| && pos + length <= output.Length
      modifies output
      ensures rest == Sextets(codepoint, length - 1) && output[..pos] == old(output[..pos])
      ensures forall k :: 0 < k < length ==> output[pos + k] == utf8[k]
    {
      Utf8Bytes(codepoint);
      hide G.Utf8, Sextets;
      rest := codepoint;
      var i := length - 1;
      while i > 0
        invariant 0 <= i < length && rest == Sextets(codepoint, length - 1 - i)
        invariant output[..pos] == old(output[..pos])
        invariant forall k :: i < k < length ==> output[pos + k] == utf8[k]
      {
        output[pos + i] := (0x80 + rest % 0x40) as char;
        i, rest := i - 1, rest / 0x40;
      }
    }

    static function Mark(length: nat): nat {
      if length <= 1 then 0 else if length == 2 then 0xC0 else if length == 3 then 0xE0 else 0xF0
    }

    /** The bytes of a code point's UTF-8, six bits at a time. */
    static lemma Utf8Bytes(cp: nat)
      requires cp <= 0x10FFFF
      ensures var u := G.Utf8(cp); var n := |u|;
        && n == (if cp < 0x80 then 1 else if cp < 0x800 then 2 else if cp < 0x10000 then 3 else 4)
        && Mark(n) + Sextets(cp, n - 1) < 0x100 && u[0] == (Mark(n) + Sextets(cp, n - 1)) as char
        && forall k :: 0 < k < n ==> u[k] == (0x80 + Sextets(cp, n - 1 - k) % 0x40) as char
      ensures Sextets(cp, 0) == cp && forall k :: 0 <= k < 3 ==> Sextets(cp, k + 1) == Sextets(cp, k) / 0x40
    {
    }

    static function Sextets(cp: nat, n: nat): nat {
      if n == 0 then cp else if n == 1 then cp / 0x40 else if n == 2 then cp / 0x1000 else cp / 0x40000
    }

    /** The first pass of parse_string: the closing quote and the number of backslashes that open a pair. */
    method MeasureLiteral(start: nat) returns (ok: bool, end: nat, skipped: nat)
      requires Valid() && start <= |content|
      ensures ok == G.ClosingQuote(content, start).Ok?
      ensures ok ==> G.ClosingQuote(content, start) == G.Ok((), end) && skipped == Skipped(content, start, end)
    {
      ghost var quote := G.ClosingQuote(content, start);
      end, skipped := start, 0;
      while end < |content| && content[end] != '"'
        invariant start <= end <= |content|
        invariant quote == G.ClosingQuote(content, end)
        invariant quote.Ok? ==> skipped + Skipped(content, end, quote.next) == Skipped(content, start, quote.next)
        decreases |content| - end
      {
        if content[end] == '\\' {
          if end + 1 >= |content| {
            return false, end, skipped;
          }
          skipped := skipped + 1;
          end := end + 1;
        }
        end := end + 1;
      }
      ok := end < |content|;
    }

    /** One turn of the second pass: stores what the character or escape at `input` stands for. A length
        of 0 reports a refused escape. */
    method UnescapeStep(input: nat, end: nat, output: array<char>, pos: nat) returns (length: nat, pos': nat)
      requires input < end < |content|
      requires G.LiteralStep(content, input, end).Ok? ==>
                 pos + |G.LiteralStep(content, input, end).value| <= output.Length
      modifies output
      ensures length == 0 <==> G.LiteralStep(content, input, end).Fail?
      ensures var r := G.LiteralStep(content, input, end);
        r.Ok? ==>
          && input + length == r.next && pos' == pos + |r.value| <= output.Length
          && output[..pos'] == old(output[..pos]) + r.value
    {
      if content[input] != '\\' {
        output[pos] := content[input];
        return 1, pos + 1;
      }
      length, pos' := 2, pos + 1;
      match content[input + 1] {
        case 'b' => output[pos] := 8 as char;
        case 'f' => output[pos] := 12 as char;
        case 'n' => output[pos] := '\n';
        case 'r' => output[pos] := '\r';
        case 't' => output[pos] := '\t';
        case '"' => output[pos] := content[input + 1];
        case '\\' => output[pos] := content[input + 1];
        case '/' => output[pos] := content[input + 1];
        case 'u' => length, pos' := Utf16LiteralToUtf8(input, end, output, pos);
        case _ => length := 0;
      }
    }

    /** The output array has the size that the first pass computed; every store is inside it. */
    method ParseString() returns (ok: bool, bytes: string)
      requires Valid()
      modifies this`offset
      ensures ok == G.ParseString(content, old(offset)).Ok?
      ensures ok ==> Valid() && G.Ok(bytes, offset) == G.ParseString(content, old(offset))
    {
      hide G.LiteralStep, G.ClosingQuote;
      ok, bytes := false, "";
      var start := offset + 1;
      if content[offset] != '"' {
        offset := start;
        return;
      }
      var found, end, skipped := MeasureLiteral(start);
      if !found {
        offset := start;
        return;
      }
      FirstPass(content, start, end);
      var allocation := end - offset - skipped;
      var output := new char[allocation + 1];
      var input: nat, pos: nat := start, 0;
      ghost var second := false;
      ghost var whole := G.Unescape(content, start, end);
      while input < end
        invariant start <= input <= end + 1
        invariant input <= end ==> StopsAt(content, input, end, second)
        invariant pos + (if input <= end then Room(content, input, end, second) else 0) < allocation
        invariant whole.Ok? == G.Unescape(content, input, end).Ok?
        invariant whole.Ok? ==> whole.value == output[..pos] + G.Unescape(content, input, end).value
        invariant fresh(output) && offset == old(offset)
        decreases end + 1 - input
      {
        if G.LiteralStep(content, input, end).Ok? { second := StepFits(content, input, end, second); }
        var length;
        length, pos := UnescapeStep(input, end, output, pos);
        if length == 0 {
          offset := input;
          return;
        }
        input := input + length;
      }
      ghost var stored := output[..pos];
      assert whole.value == stored + "" == stored;
      output[pos] := NUL;
      bytes := output[..pos];
      assert bytes == stored;
      offset := end + 1;
      ok := true;
    }

    /** Copies the characters for strtod, at most 63 of them. */
    method CopyNumber(numberString: array<char>) returns (n: nat)
      requires Valid() && numberString.Length == 64
      modifies numberString
      ensures n == G.NumberSpan(content, offset, 63)
      ensures numberString[..n] == content[offset..offset + n]
    {
      hide IsNumberChar, G.NumberSpan;
      n := 0;
      while n < 63 && offset + n < |content| && IsNumberChar(content[offset + n])
        invariant n <= 63 && offset + n <= |content|
        invariant forall k :: 0 <= k < n ==> numberString[k] == content[offset + k]
        invariant forall k :: offset <= k < offset + n ==> IsNumberChar(content[k])
      {
        numberString[n] := content[offset + n];
        n := n + 1;
      }
      G.NumberSpanIs(content, offset, n, 63);
      numberString[n] := NUL;
    }

    method ParseNumber() returns (ok: bool, item: Json)
      requires Valid()
      modifies this`offset
      ensures ok == G.ParseNumber(content, old(offset)).Ok?
      ensures ok ==> Valid() && G.Ok(item, offset) == G.ParseNumber(content, old(offset))
    {
      hide StrtodLength, IsNumberChar, G.NumberSpan;
      item := Null;
      var numberString := new char[64];
      var n := CopyNumber(numberString);
      ghost var token := content[offset..offset + n];
      var afterEnd := StrtodLength(numberString[..n]);
      if afterEnd == 0 {
        return false, item;
      }
      item := Number(numberString[..afterEnd]);
      assert numberString[..afterEnd] == token[..afterEnd] == content[offset..offset + afterEnd];
      offset := offset + afterEnd;
      ok := true;
    }

    method ParseValue() returns (ok: bool, item: Json)
      requires Valid()
      modifies this
      ensures ok == G.ParseValue(content, old(offset), old(depth)).Ok?
      ensures ok ==> Valid() && depth == old(depth)
      ensures ok ==> G.Ok(item, offset) == G.ParseValue(content, old(offset), old(depth))
      decreases G.NESTING_LIMIT - depth, 2
    {
      hide G.ParseArray, G.ParseObject, G.ParseNumber, G.ParseString;
      if offset + 4 <= |content| && content[offset..offset + 4] == "null" {
        offset := offset + 4;
        return true, Null;
      }
      if offset + 5 <= |content| && content[offset..offset + 5] == "false" {
        offset := offset + 5;
        return true, False;
      }
      if offset + 4 <= |content| && content[offset..offset + 4] == "true" {
        offset := offset + 4;
        return true, True;
      }
      if content[offset] == '"' {
        var bytes;
        ok, bytes := ParseString();
        return ok, String(bytes);
      }
      if content[offset] == '-' || '0' <= content[offset] <= '9' {
        ok, item := ParseNumber();
        return;
      }
      if content[offset] == '[' {
        ok, item := ParseArray();
        return;
      }
      if content[offset] == '{' {
        ok, item := ParseObject();
        return;
      }
      return false, Null;
    }

    method ParseArray() returns (ok: bool, item: Json)
      requires Valid() && content[offset] == '['
      modifies this
      ensures ok == G.ParseArray(content, old(offset), old(depth)).Ok?
      ensures ok ==> Valid() && depth == old(depth)
      ensures ok ==> G.Ok(item, offset) == G.ParseArray(content, old(offset), old(depth))
      decreases G.NESTING_LIMIT - depth, 1
    {
      hide G.ParseItems, G.Skip;
      ok, item := false, Null;
      if depth >= G.NESTING_LIMIT {
        return;
      }
      depth := depth + 1;
      offset := offset + 1;
      BufferSkipWhitespace();
      if content[offset] == ']' {
        depth := depth - 1;
        offset := offset + 1;
        return true, Array([]);
      }
      SkipTwice(content, old(offset) + 1);
      offset := offset - 1;
      var items;
      ok, items := ParseItems();
      if !ok {
        return false, Null;
      }
      depth := depth - 1;
      offset := offset + 1;
      item := Array(items);
    }

    /** The loop of parse_array, from the character before the first item to the closing bracket. */
    method ParseItems() returns (ok: bool, items: seq<Json>)
      requires Valid() && offset + 1 < |content| && depth <= G.NESTING_LIMIT
      modifies this
      ensures var r := G.ParseItems(content, G.Skip(content, old(offset) + 1), old(depth));
        ok == r.Ok? && (ok ==> 0 <= offset && offset + 1 < |content| && depth == old(depth) && G.Ok(items, offset + 1) == r)
      decreases G.NESTING_LIMIT - depth, 3
    {
      hide G.ParseValue, G.ParseItems, G.Skip, Prepend;
      ghost var all := G.ParseItems(content, G.Skip(content, offset + 1), depth);
      PrependNothing(all);
      items := [];
      var more := true;
      while more
        invariant depth == old(depth) && 0 <= offset < |content|
        invariant more ==> offset + 1 < |content|
        invariant more ==> all == Prepend(items, G.ParseItems(content, G.Skip(content, offset + 1), depth))
        invariant !more && content[offset] == ']' ==> offset + 1 < |content| && all == G.Ok(items, offset + 1)
        invariant !more && content[offset] != ']' ==> all == G.Fail
        decreases more, |content| - offset
      {
        offset := offset + 1;
        BufferSkipWhitespace();
        UnfoldItems(content, offset, depth);
        PrependFails(items);
        var current;
        ok, current := ParseValue();
        if !ok {
          return;
        }
        BufferSkipWhitespace();
        more := content[offset] == ',';
        if more {
          PrependTwice(items, current, G.ParseItems(content, G.Skip(content, offset + 1), depth));
        } else {
          PrependLast(items, current, offset + 1);
        }
        items := items + [current];
      }
      ok := content[offset] == ']';
    }

    /** The name, the colon and the value of one member. */
    method ParseMember() returns (ok: bool, member: Member)
      requires Valid()
      modifies this
      ensures ok == G.ParseMember(content, old(offset), old(depth)).Ok?
      ensures ok ==> Valid() && depth == old(depth)
      ensures ok ==> G.Ok(member, offset) == G.ParseMember(content, old(offset), old(depth))
      decreases G.NESTING_LIMIT - depth, 3
    {
      hide G.ParseValue, G.Skip, G.ParseString;
      var name, value;
      ok, name := ParseString();
      member := Member(name, Null);
      if !ok {
        return;
      }
      BufferSkipWhitespace();
      if content[offset] != ':' {
        return false, member;
      }
      offset := offset + 1;
      BufferSkipWhitespace();
      ok, value := ParseValue();
      member := Member(name, value);
    }

    method ParseObject() returns (ok: bool, item: Json)
      requires Valid() && content[offset] == '{'
      modifies this
      ensures ok == G.ParseObject(content, old(offset), old(depth)).Ok?
      ensures ok ==> Valid() && depth == old(depth)
      ensures ok ==> G.Ok(item, offset) == G.ParseObject(content, old(offset), old(depth))
      decreases G.NESTING_LIMIT - depth, 1
    {
      hide G.ParseMembers, G.Skip;
      ok, item := false, Null;
      if depth >= G.NESTING_LIMIT {
        return;
      }
      depth := depth + 1;
      offset := offset + 1;
      BufferSkipWhitespace();
      if content[offset] == '}' {
        depth := depth - 1;
        offset := offset + 1;
        return true, Object([]);
      }
      SkipTwice(content, old(offset) + 1);
      offset := offset - 1;
      var members;
      ok, members := ParseMembers();
      if !ok {
        return false, Null;
      }
      depth := depth - 1;
      offset := offset + 1;
      item := Object(members);
    }

    /** The loop of parse_object, from the character before the first member to the closing brace. */
    method ParseMembers() returns (ok: bool, members: seq<Member>)
      requires Valid() && offset + 1 < |content| && depth <= G.NESTING_LIMIT
      modifies this
      ensures var r := G.ParseMembers(content, G.Skip(content, old(offset) + 1), old(depth));
        ok == r.Ok? && (ok ==> 0 <= offset && offset + 1 < |content| && depth == old(depth) && G.Ok(members, offset + 1) == r)
      decreases G.NESTING_LIMIT - depth, 4
    {
      hide G.ParseMember, G.ParseMembers, G.Skip, Prepend;
      ghost var all := G.ParseMembers(content, G.Skip(content, offset + 1), depth);
      PrependNothing(all);
      members := [];
      var more := true;
      while more
        invariant depth == old(depth) && 0 <= offset < |content|
        invariant more ==> offset + 1 < |content|
        invariant more ==> all == Prepend(members, G.ParseMembers(content, G.Skip(content, offset + 1), depth))
        invariant !more && content[offset] == '}' ==> offset + 1 < |content| && all == G.Ok(members, offset + 1)
        invariant !more && content[offset] != '}' ==> all == G.Fail
        decreases more, |content| - offset
      {
        offset := offset + 1;
        BufferSkipWhitespace();
        UnfoldMembers(content, offset, depth);
        PrependFails(members);
        var current;
        ok, current := ParseMember();
        if !ok {
          return;
        }
        BufferSkipWhitespace();
        more := content[offset] == ',';
        if more {
          PrependTwice(members, current, G.ParseMembers(content, G.Skip(content, offset + 1), depth));
        } else {
          PrependLast(members, current, offset + 1);
        }
        members := members + [current];
      }
      ok := content[offset] == '}';
    }
  }

  /** cJSON_ParseWithOpts on the C string `value`; `end` is where the parse stopped. */
  method ParseWithOpts(value: string, requireNullTerminated: bool) returns (ok: bool, item: Json, end: nat)
    ensures ok == G.ParseText(value, requireNullTerminated).Ok?
    ensures ok ==> G.Ok(item, end) == G.ParseText(value, requireNullTerminated)
  {
    hide G.ParseValue, G.Skip;
    end := 0;
    var buffer := new ParseBuffer(value);
    if buffer.offset + 4 < |buffer.content| && buffer.content[..3] == G.BYTE_ORDER_MARK {
      buffer.offset := buffer.offset + 3;
    }
    buffer.BufferSkipWhitespace();
    ok, item := buffer.ParseValue();
    if !ok {
      return;
    }
    if requireNullTerminated {
      buffer.BufferSkipWhitespace();
      if buffer.content[buffer.offset] != NUL {
        return false, item, end;
      }
    }
    end := buffer.offset;
  }
}
