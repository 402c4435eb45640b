/** The printer over its growing buffer. Every store is inside the room that `Ensure` reserved, and a
    print succeeds exactly when the text and two more bytes fit. */
module JsonPrinter {
  import opened JsonSyntax

  const INT_MAX := 0x7FFF_FFFF

  // ---------- the text holds no NUL, so strlen finds its end

  lemma NoNulJoined(a: string, b: string)
    requires NUL !in a && NUL !in b
    ensures NUL !in a + b
  {
  }

  lemma {:induction false} TextHasNoNul(v: Json, fmt: bool, depth: nat)
    requires NumbersPrintable(v)
    ensures NUL !in Text(v, fmt, depth)
    decreases v, 1
  {
    hide ItemsText, MembersText, StringText, Indent, ItemsPrintable, MembersPrintable;
    match v
    case Array(items) =>
      ItemsTextHasNoNul(items, fmt, depth + 1);
      NoNulJoined(ItemsText(items, fmt, depth + 1), "]");
      NoNulJoined("[", ItemsText(items, fmt, depth + 1) + "]");
    case Object(members) =>
      var body, tabs := MembersText(members, fmt, depth + 1), Indent(fmt, depth);
      MembersTextHasNoNul(members, fmt, depth + 1);
      NoNulJoined(tabs, "}");
      NoNulJoined(body, tabs + "}");
      NoNulJoined(Gap(fmt, '\n'), body + (tabs + "}"));
      NoNulJoined("{", Gap(fmt, '\n') + (body + (tabs + "}")));
    case _ =>
  }

  lemma {:induction false} ItemsTextHasNoNul(items: seq<Json>, fmt: bool, depth: nat)
    requires ItemsPrintable(items)
    ensures NUL !in ItemsText(items, fmt, depth)
    decreases items, 0
  {
    hide Text;
    if items != [] {
      var rest, end := ItemsText(items[1..], fmt, depth), ItemEnd(fmt, |items| == 1);
      TextHasNoNul(items[0], fmt, depth);
      ItemsTextHasNoNul(items[1..], fmt, depth);
      NoNulJoined(end, rest);
      NoNulJoined(Text(items[0], fmt, depth), end + rest);
    }
  }

  lemma {:induction false} MembersTextHasNoNul(members: seq<Member>, fmt: bool, depth: nat)
    requires MembersPrintable(members)
    ensures NUL !in MembersText(members, fmt, depth)
    decreases members, 0
  {
    hide MemberText;
    if members != [] {
      MemberTextHasNoNul(members[0], fmt, depth, |members| == 1);
      MembersTextHasNoNul(members[1..], fmt, depth);
      NoNulJoined(MemberText(members[0], fmt, depth, |members| == 1), MembersText(members[1..], fmt, depth));
    }
  }

  lemma {:induction false} MemberTextHasNoNul(m: Member, fmt: bool, depth: nat, last: bool)
    requires NumbersPrintable(m.value)
    ensures NUL !in MemberText(m, fmt, depth, last)
    decreases m, 2
  {
    var name, gap, value, end := StringText(m.name), Gap(fmt, '\t'), Text(m.value, fmt, depth), MemberEnd(fmt, last);
    TextHasNoNul(m.value, fmt, depth);
    hide Text, StringText, Indent, NumbersPrintable;
    NoNulJoined(value, end);
    NoNulJoined(gap, value + end);
    NoNulJoined(":", gap + (value + end));
    NoNulJoined(name, ":" + (gap + (value + end)));
    NoNulJoined(Indent(fmt, depth), name + (":" + (gap + (value + end))));
  }

  lemma {:induction false} EscapeSplit(s: string, i: nat)
    requires i < |s|
    ensures Escape(s[i..]) == EscapeChar(s[i]) + Escape(s[i + 1..])
  {
    assert s[i..][0] == s[i] && s[i..][1..] == s[i + 1..];
  }

  // ---------- the buffer

  class PrintBuffer {
    var buffer: array<char>
    var offset: nat
    var depth: nat
    const noalloc: bool
    const format: bool

    constructor (memory: array<char>, noalloc: bool, format: bool)
      requires memory.Length <= INT_MAX
      ensures Valid() && offset == 0 && depth == 0 && buffer == memory
      ensures this.noalloc == noalloc && this.format == format
    {
      buffer, offset, depth := memory, 0, 0;
      this.noalloc, this.format := noalloc, format;
    }

    ghost predicate Valid()
      reads this
    {
      buffer.Length <= INT_MAX && (offset < buffer.Length || offset == buffer.Length == 0)
    }

    /** The largest buffer this print can come to have. */
    ghost function Capacity(): nat
      reads this
    {
      if noalloc then buffer.Length else INT_MAX
    }

    method Ensure(needed: nat) returns (ok: bool)
      requires Valid()
      modifies this`buffer
      ensures Valid() && Capacity() == old(Capacity())
      ensures ok <==> offset + needed + 1 <= Capacity()
      ensures ok ==> offset + needed + 1 <= buffer.Length && buffer[..offset] == old(buffer[..offset])
      ensures buffer == old(buffer) || (!noalloc && fresh(buffer))
    {
      if buffer.Length > 0 && offset >= buffer.Length {
        return false;
      }
      if needed > INT_MAX {
        return false;
      }
      var needed := needed + offset + 1;
      if needed <= buffer.Length {
        return true;
      }
      if noalloc {
        return false;
      }
      var newSize;
      if needed > INT_MAX / 2 {
        if needed <= INT_MAX {
          newSize := INT_MAX;
        } else {
          return false;
        }
      } else {
        newSize := needed * 2;
      }
      var newBuffer := new char[newSize];
      forall k | 0 <= k < offset {
        newBuffer[k] := buffer[k];
      }
      buffer := newBuffer;
      ok := true;
    }

    /** The buffer holds `before` and after it `text`, closed by a NUL. */
    ghost predicate Holds(before: string, text: string)
      reads this`buffer, buffer
    {
      && |before| + |text| < buffer.Length
      && buffer[..|before| + |text|] == before + text
      && buffer[|before| + |text|] == NUL
    }

    /** The same contents, cut elsewhere. */
    lemma HoldsAs(a: string, b: string, before: string, text: string)
      requires Holds(a, b) && a + b == before + text && |a| + |b| == |before| + |text|
      ensures Holds(before, text)
    {
    }

    /** strlen from the offset: `text` was stored after `before`, and the offset is inside it. */
    method UpdateOffset(ghost before: string, ghost text: string)
      requires Holds(before, text) && |before| <= offset <= |before| + |text| && NUL !in text
      modifies this`offset
      ensures offset == |before| + |text|
    {
      ghost var end := |before| + |text|;
      assert forall k :: |before| <= k < end ==> buffer[k] == text[k - |before|] by {
        forall k | |before| <= k < end ensures buffer[k] == text[k - |before|] {
          assert buffer[..end][k] == (before + text)[k];
        }
      }
      while buffer[offset] != NUL
        invariant old(offset) <= offset <= end
        decreases end - offset
      {
        offset := offset + 1;
      }
    }

    /** Stores `text` at `pos` and, if `close`, a NUL after it; the offset does not move. */
    method Store(text: string, pos: nat, close: bool)
      requires pos + |text| + (if close then 1 else 0) <= buffer.Length
      modifies buffer
      ensures buffer[..pos + |text|] == old(buffer[..pos]) + text
      ensures close ==> buffer[pos + |text|] == NUL
    {
      forall k | 0 <= k < |text| {
        buffer[pos + k] := text[k];
      }
      if close {
        buffer[pos + |text|] := NUL;
      }
    }

    /** Reserves `needed` bytes, stores `text`, with a NUL after it if `close`, and moves past the text. */
    method Emit(text: string, needed: nat, close: bool) returns (ok: bool)
      requires Valid() && |text| <= needed
      modifies this`offset, this`buffer, buffer
      ensures ok ==> Valid() && offset == old(offset) + |text|
      ensures ok ==> buffer[..offset] == old(buffer[..offset]) + text
      ensures Capacity() == old(Capacity())
      ensures ok <==> old(offset) + needed + 1 <= Capacity()
      ensures buffer == old(buffer) || (!noalloc && fresh(buffer))
    {
      ok := Ensure(needed);
      if ok {
        Store(text, offset, close);
        offset := offset + |text|;
      }
    }

    method PrintWord(word: string) returns (ok: bool)
      requires Valid()
      modifies this`buffer, buffer
      ensures Valid() && Capacity() == old(Capacity())
      ensures ok <==> offset + |word| + 2 <= Capacity()
      ensures ok ==> Holds(old(buffer[..offset]), word)
      ensures buffer == old(buffer) || (!noalloc && fresh(buffer))
    {
      ok := Ensure(|word| + 1);
      if ok {
        Store(word, offset, true);
      }
    }

    /** The bytes that escaping adds to one character. */
    static method EscapeExtra(ch: char) returns (n: nat)
      ensures n + 1 == |EscapeChar(ch)|
    {
      match ch {
        case '"' => n := 1;
        case '\\' => n := 1;
        case '\n' => n := 1;
        case '\r' => n := 1;
        case '\t' => n := 1;
        case _ =>
          if ch == 8 as char || ch == 12 as char {
            n := 1;
          } else if ch as int < 32 {
            n := 5;
          } else {
            n := 0;
          }
      }
    }

    /** The first loop of print_string_ptr: how long the string is and how many bytes escaping adds. */
    static method CountEscapes(input: string) returns (length: nat, escapes: nat)
      ensures length == |CString(input)| && length + escapes == |Escape(CString(input))|
    {
      hide EscapeChar, CString;
      ghost var c := CString(input);
      length, escapes := 0, 0;
      assert c[0..] == c;
      while length < |input| && input[length] != NUL
        invariant length <= |c|
        invariant length + escapes + |Escape(c[length..])| == |Escape(c)|
        decreases |input| - length
      {
        EscapeSplit(c, length);
        assert input[length] == c[length];
        var extra := EscapeExtra(input[length]);
        escapes := escapes + extra;
        length := length + 1;
      }
    }

    /** Stores one escaped character at `pos`; the offset does not move. */
    method StoreEscaped(ch: char, pos: nat) returns (pos': nat)
      requires pos + |EscapeChar(ch)| < buffer.Length
      modifies buffer
      ensures pos' == pos + |EscapeChar(ch)| && buffer[..pos'] == old(buffer[..pos]) + EscapeChar(ch)
    {
      if ch as int > 31 && ch != '"' && ch != '\\' {
        buffer[pos] := ch;
        return pos + 1;
      }
      buffer[pos] := '\\';
      pos' := pos + 2;
      match ch {
        case '\\' => buffer[pos + 1] := '\\';
        case '"' => buffer[pos + 1] := '"';
        case '\n' => buffer[pos + 1] := 'n';
        case '\r' => buffer[pos + 1] := 'r';
        case '\t' => buffer[pos + 1] := 't';
        case _ =>
          if ch == 8 as char {
            buffer[pos + 1] := 'b';
          } else if ch == 12 as char {
            buffer[pos + 1] := 'f';
          } else {
            ghost var head := buffer[..pos + 1];
            SprintfU04x(ch as int, pos + 1);
            pos' := pos + 6;
            assert buffer[..pos'] == head + buffer[pos + 1..pos + 6];
          }
      }
    }

    /** sprintf of "u%04x": five characters and a NUL. */
    method SprintfU04x(value: nat, pos: nat)
      requires value < 32 && pos + 5 < buffer.Length
      modifies buffer
      ensures buffer[..pos] == old(buffer[..pos])
      ensures buffer[pos..pos + 5] == "u00" + [HexDigit(value / 16), HexDigit(value % 16)]
    {
      buffer[pos], buffer[pos + 1], buffer[pos + 2] := 'u', '0', '0';
      buffer[pos + 3] := HexDigit(value / 16);
      buffer[pos + 4] := HexDigit(value % 16);
      buffer[pos + 5] := NUL;
    }

    /** The second loop of print_string_ptr, from `pos` on; the offset does not move. */
    method StoreAllEscaped(input: string, pos: nat) returns (pos': nat)
      requires pos + |Escape(CString(input))| < buffer.Length
      modifies buffer
      ensures pos' == pos + |Escape(CString(input))|
      ensures buffer[..pos'] == old(buffer[..pos]) + Escape(CString(input))
    {
      hide EscapeChar, CString;
      ghost var c := CString(input);
      ghost var before := buffer[..pos];
      var i := 0;
      pos' := pos;
      assert c[0..] == c;
      while i < |input| && input[i] != NUL
        invariant i <= |c| && pos' + |Escape(c[i..])| == pos + |Escape(c)|
        invariant buffer[..pos'] + Escape(c[i..]) == before + Escape(c)
        decreases |input| - i
      {
        EscapeSplit(c, i);
        ghost var done := buffer[..pos'];
        assert input[i] == c[i];
        pos' := StoreEscaped(input[i], pos');
        assert done + (EscapeChar(c[i]) + Escape(c[i + 1..])) == buffer[..pos'] + Escape(c[i + 1..]);
        i := i + 1;
      }
      assert c[i..] == "" && buffer[..pos'] + "" == buffer[..pos'];
    }

    /** What lies between the quotes: a plain copy when nothing has to be escaped. */
    method StoreBody(input: string, outputLength: nat, escapes: nat, pos: nat)
      requires outputLength == |Escape(CString(input))| == |CString(input)| + escapes
      requires pos + outputLength < buffer.Length
      modifies buffer
      ensures buffer[..pos + outputLength] == old(buffer[..pos]) + Escape(CString(input))
    {
      hide Escape, CString;
      if escapes == 0 {
        NothingEscaped(CString(input));
        forall k | 0 <= k < outputLength {
          buffer[pos + k] := input[k];
        }
      } else {
        var end := StoreAllEscaped(input, pos);
      }
    }

    method PrintString(input: string) returns (ok: bool)
      requires Valid()
      modifies this`buffer, buffer
      ensures Valid() && Capacity() == old(Capacity())
      ensures ok <==> offset + |StringText(input)| + 2 <= Capacity()
      ensures ok ==> Holds(old(buffer[..offset]), StringText(input))
      ensures buffer == old(buffer) || (!noalloc && fresh(buffer))
    {
      hide Escape, CString, StringText, Holds;
      QuotesAround("", input);
      var length, escapes := CountEscapes(input);
      ok := Ensure(length + escapes + 3);
      if ok {
        StoreString(input, length + escapes, escapes);
      }
    }

    /** The quotes and what lies between them, in reserved room. */
    method StoreString(input: string, outputLength: nat, escapes: nat)
      requires outputLength == |Escape(CString(input))| == |CString(input)| + escapes
      requires offset + outputLength + 3 <= buffer.Length
      modifies buffer
      ensures Holds(old(buffer[..offset]), StringText(input))
    {
      hide Escape, CString, StringText;
      QuotesAround(buffer[..offset], input);
      Store("\"", offset, false);
      StoreBody(input, outputLength, escapes, offset + 1);
      Store("\"", offset + outputLength + 1, true);
    }

    method PrintNumber(text: string) returns (ok: bool)
      requires Valid() && NumberText(text)
      modifies this`offset, this`buffer, buffer
      ensures ok ==> Valid() && offset == old(offset) + |text| && Holds(old(buffer[..offset]), text)
      ensures Capacity() == old(Capacity())
      ensures ok <==> old(offset) + |text| + 2 <= Capacity()
      ensures buffer == old(buffer) || (!noalloc && fresh(buffer))
    {
      hide NumberText;
      ok := PrintWord(text);
      if ok {
        offset := offset + |text|;
      }
    }

    method PrintValue(item: Json) returns (ok: bool)
      requires Valid() && NumbersPrintable(item)
      modifies this, buffer
      ensures ok ==> Valid() && depth == old(depth)
      ensures ok ==> old(offset) <= offset <= old(offset) + |Text(item, format, old(depth))|
      ensures ok ==> Holds(old(buffer[..offset]), Text(item, format, old(depth)))
      ensures Capacity() == old(Capacity())
      ensures ok <==> old(offset) + |Text(item, format, old(depth))| + 2 <= Capacity()
      ensures buffer == old(buffer) || (!noalloc && fresh(buffer))
      decreases item, 1
    {
      match item {
        case Null => ok := PrintWord("null");
        case False => ok := PrintWord("false");
        case True => ok := PrintWord("true");
        case Number(text) => ok := PrintNumber(text);
        case String(bytes) => ok := PrintString(bytes);
        case Array(items) => ok := PrintArray(items);
        case Object(members) => ok := PrintObject(members);
      }
    }

    method PrintArray(items: seq<Json>) returns (ok: bool)
      requires Valid() && ItemsPrintable(items)
      modifies this, buffer
      ensures ok ==> Valid() && depth == old(depth)
      ensures ok ==> old(offset) <= offset <= old(offset) + |Text(Array(items), format, old(depth))|
      ensures ok ==> Holds(old(buffer[..offset]), Text(Array(items), format, old(depth)))
      ensures Capacity() == old(Capacity())
      ensures ok <==> old(offset) + |Text(Array(items), format, old(depth))| + 2 <= Capacity()
      ensures buffer == old(buffer) || (!noalloc && fresh(buffer))
      decreases items, 3
    {
      hide Text, ItemsText, ItemsPrintable, Holds;
      ghost var before, text := buffer[..offset], Text(Array(items), format, depth);
      ArrayText(before, items, format, depth);
      ok := Emit("[", 1, false);
      if !ok {
        return;
      }
      depth := depth + 1;
      ok := PrintItems(items);
      if !ok {
        return;
      }
      ghost var body := buffer[..offset];
      ok := PrintWord("]");
      if ok {
        HoldsAs(body, "]", before, text);
        depth := depth - 1;
      }
    }

    /** The loop of print_array. */
    method PrintItems(items: seq<Json>) returns (ok: bool)
      requires Valid() && ItemsPrintable(items)
      modifies this, buffer
      ensures ok ==> Valid() && depth == old(depth)
      ensures ok ==> offset == old(offset) + |ItemsText(items, format, depth)|
      ensures ok ==> buffer[..offset] == old(buffer[..offset]) + ItemsText(items, format, depth)
      ensures Capacity() == old(Capacity())
      ensures ok <== old(offset) + |ItemsText(items, format, old(depth))| + 3 <= Capacity()
      ensures buffer == old(buffer) || (!noalloc && fresh(buffer))
      decreases items, 2
    {
      hide Text, ItemsText;
      ghost var before := buffer[..offset];
      ghost var all := ItemsText(items, format, depth);
      ghost var done := "";
      var i := 0;
      ok := true;
      assert items[0..] == items;
      while i < |items|
        invariant 0 <= i <= |items| && ok && Valid() && depth == old(depth)
        invariant ItemsPrintable(items[i..])
        invariant done + ItemsText(items[i..], format, depth) == all
        invariant offset == |before| + |done| && buffer[..offset] == before + done
        invariant Capacity() == old(Capacity())
        invariant buffer == old(buffer) || (!noalloc && fresh(buffer))
      {
        ghost var piece := ItemsTextSplit(before, done, items, i, format, depth);
        ok := PrintItem(items[i], i + 1 == |items|);
        if !ok {
          return;
        }
        done := done + piece;
        i := i + 1;
      }
      NothingLeft(done, items, format, depth);
    }

    /** print_value and the update_offset that follows it wherever a value is part of a longer text. */
    method PrintPart(item: Json) returns (ok: bool)
      requires Valid() && NumbersPrintable(item)
      modifies this, buffer
      ensures ok ==> Valid() && depth == old(depth)
      ensures ok ==> offset == old(offset) + |Text(item, format, depth)|
      ensures ok ==> buffer[..offset] == old(buffer[..offset]) + Text(item, format, depth)
      ensures Capacity() == old(Capacity())
      ensures ok <==> old(offset) + |Text(item, format, old(depth))| + 2 <= Capacity()
      ensures buffer == old(buffer) || (!noalloc && fresh(buffer))
      decreases item, 2
    {
      hide Text, NumbersPrintable;
      ghost var before := buffer[..offset];
      TextHasNoNul(item, format, depth);
      ok := PrintValue(item);
      if ok {
        UpdateOffset(before, Text(item, format, depth));
      }
    }

    /** One item and what separates it from the next. */
    method PrintItem(item: Json, last: bool) returns (ok: bool)
      requires Valid() && NumbersPrintable(item)
      modifies this, buffer
      ensures ok ==> Valid() && depth == old(depth)
      ensures ok ==> offset == old(offset) + |Text(item, format, depth) + ItemEnd(format, last)|
      ensures ok ==> buffer[..offset] == old(buffer[..offset]) + (Text(item, format, depth) + ItemEnd(format, last))
      ensures Capacity() == old(Capacity())
      ensures ok <== old(offset) + |Text(item, format, old(depth)) + ItemEnd(format, last)| + 3 <= Capacity()
      ensures buffer == old(buffer) || (!noalloc && fresh(buffer))
      decreases item, 3
    {
      hide Text, NumbersPrintable;
      ok := PrintPart(item);
      if ok && !last {
        var sep := if format then ", " else ",";
        ok := Emit(sep, |sep| + 1, true);
      }
    }

    method PrintObject(members: seq<Member>) returns (ok: bool)
      requires Valid() && MembersPrintable(members)
      modifies this, buffer
      ensures ok ==> Valid() && depth == old(depth)
      ensures ok ==> old(offset) <= offset <= old(offset) + |Text(Object(members), format, old(depth))|
      ensures ok ==> Holds(old(buffer[..offset]), Text(Object(members), format, old(depth)))
      ensures Capacity() == old(Capacity())
      ensures ok <==> old(offset) + |Text(Object(members), format, old(depth))| + 2 <= Capacity()
      ensures buffer == old(buffer) || (!noalloc && fresh(buffer))
      decreases members, 3
    {
      hide Text, MembersText, OpeningBrace, ClosingBrace, MembersPrintable, Holds;
      ghost var before, text := buffer[..offset], Text(Object(members), format, depth);
      ObjectText(before, members, format, depth);
      var brace := OpeningBrace(format);
      ok := Emit(brace, |brace| + 1, false);
      if !ok {
        return;
      }
      depth := depth + 1;
      ok := PrintMembers(members);
      if !ok {
        return;
      }
      ghost var body := buffer[..offset];
      ok := PrintWord(ClosingBrace(format, depth - 1));
      if ok {
        HoldsAs(body, ClosingBrace(format, depth - 1), before, text);
        depth := depth - 1;
      }
    }

    /** The loop of print_object. */
    method PrintMembers(members: seq<Member>) returns (ok: bool)
      requires Valid() && MembersPrintable(members)
      modifies this, buffer
      ensures ok ==> Valid() && depth == old(depth)
      ensures ok ==> offset == old(offset) + |MembersText(members, format, depth)|
      ensures ok ==> buffer[..offset] == old(buffer[..offset]) + MembersText(members, format, depth)
      ensures Capacity() == old(Capacity())
      ensures ok <== old(offset) + |MembersText(members, format, old(depth))| + 3 <= Capacity()
      ensures buffer == old(buffer) || (!noalloc && fresh(buffer))
      decreases members, 2
    {
      hide MembersText, MemberText;
      ghost var before := buffer[..offset];
      ghost var all := MembersText(members, format, depth);
      ghost var done := "";
      var i := 0;
      ok := true;
      assert members[0..] == members;
      while i < |members|
        invariant 0 <= i <= |members| && ok && Valid() && depth == old(depth)
        invariant MembersPrintable(members[i..])
        invariant done + MembersText(members[i..], format, depth) == all
        invariant offset == |before| + |done| && buffer[..offset] == before + done
        invariant Capacity() == old(Capacity())
        invariant buffer == old(buffer) || (!noalloc && fresh(buffer))
      {
        ghost var piece := MembersTextSplit(before, done, members, i, format, depth);
        ok := PrintMember(members[i], i + 1 == |members|);
        if !ok {
          return;
        }
        done := done + piece;
        i := i + 1;
      }
      NoMemberLeft(done, members, format, depth);
    }

    /** One member: indentation, name, colon, value, and what separates it from the next. */
    method PrintMember(m: Member, last: bool) returns (ok: bool)
      requires Valid() && NumbersPrintable(m.value)
      modifies this, buffer
      ensures ok ==> Valid() && depth == old(depth)
      ensures ok ==> offset == old(offset) + |MemberText(m, format, depth, last)|
      ensures ok ==> buffer[..offset] == old(buffer[..offset]) + MemberText(m, format, depth, last)
      ensures Capacity() == old(Capacity())
      ensures ok <== old(offset) + |MemberText(m, format, old(depth), last)| + 3 <= Capacity()
      ensures buffer == old(buffer) || (!noalloc && fresh(buffer))
      decreases m, 3
    {
      hide Text, StringText, MemberText, Indent, Gap, MemberEnd, Colon, NumbersPrintable, Holds;
      MemberTextPieces(buffer[..offset], m, format, depth, last);
      ok := PrintKey(m.name);
      if !ok {
        return;
      }
      ok := PrintPart(m.value);
      if !ok {
        return;
      }
      var end := MemberEnd(format, last);
      ok := Emit(end, |end| + 1, true);
    }

    /** The indentation, the name and the colon. */
    method PrintKey(name: string) returns (ok: bool)
      requires Valid()
      modifies this`offset, this`buffer, buffer
      ensures ok ==> Valid()
      ensures ok ==> offset == old(offset) + |Indent(format, depth)| + |StringText(name)| + |Colon(format)|
      ensures ok ==> buffer[..offset] == old(buffer[..offset]) + Indent(format, depth) + StringText(name) + Colon(format)
      ensures Capacity() == old(Capacity())
      ensures ok <== old(offset) + |Indent(format, depth)| + |StringText(name)| + |Colon(format)| + 2 <= Capacity()
      ensures buffer == old(buffer) || (!noalloc && fresh(buffer))
    {
      hide StringText, Colon;
      var tabs := Indent(format, depth);
      ok := true;
      if format {
        ok := Emit(tabs, depth, false);
        if !ok {
          return;
        }
      } else {
        assert tabs == "" && buffer[..offset] + tabs == buffer[..offset];
      }
      ghost var before := buffer[..offset];
      ok := PrintString(name);
      if !ok {
        return;
      }
      UpdateOffset(before, StringText(name));
      var colon := Colon(format);
      ok := Emit(colon, |colon|, false);
    }
  }

  function OpeningBrace(fmt: bool): string {
    "{" + Gap(fmt, '\n')
  }

  function ClosingBrace(fmt: bool, depth: nat): string {
    Indent(fmt, depth) + "}"
  }

  function Colon(fmt: bool): string {
    ":" + Gap(fmt, '\t')
  }

  lemma ObjectText(before: string, members: seq<Member>, fmt: bool, depth: nat)
    ensures |Text(Object(members), fmt, depth)|
         == |OpeningBrace(fmt)| + |MembersText(members, fmt, depth + 1)| + |ClosingBrace(fmt, depth)|
    ensures |OpeningBrace(fmt)| >= 1 && |ClosingBrace(fmt, depth)| >= 1
    ensures before + OpeningBrace(fmt) + MembersText(members, fmt, depth + 1) + ClosingBrace(fmt, depth)
         == before + Text(Object(members), fmt, depth)
  {
    hide MembersText, Indent, Gap;
  }

  lemma MemberTextPieces(before: string, m: Member, fmt: bool, depth: nat, last: bool)
    ensures |MemberText(m, fmt, depth, last)|
         == |Indent(fmt, depth)| + |StringText(m.name)| + |Colon(fmt)| + |Text(m.value, fmt, depth)| + |MemberEnd(fmt, last)|
    ensures before + Indent(fmt, depth) + StringText(m.name) + Colon(fmt) + Text(m.value, fmt, depth) + MemberEnd(fmt, last)
         == before + MemberText(m, fmt, depth, last)
  {
    hide StringText, Indent, Gap, MemberEnd, Text;
  }

  lemma MembersTextSplit(before: string, done: string, members: seq<Member>, i: nat, fmt: bool, depth: nat) returns (piece: string)
    requires i < |members| && MembersPrintable(members[i..])
    ensures NumbersPrintable(members[i].value) && MembersPrintable(members[i + 1..])
    ensures piece == MemberText(members[i], fmt, depth, i + 1 == |members|)
    ensures |MembersText(members[i..], fmt, depth)| == |piece| + |MembersText(members[i + 1..], fmt, depth)|
    ensures done + MembersText(members[i..], fmt, depth) == (done + piece) + MembersText(members[i + 1..], fmt, depth)
    ensures before + done + piece == before + (done + piece)
  {
    hide MemberText;
    piece := MemberText(members[i], fmt, depth, i + 1 == |members|);
    assert members[i..][0] == members[i] && members[i..][1..] == members[i + 1..];
  }

  lemma NoMemberLeft(done: string, members: seq<Member>, fmt: bool, depth: nat)
    ensures done + MembersText(members[|members|..], fmt, depth) == done
  {
  }

  lemma ArrayText(before: string, items: seq<Json>, fmt: bool, depth: nat)
    ensures |Text(Array(items), fmt, depth)| == |ItemsText(items, fmt, depth + 1)| + 2
    ensures before + "[" + ItemsText(items, fmt, depth + 1) + "]" == before + Text(Array(items), fmt, depth)
  {
    hide ItemsText;
  }

  lemma ItemsTextSplit(before: string, done: string, items: seq<Json>, i: nat, fmt: bool, depth: nat) returns (piece: string)
    requires i < |items| && ItemsPrintable(items[i..])
    ensures NumbersPrintable(items[i]) && ItemsPrintable(items[i + 1..])
    ensures piece == Text(items[i], fmt, depth) + ItemEnd(fmt, i + 1 == |items|)
    ensures |ItemsText(items[i..], fmt, depth)| == |piece| + |ItemsText(items[i + 1..], fmt, depth)|
    ensures done + ItemsText(items[i..], fmt, depth) == (done + piece) + ItemsText(items[i + 1..], fmt, depth)
    ensures before + done + piece == before + (done + piece)
  {
    hide Text;
    piece := Text(items[i], fmt, depth) + ItemEnd(fmt, i + 1 == |items|);
    assert items[i..][0] == items[i] && items[i..][1..] == items[i + 1..];
  }

  lemma NothingLeft(done: string, items: seq<Json>, fmt: bool, depth: nat)
    ensures done + ItemsText(items[|items|..], fmt, depth) == done
  {
  }

  lemma QuotesAround(before: string, input: string)
    ensures |StringText(input)| == |Escape(CString(input))| + 2
    ensures before + "\"" + Escape(CString(input)) + "\"" == before + StringText(input)
  {
    hide Escape, CString;
  }

  lemma {:induction false} NothingEscaped(c: string)
    requires |Escape(c)| == |c|
    ensures Escape(c) == c
  {
    hide EscapeChar;
    if c != "" {
      NothingEscaped(c[1..]);
      PlainChar(c[0]);
    }
  }

  lemma PlainChar(ch: char)
    requires |EscapeChar(ch)| == 1
    ensures EscapeChar(ch) == [ch]
  {
  }

  // ---------- entry points

  /** cJSON_PrintPreallocated: the text, closed by a NUL, is in the caller's memory exactly when the
      memory has two bytes more than the text. */
  method PrintPreallocated(item: Json, memory: array<char>, fmt: bool) returns (ok: bool)
    requires NumbersPrintable(item) && memory.Length <= INT_MAX
    modifies memory
    ensures ok <==> |Text(item, fmt, 0)| + 2 <= memory.Length
    ensures ok ==> memory[..|Text(item, fmt, 0)|] == Text(item, fmt, 0) && memory[|Text(item, fmt, 0)|] == NUL
  {
    hide Text, NumbersPrintable;
    var p := new PrintBuffer(memory, true, fmt);
    ghost var before := p.buffer[..p.offset];
    ok := p.PrintValue(item);
    assert before + Text(item, fmt, 0) == Text(item, fmt, 0);
  }

  /** cJSON_Print and cJSON_PrintUnformatted: the printed C string, unless it and two more bytes pass
      INT_MAX. */
  method Print(item: Json, fmt: bool) returns (printed: array?<char>)
    requires NumbersPrintable(item)
    ensures printed == null <==> |Text(item, fmt, 0)| + 2 > INT_MAX
    ensures printed != null ==> printed.Length == |Text(item, fmt, 0)| + 1 && printed[..] == Text(item, fmt, 0) + [NUL]
  {
    hide Text, NumbersPrintable;
    var memory := new char[256];
    var p := new PrintBuffer(memory, false, fmt);
    ghost var before := p.buffer[..p.offset];
    var ok := p.PrintValue(item);
    if !ok {
      return null;
    }
    TextHasNoNul(item, fmt, 0);
    ghost var text := Text(item, fmt, 0);
    assert before + text == text;
    p.UpdateOffset(before, text);
    var result := new char[p.offset + 1];
    forall k | 0 <= k <= p.offset {
      result[k] := p.buffer[k];
    }
    assert result[..p.offset] == text;
    printed := result;
  }
}
