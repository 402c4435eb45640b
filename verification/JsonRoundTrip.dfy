/** Parsing undoes printing, and what the parser accepts can be printed again. */
module JsonRoundTrip {
  import opened JsonSyntax
  import opened JsonGrammar

  // ---------- reading a concatenation

  lemma ReadsConcat(t: string, i: nat, a: string, b: string)
    requires Reads(t, i, a + b)
    ensures Reads(t, i, a) && Reads(t, i + |a|, b) && i + |a| + |b| <= |t|
  {
    var ab := t[i..i + |a| + |b|];
    assert t[i..i + |a|] == ab[..|a|] == a;
    assert t[i + |a|..i + |a| + |b|] == ab[|a|..] == b;
  }

  lemma ReadsAt(t: string, i: nat, a: string, k: nat)
    requires Reads(t, i, a) && k < |a|
    ensures t[i + k] == a[k]
  {
    assert t[i..i + |a|][k] == t[i + k];
  }

  lemma SkipSolid(t: string, i: nat)
    requires Terminated(t) && i < |t| && t[i] as int > 32
    ensures Skip(t, i) == i
  {
  }

  lemma {:induction false} WhitespaceEndIs(t: string, i: nat, e: nat)
    requires i <= e < |t| && t[e] as int > 32
    requires forall k :: i <= k < e ==> t[k] as int <= 32
    ensures WhitespaceEnd(t, i) == e
    decreases e - i
  {
    if i < e { WhitespaceEndIs(t, i + 1, e); }
  }

  lemma SkipTo(t: string, i: nat, e: nat)
    requires Terminated(t) && i <= e < |t| && t[e] as int > 32
    requires forall k :: i <= k < e ==> t[k] as int <= 32
    ensures Skip(t, i) == e
  {
    WhitespaceEndIs(t, i, e);
  }

  // ---------- strings

  lemma PlainCharStep(t: string, p: nat, end: nat)
    requires p < end < |t| && t[p] != NUL && t[p] != '"' && t[p] != '\\'
    ensures LiteralStep(t, p, end) == Ok([t[p]], p + 1) && ClosingQuote(t, p) == ClosingQuote(t, p + 1)
  {
  }

  lemma ShortEscapeStep(t: string, p: nat, end: nat, c: char)
    requires p + 2 <= end < |t| && t[p] == '\\' && t[p + 1] != 'u' && SimpleEscape(t[p + 1]) == Ok(c, 2)
    ensures LiteralStep(t, p, end) == Ok([c], p + 2) && ClosingQuote(t, p) == ClosingQuote(t, p + 2)
  {
  }

  lemma ControlCharStep(t: string, p: nat, end: nat, c: char)
    requires 0 < c as int < 32 && p + 6 <= end < |t| && t[p] == '\\' && t[p + 1] == 'u' && t[p + 2] == '0' && t[p + 3] == '0'
    requires t[p + 4] == HexDigit(c as int / 16) && t[p + 5] == HexDigit(c as int % 16)
    ensures LiteralStep(t, p, end) == Ok([c], p + 6) && ClosingQuote(t, p) == ClosingQuote(t, p + 6)
  {
    HexDigitValue(c as int / 16);
    HexDigitValue(c as int % 16);
    assert Hex4(t, p + 2) == c as int;
    hide HexDigit, Hex4;
    assert ClosingQuote(t, p + 2) == ClosingQuote(t, p + 3) == ClosingQuote(t, p + 4)
        == ClosingQuote(t, p + 5) == ClosingQuote(t, p + 6);
  }

  lemma EscapeCharStep(t: string, p: nat, end: nat, c: char)
    requires c != NUL && Reads(t, p, EscapeChar(c)) && p + |EscapeChar(c)| <= end < |t|
    ensures LiteralStep(t, p, end) == Ok([c], p + |EscapeChar(c)|)
    ensures ClosingQuote(t, p) == ClosingQuote(t, p + |EscapeChar(c)|)
  {
    hide LiteralStep, ClosingQuote, HexDigit;
    var e := EscapeChar(c);
    forall k | 0 <= k < |e| ensures t[p + k] == e[k] { ReadsAt(t, p, e, k); }
    assert t[p + 0] == e[0];
    if |e| == 6 {
      assert t[p + 1] == 'u' && t[p + 2] == '0' && t[p + 3] == '0';
      assert t[p + 4] == HexDigit(c as int / 16) && t[p + 5] == HexDigit(c as int % 16);
      ControlCharStep(t, p, end, c);
    } else if |e| == 2 {
      assert t[p + 1] == e[1];
      ShortEscapeStep(t, p, end, c);
    } else {
      PlainCharStep(t, p, end);
    }
  }

  lemma {:induction false} EscapeIsReadBack(t: string, p: nat, end: nat, s: string)
    requires NUL !in s && Reads(t, p, Escape(s)) && end == p + |Escape(s)| < |t| && t[end] == '"'
    ensures ClosingQuote(t, p) == Ok((), end)
    ensures Unescape(t, p, end) == Ok(s, end)
    decreases |s|
  {
    hide LiteralStep, EscapeChar;
    if s != "" {
      var e := EscapeChar(s[0]);
      ReadsConcat(t, p, e, Escape(s[1..]));
      EscapeCharStep(t, p, end, s[0]);
      EscapeIsReadBack(t, p + |e|, end, s[1..]);
      assert s == [s[0]] + s[1..];
    }
  }

  lemma StringIsReadBack(t: string, i: nat, s: string)
    requires Terminated(t) && Reads(t, i, StringText(s)) && i + |StringText(s)| < |t|
    ensures t[i] == '"' && ParseString(t, i) == Ok(CString(s), i + |StringText(s)|)
  {
    var body := Escape(CString(s));
    hide Escape, CString, Unescape, ClosingQuote, Reads;
    ReadsConcat(t, i, "\"", body + "\"");
    ReadsConcat(t, i + 1, body, "\"");
    ReadsAt(t, i, "\"", 0);
    ReadsAt(t, i + 1 + |body|, "\"", 0);
    NoNulInCString(s);
    EscapeIsReadBack(t, i + 1, i + 1 + |body|, CString(s));
  }

  lemma NoNulInCString(s: string)
    ensures NUL !in CString(s)
  {
  }

  // ---------- numbers

  lemma NumberIsReadBack(t: string, i: nat, s: string)
    requires Terminated(t) && NumberText(s) && Reads(t, i, s)
    requires i + |s| < |t| && !IsNumberChar(t[i + |s|])
    ensures ParseNumber(t, i) == Ok(Number(s), i + |s|)
    ensures t[i] == '-' || IsDigit(t[i])
  {
    hide IsNumberChar, NumberSpan, StrtodLength;
    forall k | i <= k < i + |s| ensures IsNumberChar(t[k]) { ReadsAt(t, i, s, k - i); }
    NumberSpanIs(t, i, |s|, 63);
    ReadsAt(t, i, s, 0);
  }

  lemma NotAWord(t: string, i: nat)
    requires i < |t| && t[i] != 'n' && t[i] != 'f' && t[i] != 't'
    ensures !Reads(t, i, "null") && !Reads(t, i, "false") && !Reads(t, i, "true")
  {
    if Reads(t, i, "null") { ReadsAt(t, i, "null", 0); }
    if Reads(t, i, "false") { ReadsAt(t, i, "false", 0); }
    if Reads(t, i, "true") { ReadsAt(t, i, "true", 0); }
  }

  // ---------- trees

  /** What parsing the text of `v` at depth `depth` gives: the tree C code sees, or a refusal when the
      nesting limit is passed. */
  function Expected<T>(fits: bool, value: T, next: nat): Parsed<T> {
    if fits then Ok(value, next) else Fail
  }

  /** A character that can follow a value: no number goes on with it. */
  predicate EndsValue(t: string, i: nat) {
    i < |t| && !IsNumberChar(t[i])
  }

  lemma ClosingEndsValue(t: string, i: nat)
    requires i < |t| && (t[i] == ',' || t[i] == ']' || t[i] == '}' || t[i] as int <= 32)
    ensures EndsValue(t, i)
  {
  }

  lemma {:induction false} FirstChar(v: Json, fmt: bool, indent: nat)
    requires NumbersPrintable(v)
    ensures var text := Text(v, fmt, indent); text != "" && text[0] as int > 32 && text[0] != ']' && text[0] != ','
  {
  }

  lemma {:induction false} ValueIsReadBack(t: string, i: nat, v: Json, fmt: bool, indent: nat, depth: nat)
    requires Terminated(t) && NumbersPrintable(v) && Reads(t, i, Text(v, fmt, indent))
    requires EndsValue(t, i + |Text(v, fmt, indent)|) && depth <= NESTING_LIMIT
    ensures i < |t|
    ensures ParseValue(t, i, depth)
         == Expected(depth + Nesting(v) <= NESTING_LIMIT, AsCStrings(v), i + |Text(v, fmt, indent)|)
    decreases v, 3
  {
    hide Reads, ItemsText, MembersText, ParseArray, ParseObject, ParseNumber, StringText, ParseString;
    FirstChar(v, fmt, indent);
    ReadsAt(t, i, Text(v, fmt, indent), 0);
    match v {
      case Number(s) => NumberIsReadBack(t, i, s); NotAWord(t, i);
      case String(s) => StringIsReadBack(t, i, s); NotAWord(t, i);
      case Array(items) => ArrayIsReadBack(t, i, items, fmt, indent, depth);
      case Object(members) => ObjectIsReadBack(t, i, members, fmt, indent, depth);
      case Null =>
      case False => assert !Reads(t, i, "null") by { if Reads(t, i, "null") { ReadsAt(t, i, "null", 0); } }
      case True =>
        assert !Reads(t, i, "null") by { if Reads(t, i, "null") { ReadsAt(t, i, "null", 0); } }
        assert !Reads(t, i, "false") by { if Reads(t, i, "false") { ReadsAt(t, i, "false", 0); } }
    }
  }

  lemma {:induction false} ArrayIsReadBack(t: string, i: nat, items: seq<Json>, fmt: bool, indent: nat, depth: nat)
    requires Terminated(t) && ItemsPrintable(items) && Reads(t, i, Text(Array(items), fmt, indent))
    requires i + |Text(Array(items), fmt, indent)| < |t| && depth <= NESTING_LIMIT
    ensures i < |t|
    ensures ParseValue(t, i, depth)
         == Expected(depth + Nesting(Array(items)) <= NESTING_LIMIT, AsCStrings(Array(items)),
                     i + |Text(Array(items), fmt, indent)|)
    decreases items, 3
  {
    hide Reads, ParseItems, ParseArray, Skip, ParseObject, ParseNumber, ParseString, ItemsText, ItemsPrintable;
    var body := ItemsText(items, fmt, indent + 1);
    ReadsConcat(t, i, "[", body + "]");
    ReadsConcat(t, i + 1, body, "]");
    ReadsAt(t, i, "[", 0);
    ReadsAt(t, i + 1 + |body|, "]", 0);
    NotAWord(t, i);
    BracketsAreReadBack(t, i, items, fmt, indent, depth);
  }

  lemma {:induction false} BracketsAreReadBack(t: string, i: nat, items: seq<Json>, fmt: bool, indent: nat, depth: nat)
    requires Terminated(t) && ItemsPrintable(items) && i < |t| && t[i] == '[' && Reads(t, i + 1, ItemsText(items, fmt, indent + 1))
    requires var e := i + 1 + |ItemsText(items, fmt, indent + 1)|; e < |t| - 1 && t[e] == ']'
    requires depth <= NESTING_LIMIT
    ensures ParseArray(t, i, depth)
         == Expected(depth + Nesting(Array(items)) <= NESTING_LIMIT, AsCStrings(Array(items)),
                     i + 1 + |ItemsText(items, fmt, indent + 1)| + 1)
    decreases items, 2
  {
    hide Reads, ParseItems, ParseArray, Skip, ItemsText, ItemsPrintable;
    var e := i + 1 + |ItemsText(items, fmt, indent + 1)|;
    if depth >= NESTING_LIMIT {
      TooDeep(t, i, depth);
    } else if items == [] {
      NoItems(fmt, indent + 1);
      SkipSolid(t, i + 1);
      ParseEmptyArray(t, i, depth);
    } else {
      FirstItemChar(t, i + 1, items, fmt, indent + 1);
      SkipSolid(t, i + 1);
      ItemsAreReadBack(t, i + 1, items, fmt, indent + 1, depth + 1);
      ParseFullArray(t, i, depth, depth + 1 + NestingOfItems(items) <= NESTING_LIMIT, ItemsAsCStrings(items), e + 1);
    }
  }

  lemma NoItems(fmt: bool, indent: nat)
    ensures ItemsText([], fmt, indent) == "" && ItemsAsCStrings([]) == [] && NestingOfItems([]) == 0
  {
  }

  lemma TooDeep(t: string, i: nat, depth: nat)
    requires Terminated(t) && i < |t| && t[i] == '[' && depth >= NESTING_LIMIT
    ensures ParseArray(t, i, depth) == Fail
  {
  }

  lemma ParseEmptyArray(t: string, i: nat, depth: nat)
    requires Terminated(t) && i + 1 < |t| && t[i] == '[' && depth < NESTING_LIMIT && Skip(t, i + 1) == i + 1 && t[i + 1] == ']'
    ensures ParseArray(t, i, depth) == Ok(Array([]), i + 2)
  {
    hide Skip;
  }

  lemma ParseFullArray(t: string, i: nat, depth: nat, fits: bool, items: seq<Json>, end: nat)
    requires Terminated(t) && i + 1 < |t| && t[i] == '[' && depth < NESTING_LIMIT && Skip(t, i + 1) == i + 1 && t[i + 1] != ']'
    requires ParseItems(t, i + 1, depth + 1) == Expected(fits, items, end)
    ensures ParseArray(t, i, depth) == Expected(fits, Array(items), end)
  {
    hide Skip, ParseItems;
  }

  lemma FirstItemChar(t: string, i: nat, items: seq<Json>, fmt: bool, indent: nat)
    requires items != [] && ItemsPrintable(items) && Reads(t, i, ItemsText(items, fmt, indent))
    ensures i < |t| && t[i] as int > 32 && t[i] != ']' && t[i] != ','
  {
    FirstChar(items[0], fmt, indent);
    ReadsAt(t, i, ItemsText(items, fmt, indent), 0);
  }

  /** Where the pieces of a list's text are: the first item ends at `k`, the next one starts at `n`. */
  lemma ItemPieces(t: string, i: nat, items: seq<Json>, fmt: bool, indent: nat) returns (k: nat, n: nat)
    requires items != [] && ItemsPrintable(items) && Reads(t, i, ItemsText(items, fmt, indent))
    ensures Reads(t, i, Text(items[0], fmt, indent)) && k == i + |Text(items[0], fmt, indent)|
    ensures |items| == 1 ==> k == i + |ItemsText(items, fmt, indent)|
    ensures |items| > 1 ==> k < n < |t| && t[k] == ',' && t[n] as int > 32
    ensures |items| > 1 ==> forall j :: k < j < n ==> t[j] as int <= 32
    ensures |items| > 1 ==> Reads(t, n, ItemsText(items[1..], fmt, indent))
    ensures |items| > 1 ==> n + |ItemsText(items[1..], fmt, indent)| == i + |ItemsText(items, fmt, indent)|
  {
    hide Reads, Text;
    var head := Text(items[0], fmt, indent);
    var sep := ItemEnd(fmt, |items| == 1);
    var rest := ItemsText(items[1..], fmt, indent);
    ReadsConcat(t, i, head, sep + rest);
    ReadsConcat(t, i + |head|, sep, rest);
    k, n := i + |head|, i + |head| + |sep|;
    if |items| > 1 {
      ReadsAt(t, k, sep, 0);
      if fmt { ReadsAt(t, k, sep, 1); }
      FirstItemChar(t, n, items[1..], fmt, indent);
    }
  }

  lemma {:induction false} ItemsAreReadBack(t: string, i: nat, items: seq<Json>, fmt: bool, indent: nat, depth: nat)
    requires Terminated(t) && items != [] && ItemsPrintable(items) && Reads(t, i, ItemsText(items, fmt, indent))
    requires depth <= NESTING_LIMIT
    requires i + |ItemsText(items, fmt, indent)| < |t| - 1 && t[i + |ItemsText(items, fmt, indent)|] == ']'
    ensures i < |t|
    ensures ParseItems(t, i, depth)
         == Expected(depth + NestingOfItems(items) <= NESTING_LIMIT, ItemsAsCStrings(items),
                     i + |ItemsText(items, fmt, indent)| + 1)
    decreases items, 1
  {
    hide Reads, Skip, ParseValue, ParseItems, Text, EndsValue, ItemsText;
    var k, n := ItemPieces(t, i, items, fmt, indent);
    ClosingEndsValue(t, k);
    ValueIsReadBack(t, i, items[0], fmt, indent, depth);
    SkipSolid(t, k);
    var fits, item := depth + Nesting(items[0]) <= NESTING_LIMIT, AsCStrings(items[0]);
    if |items| > 1 {
      SkipTo(t, k + 1, n);
      ItemsAreReadBack(t, n, items[1..], fmt, indent, depth);
      ParseMoreItems(t, i, depth, fits, item, k, n, depth + NestingOfItems(items[1..]) <= NESTING_LIMIT, ItemsAsCStrings(items[1..]),
                     n + |ItemsText(items[1..], fmt, indent)| + 1);
    } else {
      OnlyItem(items);
      ParseLastItem(t, i, depth, fits, item, k);
    }
  }

  lemma OnlyItem(items: seq<Json>)
    requires |items| == 1
    ensures NestingOfItems(items) == Nesting(items[0]) && ItemsAsCStrings(items) == [AsCStrings(items[0])]
  {
    assert items[1..] == [];
  }

  lemma ParseLastItem(t: string, i: nat, depth: nat, fits: bool, item: Json, k: nat)
    requires Terminated(t) && i < |t| && depth <= NESTING_LIMIT && k < |t|
    requires ParseValue(t, i, depth) == Expected(fits, item, k) && Skip(t, k) == k && t[k] == ']'
    ensures ParseItems(t, i, depth) == Expected(fits, [item], k + 1)
  {
    hide ParseValue, Skip;
  }

  lemma ParseMoreItems(t: string, i: nat, depth: nat, fits: bool, item: Json, k: nat, n: nat, restFits: bool, rest: seq<Json>, end: nat)
    requires Terminated(t) && i < |t| && depth <= NESTING_LIMIT && k < n < |t|
    requires ParseValue(t, i, depth) == Expected(fits, item, k) && Skip(t, k) == k && t[k] == ',' && Skip(t, k + 1) == n
    requires ParseItems(t, n, depth) == Expected(restFits, rest, end)
    ensures ParseItems(t, i, depth) == Expected(fits && restFits, [item] + rest, end)
  {
    hide ParseValue, Skip;
  }

  /** Where the pieces of an object's text are: the first member at `b`, the closing brace at `e`. */
  lemma ObjectPieces(t: string, i: nat, members: seq<Member>, fmt: bool, indent: nat) returns (b: nat, e: nat)
    requires Reads(t, i, Text(Object(members), fmt, indent))
    ensures i < b <= e < |t| && e + 1 == i + |Text(Object(members), fmt, indent)|
    ensures t[i] == '{' && t[e] == '}'
    ensures Reads(t, b, MembersText(members, fmt, indent + 1)) && b + |MembersText(members, fmt, indent + 1)| <= e
    ensures forall k :: i < k < b ==> t[k] as int <= 32
    ensures forall k :: b + |MembersText(members, fmt, indent + 1)| <= k < e ==> t[k] as int <= 32
  {
    hide Reads, MembersText;
    var gap := Gap(fmt, '\n');
    var body := MembersText(members, fmt, indent + 1);
    var tabs := Indent(fmt, indent);
    ReadsFive(t, i, "{", gap, body, tabs, "}");
    b := i + 1 + |gap|;
    e := b + |body| + |tabs|;
    ReadsAt(t, i, "{", 0);
    ReadsAt(t, e, "}", 0);
    forall k | i < k < b ensures t[k] as int <= 32 { ReadsAt(t, i + 1, gap, k - (i + 1)); }
    forall k | b + |body| <= k < e ensures t[k] as int <= 32 { ReadsAt(t, b + |body|, tabs, k - (b + |body|)); }
  }

  lemma ReadsFive(t: string, i: nat, a: string, b: string, c: string, d: string, e: string)
    requires Reads(t, i, a + (b + (c + (d + e))))
    ensures Reads(t, i, a) && Reads(t, i + |a|, b) && Reads(t, i + |a| + |b|, c) && Reads(t, i + |a| + |b| + |c|, d)
    ensures Reads(t, i + |a| + |b| + |c| + |d|, e) && i + |a| + |b| + |c| + |d| + |e| <= |t|
    ensures |a + (b + (c + (d + e)))| == |a| + |b| + |c| + |d| + |e|
  {
    hide Reads;
    ReadsConcat(t, i, a, b + (c + (d + e)));
    ReadsConcat(t, i + |a|, b, c + (d + e));
    ReadsConcat(t, i + |a| + |b|, c, d + e);
    ReadsConcat(t, i + |a| + |b| + |c|, d, e);
  }

  lemma {:induction false} ObjectIsReadBack(t: string, i: nat, members: seq<Member>, fmt: bool, indent: nat, depth: nat)
    requires Terminated(t) && MembersPrintable(members) && Reads(t, i, Text(Object(members), fmt, indent))
    requires i + |Text(Object(members), fmt, indent)| < |t| && depth <= NESTING_LIMIT
    ensures i < |t|
    ensures ParseValue(t, i, depth)
         == Expected(depth + Nesting(Object(members)) <= NESTING_LIMIT, AsCStrings(Object(members)),
                     i + |Text(Object(members), fmt, indent)|)
    decreases members, 2
  {
    hide Reads, ParseMembers, Skip, ParseArray, ParseNumber, ParseString, Text;
    var b, e := ObjectPieces(t, i, members, fmt, indent);
    NotAWord(t, i);
    if members == [] {
      SkipTo(t, i + 1, e);
    } else if depth < NESTING_LIMIT {
      var q := MemberStart(t, b, members, fmt, indent + 1);
      SkipTo(t, i + 1, q);
      MembersAreReadBack(t, b, q, e, members, fmt, indent + 1, depth + 1);
    }
  }

  /** The name of the first member starts after the indentation. */
  lemma MemberStart(t: string, b: nat, members: seq<Member>, fmt: bool, indent: nat) returns (q: nat)
    requires members != [] && Reads(t, b, MembersText(members, fmt, indent))
    ensures q == b + |Indent(fmt, indent)| < |t| && t[q] == '"'
    ensures forall k :: b <= k < q ==> t[k] as int <= 32
  {
    hide Reads, Text, Escape, CString, Gap, MemberEnd;
    var m, last := members[0], |members| == 1;
    var tabs := Indent(fmt, indent);
    q := b + |tabs|;
    ReadsConcat(t, b, MemberText(m, fmt, indent, last), MembersText(members[1..], fmt, indent));
    var tail := ":" + (Gap(fmt, '\t') + (Text(m.value, fmt, indent) + MemberEnd(fmt, last)));
    ReadsConcat(t, b, tabs, StringText(m.name) + tail);
    forall k | b <= k < q ensures t[k] as int <= 32 { ReadsAt(t, b, tabs, k - b); }
    ReadsConcat(t, q, StringText(m.name), tail);
    ReadsAt(t, q, StringText(m.name), 0);
  }

  /** The members from the name at `q`, in a text whose members start with the indentation at `b` and
      whose closing brace is at `e`. */
  lemma {:induction false} MembersAreReadBack(t: string, b: nat, q: nat, e: nat, members: seq<Member>, fmt: bool, indent: nat, depth: nat)
    requires Terminated(t) && members != [] && MembersPrintable(members)
    requires Reads(t, b, MembersText(members, fmt, indent)) && depth <= NESTING_LIMIT
    requires q == b + |Indent(fmt, indent)| < |t|
    requires b + |MembersText(members, fmt, indent)| <= e < |t| - 1 && t[e] == '}'
    requires forall k :: b + |MembersText(members, fmt, indent)| <= k < e ==> t[k] as int <= 32
    ensures ParseMembers(t, q, depth)
         == Expected(depth + NestingOfMembers(members) <= NESTING_LIMIT, MembersAsCStrings(members), e + 1)
    decreases members, 1
  {
    hide Reads, Skip, ParseMember, ParseMembers, MemberText, Indent, EndsValue, IsNumberChar;
    var last := |members| == 1;
    var text := MemberText(members[0], fmt, indent, last);
    var rest := MembersText(members[1..], fmt, indent);
    ReadsConcat(t, b, text, rest);
    var fits, m := depth + Nesting(members[0].value) <= NESTING_LIMIT, Member(CString(members[0].name), AsCStrings(members[0].value));
    if !last {
      var next := b + |text|;
      var q' := MemberStart(t, next, members[1..], fmt, indent);
      var v := MemberIsReadBack(t, b, q, members[0], fmt, indent, last, depth);
      SkipSolid(t, v);
      SkipTo(t, v + 1, q');
      MembersAreReadBack(t, next, q', e, members[1..], fmt, indent, depth);
      ParseMoreMembers(t, q, depth, fits, m, v, q', depth + NestingOfMembers(members[1..]) <= NESTING_LIMIT,
                       MembersAsCStrings(members[1..]), e + 1);
    } else {
      OnlyMember(members, fmt, indent);
      ClosingEndsValue(t, b + |text|);
      var v := MemberIsReadBack(t, b, q, members[0], fmt, indent, last, depth);
      SkipTo(t, v, e);
      ParseLastMember(t, q, depth, fits, m, v, e);
    }
  }

  lemma OnlyMember(members: seq<Member>, fmt: bool, indent: nat)
    requires |members| == 1
    ensures NestingOfMembers(members) == Nesting(members[0].value) && MembersText(members[1..], fmt, indent) == ""
    ensures MembersAsCStrings(members) == [Member(CString(members[0].name), AsCStrings(members[0].value))]
  {
    assert members[1..] == [];
  }

  lemma ParseLastMember(t: string, q: nat, depth: nat, fits: bool, m: Member, v: nat, e: nat)
    requires Terminated(t) && q < |t| && depth <= NESTING_LIMIT && v <= e < |t|
    requires ParseMember(t, q, depth) == Expected(fits, m, v) && Skip(t, v) == e && t[e] == '}'
    ensures ParseMembers(t, q, depth) == Expected(fits, [m], e + 1)
  {
    hide ParseMember, Skip;
  }

  lemma ParseMoreMembers(t: string, q: nat, depth: nat, fits: bool, m: Member, v: nat, q': nat, restFits: bool, rest: seq<Member>, end: nat)
    requires Terminated(t) && q < |t| && depth <= NESTING_LIMIT && v < q' < |t|
    requires ParseMember(t, q, depth) == Expected(fits, m, v) && Skip(t, v) == v && t[v] == ',' && Skip(t, v + 1) == q'
    requires ParseMembers(t, q', depth) == Expected(restFits, rest, end)
    ensures ParseMembers(t, q, depth) == Expected(fits && restFits, [m] + rest, end)
  {
    hide ParseMember, Skip;
  }

  /** Where the pieces of a member's text are: the colon at `c`, the value at `w`, its end at `v`. */
  lemma MemberPieces(t: string, b: nat, m: Member, fmt: bool, indent: nat, last: bool) returns (c: nat, w: nat, v: nat)
    requires NumbersPrintable(m.value) && Reads(t, b, MemberText(m, fmt, indent, last))
    ensures var q := b + |Indent(fmt, indent)|;
      && Reads(t, q, StringText(m.name)) && c == q + |StringText(m.name)|
      && c < w <= v <= b + |MemberText(m, fmt, indent, last)|
      && t[c] == ':' && Reads(t, w, Text(m.value, fmt, indent)) && v == w + |Text(m.value, fmt, indent)|
      && w < |t| && t[w] as int > 32 && forall k :: c < k < w ==> t[k] as int <= 32
    ensures v + |MemberEnd(fmt, last)| <= |t|
    ensures Reads(t, v, MemberEnd(fmt, last)) && b + |MemberText(m, fmt, indent, last)| == v + |MemberEnd(fmt, last)|
  {
    hide Reads, Text, StringText, MemberEnd, Indent;
    var tabs := Indent(fmt, indent);
    var q := b + |tabs|;
    var name := StringText(m.name);
    var gap := Gap(fmt, '\t');
    var value := Text(m.value, fmt, indent);
    var end := MemberEnd(fmt, last);
    ReadsConcat(t, b, tabs, name + (":" + (gap + (value + end))));
    ReadsFive(t, q, name, ":", gap, value, end);
    c := q + |name|;
    w := c + 1 + |gap|;
    v := w + |value|;
    ReadsAt(t, c, ":", 0);
    if fmt { ReadsAt(t, c + 1, gap, 0); }
    FirstChar(m.value, fmt, indent);
    ReadsAt(t, w, value, 0);
  }

  /** One member; `v` is the position just after its value. */
  lemma {:induction false} MemberIsReadBack(t: string, b: nat, q: nat, m: Member, fmt: bool, indent: nat, last: bool, depth: nat) returns (v: nat)
    requires Terminated(t) && NumbersPrintable(m.value)
    requires Reads(t, b, MemberText(m, fmt, indent, last)) && depth <= NESTING_LIMIT
    requires q == b + |Indent(fmt, indent)| < |t|
    requires last ==> EndsValue(t, b + |MemberText(m, fmt, indent, last)|)
    ensures ParseMember(t, q, depth)
         == Expected(depth + Nesting(m.value) <= NESTING_LIMIT, Member(CString(m.name), AsCStrings(m.value)), v)
    ensures q < v <= b + |MemberText(m, fmt, indent, last)|
    ensures !last ==> v < b + |MemberText(m, fmt, indent, last)| && t[v] == ','
    ensures forall k :: (if last then v else v + 1) <= k < b + |MemberText(m, fmt, indent, last)| ==> t[k] as int <= 32
    decreases m, 0
  {
    hide Reads, Skip, ParseValue, ParseString, Text, StringText, Indent, MemberText, EndsValue;
    var c, w, v' := MemberPieces(t, b, m, fmt, indent, last);
    v := v';
    var end := MemberEnd(fmt, last);
    forall k | v <= k < v + |end| ensures t[k] == end[k - v] { ReadsAt(t, v, end, k - v); }
    if end != "" { ClosingEndsValue(t, v); }
    StringIsReadBack(t, q, m.name);
    SkipSolid(t, c);
    SkipTo(t, c + 1, w);
    ValueIsReadBack(t, w, m.value, fmt, indent, depth);
  }

  // ---------- whole texts

  /** Parsing undoes printing: the text of any tree is read back as the tree that C code sees, consumed
      to its last byte, in either layout, exactly when the tree is within the nesting limit. */
  lemma ParsingUndoesPrinting(v: Json, fmt: bool, wholeText: bool)
    requires NumbersPrintable(v)
    ensures var text := Text(v, fmt, 0);
      ParseText(text, wholeText) == Expected(Nesting(v) <= NESTING_LIMIT, AsCStrings(v), |text|)
  {
    hide ParseValue, Text, EndsValue, WhitespaceEnd;
    var text := Text(v, fmt, 0);
    var t := text + [NUL];
    FirstChar(v, fmt, 0);
    assert 4 < |t| ==> t[..3] != BYTE_ORDER_MARK by { FirstByteIsAscii(v, fmt, 0); assert t[0] == text[0]; }
    SkipSolid(t, 0);
    ClosingEndsValue(t, |text|);
    assert t[0..0 + |text|] == text;
    ValueIsReadBack(t, 0, v, fmt, 0, 0);
    AllWhitespace(t, |text|);
  }

  lemma FirstByteIsAscii(v: Json, fmt: bool, indent: nat)
    requires NumbersPrintable(v)
    ensures Text(v, fmt, indent) != "" && Text(v, fmt, indent)[0] as int < 128
  {
    hide ItemsText, MembersText, Escape;
  }

  lemma AllWhitespace(t: string, i: nat)
    requires Terminated(t) && i == |t| - 1
    ensures Skip(t, i) == i
  {
    assert WhitespaceEnd(t, i + 1) == i + 1;
  }

  /** The same tree printed in the two layouts is read back as the same tree. */
  lemma LayoutsAgree(v: Json)
    requires NumbersPrintable(v) && Nesting(v) <= NESTING_LIMIT
    ensures ParseText(Text(v, true, 0), true).Ok? && ParseText(Text(v, false, 0), true).Ok?
    ensures ParseText(Text(v, true, 0), true).value == ParseText(Text(v, false, 0), true).value
  {
    hide ParseText, Text, Nesting, NumbersPrintable;
    ParsingUndoesPrinting(v, true, true);
    ParsingUndoesPrinting(v, false, true);
  }

  // ---------- what is printed

  /** Section 7 of RFC 8259: quotes, backslashes and control characters are escaped and nothing else is; the five controls
      that have a short escape get it, the others four hexadecimal digits in lower case. */
  lemma EscapedAs(c: char)
    ensures c as int > 31 && c != '"' && c != '\\' ==> EscapeChar(c) == [c]
    ensures EscapeChar('"') == "\\\"" && EscapeChar('\\') == "\\\\" && EscapeChar(8 as char) == "\\b" && EscapeChar(9 as char) == "\\t"
    ensures EscapeChar(10 as char) == "\\n" && EscapeChar(12 as char) == "\\f" && EscapeChar(13 as char) == "\\r"
    ensures c as int < 32 && c as int !in [8, 9, 10, 12, 13] ==>
      EscapeChar(c) == "\\u00" + [if c as int < 16 then '0' else '1', "0123456789abcdef"[c as int % 16]]
  {
  }

  /** The compact layout of an object with an array and an empty object in it, piece by piece. */
  lemma CompactExample(a: Member, b: Member)
    requires a == Member("a", Array([Number("1"), True])) && b == Member("b", Object([]))
    ensures Text(Object([a, b]), false, 0) == "{" + "\"a\":[1,true]," + "\"b\":{}" + "}"
  {
    MemberExamples(a, b);
    TwoMembers(a, b, false, 1);
    assert Indent(false, 0) == "";
    hide MemberText, MembersText, Indent;
    Braces("", MemberText(a, false, 1, false), MemberText(b, false, 1, true));
  }

  /** And its formatted layout, line by line. */
  lemma FormattedExample(a: Member, b: Member)
    requires a == Member("a", Array([Number("1"), True])) && b == Member("b", Object([]))
    ensures Text(Object([a, b]), true, 0) == "{\n" + "\t\"a\":\t[1, true],\n" + "\t\"b\":\t{\n\t}\n" + "}"
  {
    MemberExamples(a, b);
    TwoMembers(a, b, true, 1);
    assert Indent(true, 0) == "";
    hide MemberText, MembersText, Indent;
    Braces("\n", MemberText(a, true, 1, false), MemberText(b, true, 1, true));
    assert "{" + "\n" == "{\n";
  }

  lemma Braces(gap: string, x: string, y: string)
    ensures "{" + (gap + ((x + y) + ("" + "}"))) == "{" + gap + x + y + "}"
  {
  }

  lemma TwoMembers(a: Member, b: Member, fmt: bool, depth: nat)
    ensures MembersText([a, b], fmt, depth) == MemberText(a, fmt, depth, false) + MemberText(b, fmt, depth, true)
  {
    hide MemberText;
    assert [a, b][1..] == [b] && [b][1..] == [];
    assert MembersText([b], fmt, depth) == MemberText(b, fmt, depth, true) + "";
  }

  lemma TwoItems(v: Json, w: Json, fmt: bool, depth: nat)
    ensures ItemsText([v, w], fmt, depth) == Text(v, fmt, depth) + (ItemEnd(fmt, false) + Text(w, fmt, depth))
  {
    hide Text;
    assert [v, w][1..] == [w] && [w][1..] == [];
    assert ItemsText([w], fmt, depth) == Text(w, fmt, depth) + ("" + "");
  }

  lemma MemberExamples(a: Member, b: Member)
    requires a == Member("a", Array([Number("1"), True])) && b == Member("b", Object([]))
    ensures MemberText(a, false, 1, false) == "\"a\":[1,true]," && MemberText(b, false, 1, true) == "\"b\":{}"
    ensures MemberText(a, true, 1, false) == "\t\"a\":\t[1, true],\n" && MemberText(b, true, 1, true) == "\t\"b\":\t{\n\t}\n"
  {
    Quotes();
    ArrayExample();
    ObjectExample();
    hide StringText, Text;
    CompactMember(a, false);
    CompactMember(b, true);
    FormattedMember(a, false);
    FormattedMember(b, true);
  }

  lemma CompactMember(m: Member, last: bool)
    ensures MemberText(m, false, 1, last) == StringText(m.name) + ":" + Text(m.value, false, 1) + (if last then "" else ",")
  {
    hide StringText, Text;
  }

  lemma FormattedMember(m: Member, last: bool)
    ensures MemberText(m, true, 1, last) == "\t" + StringText(m.name) + ":\t" + Text(m.value, true, 1) + (if last then "\n" else ",\n")
  {
    hide StringText, Text;
    assert Indent(true, 1) == "\t";
  }

  lemma Quotes()
    ensures StringText("a") == "\"a\"" && StringText("b") == "\"b\""
  {
    assert CString("a") == "a" && CString("b") == "b";
  }

  lemma ItemsExample(fmt: bool)
    ensures ItemsText([Number("1"), True], fmt, 2) == if fmt then "1, true" else "1,true"
  {
    TwoItems(Number("1"), True, fmt, 2);
    assert Text(Number("1"), fmt, 2) == "1" && Text(True, fmt, 2) == "true";
    hide Text, ItemsText;
    assert "1" + (", " + "true") == "1, true";
    assert "1" + ("," + "true") == "1,true";
  }

  lemma ArrayExample()
    ensures Text(Array([Number("1"), True]), false, 1) == "[1,true]" && Text(Array([Number("1"), True]), true, 1) == "[1, true]"
  {
    ItemsExample(true);
    ItemsExample(false);
    hide ItemsText;
    assert "[" + ("1, true" + "]") == "[1, true]";
    assert "[" + ("1,true" + "]") == "[1,true]";
  }

  lemma ObjectExample()
    ensures Text(Object([]), false, 1) == "{}" && Text(Object([]), true, 1) == "{\n\t}"
  {
    assert Indent(true, 1) == "\t" && Indent(false, 1) == "" && MembersText([], true, 2) == "" && MembersText([], false, 2) == "";
    hide Indent, MembersText;
  }

  // ---------- what the parser accepts

  /** Nothing nested deeper than the limit is ever accepted, whatever the text. */
  lemma {:induction false} AcceptedIsShallow(t: string, i: nat, depth: nat)
    requires Terminated(t) && i < |t| && depth <= NESTING_LIMIT
    ensures var r := ParseValue(t, i, depth); r.Ok? ==> depth + Nesting(r.value) <= NESTING_LIMIT
    decreases NESTING_LIMIT - depth, 2, 0
  {
    hide Reads, Skip, ParseString, ParseNumber, ParseItems, ParseMembers;
    if depth < NESTING_LIMIT && i + 1 < |t| {
      var j := Skip(t, i + 1);
      AcceptedItemsAreShallow(t, j, depth + 1);
      AcceptedMembersAreShallow(t, j, depth + 1);
    }
  }

  lemma {:induction false} AcceptedItemsAreShallow(t: string, i: nat, depth: nat)
    requires Terminated(t) && i < |t| && depth <= NESTING_LIMIT
    ensures var r := ParseItems(t, i, depth); r.Ok? ==> depth + NestingOfItems(r.value) <= NESTING_LIMIT
    decreases NESTING_LIMIT - depth, 3, |t| - i
  {
    hide ParseValue, Skip;
    AcceptedIsShallow(t, i, depth);
    var head := ParseValue(t, i, depth);
    if head.Ok? {
      var k := Skip(t, head.next);
      if t[k] == ',' {
        AcceptedItemsAreShallow(t, Skip(t, k + 1), depth);
        var tail := ParseItems(t, Skip(t, k + 1), depth);
        if tail.Ok? { assert ([head.value] + tail.value)[1..] == tail.value; }
      } else {
        assert [head.value][1..] == [];
      }
    }
  }

  lemma {:induction false} AcceptedMembersAreShallow(t: string, i: nat, depth: nat)
    requires Terminated(t) && i < |t| && depth <= NESTING_LIMIT
    ensures var r := ParseMembers(t, i, depth); r.Ok? ==> depth + NestingOfMembers(r.value) <= NESTING_LIMIT
    decreases NESTING_LIMIT - depth, 4, |t| - i
  {
    hide ParseMember, Skip;
    AcceptedMemberIsShallow(t, i, depth);
    var head := ParseMember(t, i, depth);
    if head.Ok? {
      var k := Skip(t, head.next);
      if t[k] == ',' {
        AcceptedMembersAreShallow(t, Skip(t, k + 1), depth);
        var tail := ParseMembers(t, Skip(t, k + 1), depth);
        if tail.Ok? { assert ([head.value] + tail.value)[1..] == tail.value; }
      } else {
        assert [head.value][1..] == [];
      }
    }
  }

  lemma {:induction false} AcceptedMemberIsShallow(t: string, i: nat, depth: nat)
    requires Terminated(t) && i < |t| && depth <= NESTING_LIMIT
    ensures var r := ParseMember(t, i, depth); r.Ok? ==> depth + Nesting(r.value.value) <= NESTING_LIMIT
    decreases NESTING_LIMIT - depth, 3, 0
  {
    hide ParseValue, Skip, ParseString;
    var name := ParseString(t, i);
    if name.Ok? {
      var k := Skip(t, name.next);
      if t[k] == ':' { AcceptedIsShallow(t, Skip(t, k + 1), depth); }
    }
  }

  /** What the parser accepts can be printed again: the printed text of an accepted tree, if its number tokens are ones
      that the printer writes, is accepted too, whole, and as the tree that C code sees. */
  lemma AcceptedIsPrintedAgain(value: string, wholeText: bool, fmt: bool)
    requires var r := ParseText(value, wholeText); r.Ok? && NumbersPrintable(r.value)
    ensures var v := ParseText(value, wholeText).value; var text := Text(v, fmt, 0);
      ParseText(text, true) == Ok(AsCStrings(v), |text|)
  {
    hide ParseValue, Text, Nesting, NumbersPrintable, AsCStrings, Skip;
    var t := value + [NUL];
    var start := Skip(t, if 4 < |t| && t[..3] == BYTE_ORDER_MARK then 3 else 0);
    AcceptedIsShallow(t, start, 0);
    ParsingUndoesPrinting(ParseText(value, wholeText).value, fmt, true);
  }
}
