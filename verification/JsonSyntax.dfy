/** JSON values as the parser builds them and the printer reads them, and the text of a value.
    A byte of the text is a `char`; a C string is the bytes up to the first NUL. */
module JsonSyntax {

  /** A tree of cJSON items. A number is the decimal text that strtod and sprintf exchange with it. */
  datatype Json =
    | Null
    | False
    | True
    | Number(text: string)
    | String(bytes: string)
    | Array(items: seq<Json>)
    | Object(members: seq<Member>)

  datatype Member = Member(name: string, value: Json)

  const NUL: char := '\0'

  /** The bytes of `s` that a reader of a NUL-terminated string sees. */
  function CString(s: string): (r: string)
    ensures r <= s && NUL !in r
    ensures |r| < |s| ==> s[|r|] == NUL
  {
    if s == "" || s[0] == NUL then ""
    else
      var r := CString(s[1..]);
      assert s == [s[0]] + s[1..];
      [s[0]] + r
  }

  /** How many arrays and objects enclose the deepest value of `v`, `v` included. */
  function Nesting(v: Json): nat
    decreases v, 1
  {
    match v
    case Array(items) => 1 + NestingOfItems(items)
    case Object(members) => 1 + NestingOfMembers(members)
    case _ => 0
  }

  function NestingOfItems(items: seq<Json>): nat
    decreases items, 0
  {
    if items == [] then 0 else Max(Nesting(items[0]), NestingOfItems(items[1..]))
  }

  function NestingOfMembers(members: seq<Member>): nat
    decreases members, 0
  {
    if members == [] then 0 else Max(Nesting(members[0].value), NestingOfMembers(members[1..]))
  }

  function Max(a: nat, b: nat): nat {
    if a < b then b else a
  }

  /** The same tree with every string cut at its first NUL, as C code reads it. */
  function AsCStrings(v: Json): Json
    decreases v, 1
  {
    match v
    case String(s) => String(CString(s))
    case Array(items) => Array(ItemsAsCStrings(items))
    case Object(members) => Object(MembersAsCStrings(members))
    case _ => v
  }

  function ItemsAsCStrings(items: seq<Json>): (r: seq<Json>)
    decreases items, 0
  {
    if items == [] then [] else [AsCStrings(items[0])] + ItemsAsCStrings(items[1..])
  }

  function MembersAsCStrings(members: seq<Member>): (r: seq<Member>)
    decreases members, 0
  {
    if members == [] then []
    else [Member(CString(members[0].name), AsCStrings(members[0].value))] + MembersAsCStrings(members[1..])
  }

  // ---------- numbers

  predicate IsDigit(c: char) {
    '0' <= c <= '9'
  }

  /** The characters that parse_number collects for strtod. */
  predicate IsNumberChar(c: char) {
    IsDigit(c) || c == '+' || c == '-' || c == 'e' || c == 'E' || c == '.'
  }

  function DigitSpan(s: string, i: nat): (n: nat)
    requires i <= |s|
    ensures i + n <= |s|
    decreases |s| - i
  {
    if i < |s| && IsDigit(s[i]) then 1 + DigitSpan(s, i + 1) else 0
  }

  /** How much of `s`, made of number characters, strtod consumes: an optional sign, digits with an
      optional point, at least one digit in all, and an exponent if it has digits. */
  function StrtodLength(s: string): (n: nat)
    ensures n <= |s|
  {
    var sign := if s != "" && (s[0] == '-' || s[0] == '+') then 1 else 0;
    var whole := DigitSpan(s, sign);
    var point := sign + whole;
    var fraction := if point < |s| && s[point] == '.' then DigitSpan(s, point + 1) else 0;
    if whole + fraction == 0 then 0
    else
      var mantissa := if point < |s| && s[point] == '.' then point + 1 + fraction else point;
      if mantissa < |s| && (s[mantissa] == 'e' || s[mantissa] == 'E') then
        var expSign := if mantissa + 1 < |s| && (s[mantissa + 1] == '-' || s[mantissa + 1] == '+') then 1 else 0;
        var exponent := DigitSpan(s, mantissa + 1 + expSign);
        if exponent == 0 then mantissa else mantissa + 1 + expSign + exponent
      else mantissa
  }

  /** A text that print_number can produce: it fits the 26-byte buffer and strtod reads all of it. */
  predicate NumberText(s: string) {
    && 0 < |s| <= 25
    && (s[0] == '-' || IsDigit(s[0]))
    && (forall i :: 0 <= i < |s| ==> IsNumberChar(s[i]))
    && StrtodLength(s) == |s|
  }

  /** Every number of `v` has a text that print_number can produce. */
  predicate NumbersPrintable(v: Json)
    decreases v, 1
  {
    match v
    case Number(text) => NumberText(text)
    case Array(items) => ItemsPrintable(items)
    case Object(members) => MembersPrintable(members)
    case _ => true
  }

  predicate ItemsPrintable(items: seq<Json>)
    decreases items, 0
  {
    items == [] || (NumbersPrintable(items[0]) && ItemsPrintable(items[1..]))
  }

  predicate MembersPrintable(members: seq<Member>)
    decreases members, 0
  {
    members == [] || (NumbersPrintable(members[0].value) && MembersPrintable(members[1..]))
  }

  // ---------- the text of a value

  function HexDigit(d: nat): (c: char)
    requires d < 16
    ensures '0' <= c <= '9' || 'a' <= c <= 'f'
  {
    if d < 10 then ('0' as int + d) as char else ('a' as int + (d - 10)) as char
  }

  /** One byte of a string literal, section 7 of RFC 8259. */
  function EscapeChar(c: char): (r: string)
    ensures r != ""
    ensures c != NUL ==> NUL !in r
  {
    if c == '"' then "\\\""
    else if c == '\\' then "\\\\"
    else if c > 31 as char then [c]
    else if c == 8 as char then "\\b"
    else if c == 12 as char then "\\f"
    else if c == '\n' then "\\n"
    else if c == '\r' then "\\r"
    else if c == '\t' then "\\t"
    else "\\u00" + [HexDigit(c as int / 16), HexDigit(c as int % 16)]
  }

  function Escape(s: string): (r: string)
    ensures NUL !in s ==> NUL !in r
    ensures |r| >= |s|
  {
    if s == "" then "" else EscapeChar(s[0]) + Escape(s[1..])
  }

  function StringText(s: string): (r: string)
    ensures NUL !in r
  {
    "\"" + (Escape(CString(s)) + "\"")
  }

  function Tabs(n: nat): (r: string)
    ensures |r| == n && forall i :: 0 <= i < n ==> r[i] == '\t'
  {
    seq(n, i => '\t')
  }

  // The pieces between values; each is empty or white space when `fmt` only asks for layout.

  function Indent(fmt: bool, n: nat): (r: string)
    ensures |r| == if fmt then n else 0
    ensures forall k :: 0 <= k < |r| ==> r[k] == '\t'
  {
    if fmt then Tabs(n) else ""
  }

  function Gap(fmt: bool, c: char): string {
    if fmt then [c] else ""
  }

  function ItemEnd(fmt: bool, last: bool): string {
    if last then "" else if fmt then ", " else ","
  }

  function MemberEnd(fmt: bool, last: bool): string {
    (if last then "" else ",") + Gap(fmt, '\n')
  }

  /** The text of `v` printed at nesting depth `depth`; `fmt` asks for the formatted layout. */
  function Text(v: Json, fmt: bool, depth: nat): string
    decreases v, 1
  {
    match v
    case Null => "null"
    case False => "false"
    case True => "true"
    case Number(text) => text
    case String(s) => StringText(s)
    case Array(items) => "[" + (ItemsText(items, fmt, depth + 1) + "]")
    case Object(members) =>
      "{" + (Gap(fmt, '\n') + (MembersText(members, fmt, depth + 1) + (Indent(fmt, depth) + "}")))
  }

  function ItemsText(items: seq<Json>, fmt: bool, depth: nat): string
    decreases items, 0
  {
    if items == [] then ""
    else Text(items[0], fmt, depth) + (ItemEnd(fmt, |items| == 1) + ItemsText(items[1..], fmt, depth))
  }

  function MemberText(m: Member, fmt: bool, depth: nat, last: bool): string
    decreases m, 2
  {
    Indent(fmt, depth)
    + (StringText(m.name) + (":" + (Gap(fmt, '\t') + (Text(m.value, fmt, depth) + MemberEnd(fmt, last)))))
  }

  function MembersText(members: seq<Member>, fmt: bool, depth: nat): string
    decreases members, 0
  {
    if members == [] then ""
    else MemberText(members[0], fmt, depth, |members| == 1) + MembersText(members[1..], fmt, depth)
  }
}
