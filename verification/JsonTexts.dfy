/** Every JSON text, section 2 of RFC 8259: white space between the tokens, characters of strings written in any of the
    ways that section 7 allows, and numbers; and that the parser reads each as the value it stands for. */
module JsonTexts {
  import opened JsonSyntax
  import opened JsonGrammar
  import opened JsonRoundTrip
  import opened JsonEscapes
  import opened JsonNumbers

  // ---------- strings

  /** One character of a string literal: as it is, as a two-character escape, or as a `\u` escape. */
  datatype Piece = Plain(c: char) | Short(letter: char) | Unicode(escape: string, cp: nat) {
    predicate Valid() {
      match this
      case Plain(c) => c != '"' && c != '\\'
      case Short(letter) => letter in "\"\\/bfnrt"
      case Unicode(escape, cp) => ScalarValue(cp) && |escape| == EscapeLength(cp) && EscapedAt(escape, 0, cp)
    }

    function Spelling(): string {
      match this
      case Plain(c) => [c]
      case Short(letter) => ['\\', letter]
      case Unicode(escape, _) => escape
    }

    /** The bytes that are meant: the table of section 7 of RFC 8259 for the short escapes, UTF-8 for the others. */
    function Meaning(): string {
      match this
      case Plain(c) => [c]
      case Short('b') => [8 as char]
      case Short('t') => [9 as char]
      case Short('n') => [10 as char]
      case Short('f') => [12 as char]
      case Short('r') => [13 as char]
      case Short(letter) => [letter]
      case Unicode(_, cp) => if cp <= 0x10FFFF then Utf8(cp) else ""
    }
  }

  predicate AllPieces(ps: seq<Piece>) {
    forall i :: 0 <= i < |ps| ==> ps[i].Valid()
  }

  function Spelled(ps: seq<Piece>): string {
    if ps == [] then "" else ps[0].Spelling() + Spelled(ps[1..])
  }

  function Meant(ps: seq<Piece>): string {
    if ps == [] then "" else ps[0].Meaning() + Meant(ps[1..])
  }

  lemma PlainIsRead(t: string, p: nat, end: nat, c: char)
    requires p < end < |t| && t[p] == c && c != '"' && c != '\\'
    ensures LiteralStep(t, p, end) == Ok([c], p + 1) && ClosingQuote(t, p) == ClosingQuote(t, p + 1)
  {
  }

  lemma ShortIsRead(t: string, p: nat, end: nat, piece: Piece)
    requires piece.Short? && piece.Valid() && p + 2 <= end < |t| && t[p] == '\\' && t[p + 1] == piece.letter
    ensures LiteralStep(t, p, end) == Ok(piece.Meaning(), p + 2) && ClosingQuote(t, p) == ClosingQuote(t, p + 2)
  {
  }

  lemma DigitIsPlain(c: char, d: nat)
    requires d < 16 && Spells(c, d)
    ensures c != '"' && c != '\\'
  {
  }

  lemma FourDigitsAreSkipped(t: string, p: nat, u: nat)
    requires u < 0x10000 && p + 4 < |t| && FourDigitsAt(t, p, u)
    ensures ClosingQuote(t, p) == ClosingQuote(t, p + 4)
  {
    DigitIsPlain(t[p], u / 0x1000);
    DigitIsPlain(t[p + 1], u / 0x100 % 0x10);
    DigitIsPlain(t[p + 2], u / 0x10 % 0x10);
    DigitIsPlain(t[p + 3], u % 0x10);
    hide FourDigitsAt;
    assert ClosingQuote(t, p) == ClosingQuote(t, p + 1) == ClosingQuote(t, p + 2) == ClosingQuote(t, p + 3);
  }

  lemma EscapeMoves(t: string, p: nat, escape: string, cp: nat)
    requires ScalarValue(cp) && |escape| == EscapeLength(cp) && EscapedAt(escape, 0, cp) && Reads(t, p, escape)
    ensures p + EscapeLength(cp) <= |t| && EscapedAt(t, p, cp)
  {
    forall k | 0 <= k < |escape| ensures t[p + k] == escape[k] { ReadsAt(t, p, escape, k); }
    hide Spells;
  }

  lemma UnicodeIsRead(t: string, p: nat, end: nat, cp: nat)
    requires ScalarValue(cp) && p + EscapeLength(cp) <= end < |t| && EscapedAt(t, p, cp)
    ensures LiteralStep(t, p, end) == Ok(Utf8(cp), p + EscapeLength(cp))
    ensures ClosingQuote(t, p) == ClosingQuote(t, p + EscapeLength(cp))
  {
    EscapeIsDecoded(t, p, end, cp);
    hide FourDigitsAt, Utf16Escape;
    assert ClosingQuote(t, p) == ClosingQuote(t, p + 2);
    if cp < 0x10000 {
      FourDigitsAreSkipped(t, p + 2, cp);
    } else {
      FourDigitsAreSkipped(t, p + 2, 0xD800 + (cp - 0x10000) / 0x400);
      assert ClosingQuote(t, p + 6) == ClosingQuote(t, p + 8);
      FourDigitsAreSkipped(t, p + 8, 0xDC00 + (cp - 0x10000) % 0x400);
    }
  }

  lemma PieceIsRead(t: string, p: nat, end: nat, piece: Piece)
    requires piece.Valid() && Reads(t, p, piece.Spelling()) && p + |piece.Spelling()| <= end < |t|
    ensures LiteralStep(t, p, end) == Ok(piece.Meaning(), p + |piece.Spelling()|)
    ensures ClosingQuote(t, p) == ClosingQuote(t, p + |piece.Spelling()|)
    ensures piece.Spelling() != ""
  {
    hide LiteralStep, ClosingQuote;
    match piece {
      case Plain(c) =>
        ReadsAt(t, p, [c], 0);
        PlainIsRead(t, p, end, c);
      case Short(letter) =>
        ReadsAt(t, p, ['\\', letter], 0);
        ReadsAt(t, p, ['\\', letter], 1);
        ShortIsRead(t, p, end, piece);
      case Unicode(escape, cp) =>
        EscapeMoves(t, p, escape, cp);
        UnicodeIsRead(t, p, end, cp);
    }
  }

  lemma {:induction false} PiecesAreRead(t: string, p: nat, end: nat, ps: seq<Piece>)
    requires AllPieces(ps) && Reads(t, p, Spelled(ps)) && end == p + |Spelled(ps)| < |t| && t[end] == '"'
    ensures ClosingQuote(t, p) == Ok((), end) && Unescape(t, p, end) == Ok(Meant(ps), end)
    decreases |ps|
  {
    hide LiteralStep, Reads, Piece.Valid, Piece.Spelling, Piece.Meaning;
    if ps != [] {
      var e := ps[0].Spelling();
      ReadsConcat(t, p, e, Spelled(ps[1..]));
      PieceIsRead(t, p, end, ps[0]);
      PiecesAreRead(t, p + |e|, end, ps[1..]);
    }
  }

  function Quoted(ps: seq<Piece>): string {
    "\"" + (Spelled(ps) + "\"")
  }

  /** A string literal, however each of its characters is written, is read as what is meant. */
  lemma LiteralIsRead(t: string, i: nat, ps: seq<Piece>)
    requires Terminated(t) && AllPieces(ps) && Reads(t, i, Quoted(ps)) && i + |Quoted(ps)| < |t|
    ensures i < |t| && t[i] == '"' && ParseString(t, i) == Ok(Meant(ps), i + |Quoted(ps)|)
  {
    hide Reads, Spelled, Meant, ClosingQuote, Unescape;
    var body := Spelled(ps);
    ReadsConcat(t, i, "\"", body + "\"");
    ReadsConcat(t, i + 1, body, "\"");
    ReadsAt(t, i, "\"", 0);
    ReadsAt(t, i + 1 + |body|, "\"", 0);
    PiecesAreRead(t, i + 1, i + 1 + |body|, ps);
  }

  // ---------- values

  /** A value as it is written: `open` is the white space in an empty pair of brackets. */
  datatype Doc =
    | Word(v: Json)
    | Numeral(parts: Parts)
    | Literal(pieces: seq<Piece>)
    | List(open: string, items: seq<Item>)
    | Record(open: string, fields: seq<Field>)

  /** An item with the white space around it. */
  datatype Item = Item(before: string, value: Doc, after: string)

  /** A member with the white space before its name, around its colon, and behind its value. */
  datatype Field = Field(before: string, name: seq<Piece>, behind: string, gap: string, value: Doc, after: string)

  predicate Space(w: string) {
    forall k :: 0 <= k < |w| ==> w[k] as int <= 32
  }

  predicate Valid(d: Doc)
    decreases d, 1
  {
    match d
    case Word(v) => v.Null? || v.False? || v.True?
    case Numeral(parts) => parts.Json() && |parts.Text()| <= 63
    case Literal(pieces) => AllPieces(pieces)
    case List(open, items) => Space(open) && ValidItems(items)
    case Record(open, fields) => Space(open) && ValidFields(fields)
  }

  predicate ValidItems(items: seq<Item>)
    decreases items, 0
  {
    items == [] ||
    (Space(items[0].before) && Valid(items[0].value) && Space(items[0].after) && ValidItems(items[1..]))
  }

  predicate ValidFields(fields: seq<Field>)
    decreases fields, 0
  {
    fields == [] || (ValidField(fields[0]) && ValidFields(fields[1..]))
  }

  predicate ValidField(f: Field)
    decreases f, 2
  {
    Space(f.before) && AllPieces(f.name) && Space(f.behind) && Space(f.gap) && Valid(f.value) && Space(f.after)
  }

  function Written(d: Doc): string
    decreases d, 1
  {
    match d
    case Word(Null) => "null"
    case Word(False) => "false"
    case Word(_) => "true"
    case Numeral(parts) => parts.Text()
    case Literal(pieces) => Quoted(pieces)
    case List(open, items) => "[" + (if items == [] then open + "]" else WrittenItems(items))
    case Record(open, fields) => "{" + (if fields == [] then open + "}" else WrittenFields(fields))
  }

  /** The items and the closing bracket. */
  function WrittenItems(items: seq<Item>): string
    decreases items, 0
  {
    if items == [] then ""
    else
      items[0].before + (Written(items[0].value) + (items[0].after + (if |items| == 1 then "]" else "," + WrittenItems(items[1..]))))
  }

  /** The members and the closing brace. */
  function WrittenFields(fields: seq<Field>): string
    decreases fields, 0
  {
    if fields == [] then ""
    else WrittenField(fields[0]) + (if |fields| == 1 then "}" else "," + WrittenFields(fields[1..]))
  }

  function WrittenField(f: Field): string
    decreases f, 2
  {
    f.before + (Quoted(f.name) + (f.behind + (":" + (f.gap + (Written(f.value) + f.after)))))
  }

  /** The value that is written. */
  function ValueOf(d: Doc): Json
    decreases d, 1
  {
    match d
    case Word(v) => v
    case Numeral(parts) => Number(parts.Text())
    case Literal(pieces) => String(Meant(pieces))
    case List(_, items) => Array(ValuesOf(items))
    case Record(_, fields) => Object(MembersOf(fields))
  }

  function ValuesOf(items: seq<Item>): seq<Json>
    decreases items, 0
  {
    if items == [] then [] else [ValueOf(items[0].value)] + ValuesOf(items[1..])
  }

  function MembersOf(fields: seq<Field>): seq<Member>
    decreases fields, 0
  {
    if fields == [] then [] else [MemberOf(fields[0])] + MembersOf(fields[1..])
  }

  function MemberOf(f: Field): Member
    decreases f, 2
  {
    Member(Meant(f.name), ValueOf(f.value))
  }

  // ---------- every text is read as it is meant

  lemma SpaceAt(t: string, i: nat, w: string)
    requires Reads(t, i, w) && Space(w)
    ensures i + |w| <= |t| && forall k :: i <= k < i + |w| ==> t[k] as int <= 32
  {
    forall k | i <= k < i + |w| ensures t[k] as int <= 32 {
      ReadsAt(t, i, w, k - i);
    }
  }

  /** White space is skipped, up to what stands behind it. */
  lemma SpaceIsSkipped(t: string, i: nat, w: string)
    requires Terminated(t) && Reads(t, i, w) && Space(w) && i + |w| < |t| && t[i + |w|] as int > 32
    ensures i < |t| && Skip(t, i) == i + |w|
  {
    SpaceAt(t, i, w);
    SkipTo(t, i, i + |w|);
  }

  lemma FirstWritten(d: Doc)
    requires Valid(d)
    ensures var w := Written(d); w != "" && 32 < w[0] as int < 128 && w[0] != ']' && w[0] != '}'
  {
    hide WrittenItems, WrittenFields, Spelled, ValidItems, ValidFields, AllPieces;
    match d {
      case Numeral(parts) => JsonStart(parts);
      case _ =>
    }
    hide Parts.Text, Parts.Json;
  }

  lemma NotBoth(t: string, i: nat, a: string, b: string)
    requires Reads(t, i, a) && a != "" && b != "" && a[0] != b[0]
    ensures !Reads(t, i, b)
  {
    hide Reads;
    ReadsAt(t, i, a, 0);
    if Reads(t, i, b) {
      ReadsAt(t, i, b, 0);
    }
  }

  lemma WordIsRead(t: string, i: nat, v: Json, depth: nat)
    requires Terminated(t) && (v.Null? || v.False? || v.True?) && Reads(t, i, Written(Word(v)))
    ensures i < |t| && ParseValue(t, i, depth) == Ok(v, i + |Written(Word(v))|)
  {
    hide Reads, ParseArray, ParseObject, ParseNumber, ParseString;
    ReadsAt(t, i, Written(Word(v)), 0);
    Within(t, i, Written(Word(v)));
    match v {
      case Null =>
      case False => NotBoth(t, i, "false", "null");
      case True =>
        NotBoth(t, i, "true", "null");
        NotBoth(t, i, "true", "false");
    }
  }

  /** The value if it is within the nesting limit, and a refusal if not. */
  function DocResult(d: Doc, depth: nat, end: nat): Parsed<Json>
  {
    Expected(depth + Nesting(ValueOf(d)) <= NESTING_LIMIT, ValueOf(d), end)
  }

  function ItemsResult(items: seq<Item>, depth: nat, end: nat): Parsed<seq<Json>>
  {
    Expected(depth + NestingOfItems(ValuesOf(items)) <= NESTING_LIMIT, ValuesOf(items), end)
  }

  function FieldResult(f: Field, depth: nat, end: nat): Parsed<Member>
  {
    Expected(depth + Nesting(ValueOf(f.value)) <= NESTING_LIMIT, MemberOf(f), end)
  }

  function FieldsResult(fields: seq<Field>, depth: nat, end: nat): Parsed<seq<Member>>
  {
    Expected(depth + NestingOfMembers(MembersOf(fields)) <= NESTING_LIMIT, MembersOf(fields), end)
  }

  /** A written value, anywhere in a text and at any depth, is read as its value, to its end, exactly when it is within the
      nesting limit. */
  lemma {:induction false} DocIsRead(t: string, i: nat, d: Doc, depth: nat)
    requires Terminated(t) && Valid(d) && Reads(t, i, Written(d)) && EndsValue(t, i + |Written(d)|)
    requires depth <= NESTING_LIMIT
    ensures i < |t|
    ensures ParseValue(t, i, depth) == DocResult(d, depth, i + |Written(d)|)
    decreases d, 3
  {
    hide Reads, ParseArray, ParseObject, ParseNumber, ParseString, WrittenItems, WrittenFields, Parts.Text, Parts.Json;
    hide IsNumberChar, AllPieces;
    match d {
      case Word(v) => WordIsRead(t, i, v, depth);
      case Numeral(parts) => NumeralIsRead(t, i, parts, depth);
      case Literal(pieces) => LiteralIsRead(t, i, pieces); NotAWord(t, i);
      case List(open, items) =>
        ListIsRead(t, i, open, items, depth);
      case Record(open, fields) =>
        RecordIsRead(t, i, open, fields, depth);
    }
  }

  lemma NumeralIsRead(t: string, i: nat, parts: Parts, depth: nat)
    requires Terminated(t) && parts.Json() && |parts.Text()| <= 63 && Reads(t, i, parts.Text())
    requires EndsValue(t, i + |parts.Text()|)
    ensures i < |t| && ParseValue(t, i, depth) == Ok(Number(parts.Text()), i + |parts.Text()|)
  {
    JsonStart(parts);
    hide Parts.Text, Parts.Json, ParseValue;
    JsonNumberIsParsed(t, i, parts, depth);
  }

  lemma ListBranch(t: string, i: nat, depth: nat)
    requires Terminated(t) && i < |t|
    ensures t[i] == '[' ==> ParseValue(t, i, depth) == ParseArray(t, i, depth)
    ensures t[i] == '{' ==> ParseValue(t, i, depth) == ParseObject(t, i, depth)
  {
    hide Reads, ParseArray, ParseObject, ParseNumber, ParseString;
    if t[i] == '[' || t[i] == '{' {
      NotAWord(t, i);
    }
  }

  lemma {:induction false} ListIsRead(t: string, i: nat, open: string, items: seq<Item>, depth: nat)
    requires var d := List(open, items);
      Terminated(t) && Valid(d) && Reads(t, i, Written(d)) && i + |Written(d)| < |t| && depth <= NESTING_LIMIT
    ensures i < |t|
    ensures var d := List(open, items); ParseValue(t, i, depth) == DocResult(d, depth, i + |Written(d)|)
    decreases items, 2
  {
    hide Reads, ParseValue, ParseItems, Skip, ParseArray, WrittenItems, ValidItems;
    var rest := if items == [] then open + "]" else WrittenItems(items);
    ReadsConcat(t, i, "[", rest);
    ReadsAt(t, i, "[", 0);
    ListBranch(t, i, depth);
    if depth >= NESTING_LIMIT {
      TooDeep(t, i, depth);
    } else if items == [] {
      ReadsConcat(t, i + 1, open, "]");
      ReadsAt(t, i + 1 + |open|, "]", 0);
      SpaceIsSkipped(t, i + 1, open);
      EmptyList(t, i, depth, i + 1 + |open|);
      NoValues();
    } else {
      var q := ItemsAreRead(t, i + 1, items, depth + 1);
      FullList(t, i, depth, q, open, items, i + 1 + |WrittenItems(items)|);
    }
  }

  lemma NoValues()
    ensures ValuesOf([]) == [] && MembersOf([]) == [] && NestingOfItems([]) == 0 && NestingOfMembers([]) == 0
  {
  }

  lemma EmptyList(t: string, i: nat, depth: nat, q: nat)
    requires Terminated(t) && i + 1 < |t|
    requires t[i] == '[' && depth < NESTING_LIMIT && Skip(t, i + 1) == q < |t| && t[q] == ']'
    ensures ParseArray(t, i, depth) == Ok(Array([]), q + 1)
  {
    hide Skip;
  }

  lemma FullList(t: string, i: nat, depth: nat, q: nat, open: string, items: seq<Item>, end: nat)
    requires Terminated(t) && i + 1 < |t|
    requires t[i] == '[' && depth < NESTING_LIMIT && Skip(t, i + 1) == q < |t| && t[q] != ']'
    requires ParseItems(t, q, depth + 1) == ItemsResult(items, depth + 1, end)
    ensures ParseArray(t, i, depth) == DocResult(List(open, items), depth, end)
  {
    hide Skip, ParseItems, ValuesOf, NestingOfItems, ValidItems, Space;
  }

  lemma ReadsFour(t: string, b: nat, u: string, v: string, w: string, x: string)
    requires Reads(t, b, u + (v + (w + x)))
    ensures var q := b + |u|; var e := q + |v|; var k := e + |w|;
      Reads(t, b, u) && Reads(t, q, v) && Reads(t, e, w) && Reads(t, k, x) && k + |x| == b + |u + (v + (w + x))| <= |t|
  {
    hide Reads;
    ReadsConcat(t, b, u, v + (w + x));
    ReadsConcat(t, b + |u|, v, w + x);
    ReadsConcat(t, b + |u| + |v|, w, x);
  }

  /** A value between white space, and what the parser skips before and behind it. */
  lemma ValuePlace(t: string, b: nat, before: string, value: string, after: string, k: nat)
    requires Terminated(t) && Space(before) && value != "" && value[0] as int > 32 && Space(after)
    requires k < |t| && (t[k] == ',' || t[k] == ']' || t[k] == '}')
    requires var q := b + |before|; var e := q + |value|;
      Reads(t, b, before) && Reads(t, q, value) && Reads(t, e, after) && k == e + |after|
    ensures var q := b + |before|; var e := q + |value|;
      q < e && Skip(t, b) == q && t[q] == value[0] && EndsValue(t, e) && Skip(t, e) == k
  {
    hide Reads, Skip, EndsValue, Space;
    ReadsAt(t, b + |before|, value, 0);
    SpaceIsSkipped(t, b, before);
    SpaceIsSkipped(t, k - |after|, after);
    SpaceEnds(t, k - |after|, after);
  }

  /** Where the pieces of an item are: the value at `q` to `e`, and what follows the white space behind it at `k`. */
  lemma ItemPlaces(t: string, b: nat, before: string, value: string, after: string, tail: string) returns (q: nat, e: nat, k: nat)
    requires Terminated(t) && Reads(t, b, before + (value + (after + tail))) && Space(before) && Space(after)
    requires value != "" && value[0] as int > 32 && tail != "" && (tail[0] == ',' || tail[0] == ']')
    ensures q == b + |before| && e == q + |value| && k == e + |after| < |t|
    ensures k + |tail| == b + |before + (value + (after + tail))|
    ensures Reads(t, q, value) && Skip(t, b) == q && t[q] == value[0] && EndsValue(t, e)
    ensures Skip(t, e) == k && t[k] == tail[0] && Reads(t, k, tail)
  {
    hide Reads, Skip, EndsValue, Space;
    ReadsFour(t, b, before, value, after, tail);
    q := b + |before|;
    e := q + |value|;
    k := e + |after|;
    ReadsAt(t, k, tail, 0);
    Within(t, k, tail);
    ValuePlace(t, b, before, value, after, k);
  }

  lemma ItemParts(items: seq<Item>)
    requires items != [] && ValidItems(items)
    ensures var it := items[0]; Space(it.before) && Valid(it.value) && Space(it.after)
    ensures var it := items[0]; WrittenItems(items) == it.before + (Written(it.value) + (it.after + ItemsTail(items)))
  {
    hide Written, Valid, Space;
  }

  function ItemsTail(items: seq<Item>): (tail: string)
    requires items != []
    ensures tail != "" && tail[0] == if |items| == 1 then ']' else ','
  {
    if |items| == 1 then "]" else "," + WrittenItems(items[1..])
  }

  lemma ItemAt(t: string, b: nat, items: seq<Item>) returns (q: nat, e: nat, k: nat)
    requires Terminated(t) && items != [] && ValidItems(items) && Reads(t, b, WrittenItems(items))
    ensures b <= q < e == q + |Written(items[0].value)| <= k < |t| && k + |ItemsTail(items)| == b + |WrittenItems(items)|
    ensures Valid(items[0].value) && Reads(t, q, Written(items[0].value)) && EndsValue(t, e)
    ensures Reads(t, k, ItemsTail(items))
    ensures Skip(t, b) == q && t[q] != ']' && Skip(t, e) == k && t[k] == ItemsTail(items)[0]
  {
    var it := items[0];
    ItemParts(items);
    FirstWritten(it.value);
    hide Reads, Skip, Written, WrittenItems, ValidItems, EndsValue, Valid, Space;
    q, e, k := ItemPlaces(t, b, it.before, Written(it.value), it.after, ItemsTail(items));
  }

  /** The first item: its value begins at `q`, ends at `e`, and `k` is where the white space behind it ends. */
  lemma {:induction false} FirstIsRead(t: string, b: nat, items: seq<Item>, depth: nat) returns (q: nat, e: nat, k: nat)
    requires Terminated(t) && items != [] && ValidItems(items) && Reads(t, b, WrittenItems(items))
    requires depth <= NESTING_LIMIT
    ensures b <= q < e <= k < |t| && Skip(t, b) == q && t[q] != ']' && Skip(t, e) == k && t[k] == ItemsTail(items)[0]
    ensures Reads(t, k, ItemsTail(items)) && k + |ItemsTail(items)| == b + |WrittenItems(items)|
    ensures ParseValue(t, q, depth) == DocResult(items[0].value, depth, e)
    decreases items, 0
  {
    hide Reads, Skip, ParseValue, Written, WrittenItems, ValidItems, EndsValue, Valid, Space, DocResult, ItemsTail;
    q, e, k := ItemAt(t, b, items);
    DocIsRead(t, q, items[0].value, depth);
  }

  lemma RestReads(t: string, k: nat, items: seq<Item>)
    requires |items| > 1 && Reads(t, k, ItemsTail(items))
    ensures Reads(t, k + 1, WrittenItems(items[1..])) && |ItemsTail(items)| == 1 + |WrittenItems(items[1..])|
  {
    hide Reads, WrittenItems;
    ReadsConcat(t, k, ",", WrittenItems(items[1..]));
  }

  /** The items up to the closing bracket; the first one begins at `q`, behind the white space. */
  lemma {:induction false} ItemsAreRead(t: string, b: nat, items: seq<Item>, depth: nat) returns (q: nat)
    requires Terminated(t) && items != [] && ValidItems(items) && Reads(t, b, WrittenItems(items))
    requires b + |WrittenItems(items)| < |t|
    requires depth <= NESTING_LIMIT
    ensures b <= q < |t| && Skip(t, b) == q && t[q] != ']'
    ensures ParseItems(t, q, depth) == ItemsResult(items, depth, b + |WrittenItems(items)|)
    decreases items, 1
  {
    hide Reads, Skip, ParseValue, ParseItems, Written, WrittenItems, EndsValue, Valid, Space, DocResult, ItemsResult;
    var e, k;
    q, e, k := FirstIsRead(t, b, items, depth);
    if |items| == 1 {
      LastItem(t, q, depth, items, e, k);
    } else {
      RestReads(t, k, items);
      assert ValidItems(items[1..]);
      var n := ItemsAreRead(t, k + 1, items[1..], depth);
      MoreItems(t, q, depth, items, e, k, n, b + |WrittenItems(items)|);
    }
  }

  /** What follows a value: white space, or what stands behind it. */
  lemma SpaceEnds(t: string, e: nat, w: string)
    requires Reads(t, e, w) && Space(w) && e + |w| < |t| && (t[e + |w|] == ',' || t[e + |w|] == ']' || t[e + |w|] == '}')
    ensures EndsValue(t, e)
  {
    SpaceAt(t, e, w);
    ClosingEndsValue(t, e);
  }

  lemma OneValue(items: seq<Item>)
    requires |items| == 1
    ensures ValuesOf(items) == [ValueOf(items[0].value)]
    ensures NestingOfItems(ValuesOf(items)) == Nesting(ValueOf(items[0].value))
  {
    assert items[1..] == [] && ValuesOf(items)[1..] == [];
  }

  lemma MoreValues(items: seq<Item>)
    requires |items| > 1
    ensures ValuesOf(items) == [ValueOf(items[0].value)] + ValuesOf(items[1..])
    ensures NestingOfItems(ValuesOf(items)) == Max(Nesting(ValueOf(items[0].value)), NestingOfItems(ValuesOf(items[1..])))
  {
    assert ValuesOf(items)[1..] == ValuesOf(items[1..]);
  }

  lemma LastItem(t: string, i: nat, depth: nat, items: seq<Item>, e: nat, k: nat)
    requires Terminated(t) && i < |t| && depth <= NESTING_LIMIT && e <= k < |t| && |items| == 1
    requires ParseValue(t, i, depth) == DocResult(items[0].value, depth, e) && Skip(t, e) == k && t[k] == ']'
    ensures ParseItems(t, i, depth) == ItemsResult(items, depth, k + 1)
  {
    hide ParseValue, Skip, Nesting, ValueOf, Valid;
    OneValue(items);
    hide ValuesOf, NestingOfItems;
  }

  lemma MoreItems(t: string, i: nat, depth: nat, items: seq<Item>, e: nat, k: nat, n: nat, end: nat)
    requires Terminated(t) && i < |t| && depth <= NESTING_LIMIT && e <= k < n < |t| && |items| > 1
    requires ParseValue(t, i, depth) == DocResult(items[0].value, depth, e) && Skip(t, e) == k && t[k] == ','
    requires Skip(t, k + 1) == n
    requires ParseItems(t, n, depth) == ItemsResult(items[1..], depth, end)
    ensures ParseItems(t, i, depth) == ItemsResult(items, depth, end)
  {
    hide ParseValue, Skip, Nesting, ValueOf, Valid;
    MoreValues(items);
    hide ValuesOf, NestingOfItems;
  }

  // ---------- objects

  lemma {:induction false} RecordIsRead(t: string, i: nat, open: string, fields: seq<Field>, depth: nat)
    requires var d := Record(open, fields);
      Terminated(t) && Valid(d) && Reads(t, i, Written(d)) && i + |Written(d)| < |t| && depth <= NESTING_LIMIT
    ensures i < |t|
    ensures var d := Record(open, fields); ParseValue(t, i, depth) == DocResult(d, depth, i + |Written(d)|)
    decreases fields, 2
  {
    hide Reads, ParseValue, ParseMembers, Skip, ParseObject, WrittenFields, ValidFields;
    var rest := if fields == [] then open + "}" else WrittenFields(fields);
    ReadsConcat(t, i, "{", rest);
    ReadsAt(t, i, "{", 0);
    ListBranch(t, i, depth);
    if depth >= NESTING_LIMIT {
      ObjectTooDeep(t, i, depth);
    } else if fields == [] {
      ReadsConcat(t, i + 1, open, "}");
      ReadsAt(t, i + 1 + |open|, "}", 0);
      SpaceIsSkipped(t, i + 1, open);
      EmptyRecord(t, i, depth, i + 1 + |open|);
      NoValues();
    } else {
      var q := FieldsAreRead(t, i + 1, fields, depth + 1);
      FullRecord(t, i, depth, q, open, fields, i + 1 + |WrittenFields(fields)|);
    }
  }

  lemma ObjectTooDeep(t: string, i: nat, depth: nat)
    requires Terminated(t) && i < |t| && t[i] == '{' && depth >= NESTING_LIMIT
    ensures ParseObject(t, i, depth) == Fail
  {
  }

  lemma EmptyRecord(t: string, i: nat, depth: nat, q: nat)
    requires Terminated(t) && i + 1 < |t|
    requires t[i] == '{' && depth < NESTING_LIMIT && Skip(t, i + 1) == q < |t| && t[q] == '}'
    ensures ParseObject(t, i, depth) == Ok(Object([]), q + 1)
  {
    hide Skip;
  }

  lemma FullRecord(t: string, i: nat, depth: nat, q: nat, open: string, fields: seq<Field>, end: nat)
    requires Terminated(t) && i + 1 < |t|
    requires t[i] == '{' && depth < NESTING_LIMIT && Skip(t, i + 1) == q < |t| && t[q] != '}'
    requires ParseMembers(t, q, depth + 1) == FieldsResult(fields, depth + 1, end)
    ensures ParseObject(t, i, depth) == DocResult(Record(open, fields), depth, end)
  {
    hide Skip, ParseMembers, MembersOf, NestingOfMembers, ValidFields, Space;
  }

  function FieldsTail(fields: seq<Field>): (tail: string)
    requires fields != []
    ensures tail != "" && tail[0] == if |fields| == 1 then '}' else ','
  {
    if |fields| == 1 then "}" else "," + WrittenFields(fields[1..])
  }

  /** The first member: its name begins at `q`, its value ends at `e`, and `k` is where the white space behind it ends. */
  lemma {:induction false} FirstFieldIsRead(t: string, b: nat, fields: seq<Field>, depth: nat) returns (q: nat, e: nat, k: nat)
    requires Terminated(t) && fields != [] && ValidFields(fields) && Reads(t, b, WrittenFields(fields))
    requires depth <= NESTING_LIMIT
    ensures b <= q < e <= k < |t| && Skip(t, b) == q && t[q] != '}' && Skip(t, e) == k && t[k] == FieldsTail(fields)[0]
    ensures Reads(t, k, FieldsTail(fields)) && k + |FieldsTail(fields)| == b + |WrittenFields(fields)|
    ensures ParseMember(t, q, depth) == FieldResult(fields[0], depth, e)
    decreases fields, 0
  {
    assert WrittenFields(fields) == WrittenField(fields[0]) + FieldsTail(fields);
    hide Reads, Skip, ParseMember, WrittenField, WrittenFields, ValidField, FieldResult, FieldsTail;
    ReadsConcat(t, b, WrittenField(fields[0]), FieldsTail(fields));
    k := b + |WrittenField(fields[0])|;
    ReadsAt(t, k, FieldsTail(fields), 0);
    q, e := FieldIsRead(t, b, fields[0], depth);
  }

  lemma RestOfFields(t: string, k: nat, fields: seq<Field>)
    requires |fields| > 1 && Reads(t, k, FieldsTail(fields))
    ensures Reads(t, k + 1, WrittenFields(fields[1..])) && |FieldsTail(fields)| == 1 + |WrittenFields(fields[1..])|
  {
    hide Reads, WrittenFields;
    ReadsConcat(t, k, ",", WrittenFields(fields[1..]));
  }

  /** The members up to the closing brace; the first name begins at `q`. */
  lemma {:induction false} FieldsAreRead(t: string, b: nat, fields: seq<Field>, depth: nat) returns (q: nat)
    requires Terminated(t) && fields != [] && ValidFields(fields) && Reads(t, b, WrittenFields(fields))
    requires b + |WrittenFields(fields)| < |t|
    requires depth <= NESTING_LIMIT
    ensures b <= q < |t| && Skip(t, b) == q && t[q] != '}'
    ensures ParseMembers(t, q, depth) == FieldsResult(fields, depth, b + |WrittenFields(fields)|)
    decreases fields, 1
  {
    hide Reads, Skip, ParseMember, ParseMembers, WrittenField, WrittenFields, ValidField, FieldResult, FieldsResult;
    var e, k;
    q, e, k := FirstFieldIsRead(t, b, fields, depth);
    if |fields| == 1 {
      LastMember(t, q, depth, fields, e, k);
    } else {
      RestOfFields(t, k, fields);
      assert ValidFields(fields[1..]);
      var n := FieldsAreRead(t, k + 1, fields[1..], depth);
      MoreMembers(t, q, depth, fields, e, k, n, b + |WrittenFields(fields)|);
    }
  }

  lemma ReadsSeven(t: string, i: nat, u: string, v: string, w: string, x: string, y: string, z: string)
    requires Reads(t, i, u + (v + (w + (":" + (x + (y + z))))))
    ensures var a := i + |u|; var b := a + |v|; var c := b + |w|; var d := c + 1 + |x|; var e := d + |y|;
      && Reads(t, i, u) && Reads(t, a, v) && Reads(t, b, w) && Reads(t, c, ":") && Reads(t, c + 1, x) && Reads(t, d, y) && Reads(t, e, z)
      && e + |z| == i + |u + (v + (w + (":" + (x + (y + z)))))| <= |t|
  {
    hide Reads;
    ReadsConcat(t, i, u, v + (w + (":" + (x + (y + z)))));
    ReadsConcat(t, i + |u|, v, w + (":" + (x + (y + z))));
    ReadsFive(t, i + |u| + |v|, w, ":", x, y, z);
  }

  /** Where the pieces of a member are, and what the parser skips between them: the name at `q` to `m`, the colon at `c`,
      the value at `w` to `e`. */
  lemma MemberPlaces(t: string, b: nat, before: string, name: string, behind: string, gap: string, value: string, after: string)
      returns (q: nat, m: nat, c: nat, w: nat, e: nat)
    requires var text := before + (name + (behind + (":" + (gap + (value + after)))));
      Terminated(t) && Reads(t, b, text) && b + |text| < |t| && (t[b + |text|] == ',' || t[b + |text|] == '}')
    requires Space(before) && Space(behind) && Space(gap) && Space(after)
    requires name != "" && name[0] == '"' && value != "" && value[0] as int > 32
    ensures q == b + |before| && m == q + |name| && c == m + |behind| && w == c + 1 + |gap| && e == w + |value| < |t|
    ensures Reads(t, q, name) && Skip(t, b) == q && t[q] == '"' && Skip(t, m) == c && t[c] == ':' && Skip(t, c + 1) == w
    ensures Reads(t, w, value) && EndsValue(t, e)
    ensures var text := before + (name + (behind + (":" + (gap + (value + after)))));
      Skip(t, e) == b + |text| && e <= b + |text|
  {
    hide Reads, Skip, EndsValue, Space;
    ReadsSeven(t, b, before, name, behind, gap, value, after);
    q := b + |before|;
    m := q + |name|;
    c := m + |behind|;
    w := c + 1 + |gap|;
    e := w + |value|;
    ReadsAt(t, q, name, 0);
    ReadsAt(t, c, ":", 0);
    SpaceIsSkipped(t, b, before);
    SpaceIsSkipped(t, m, behind);
    ValuePlace(t, c + 1, gap, value, after, e + |after|);
  }

  lemma ParsedMember(t: string, q: nat, depth: nat, f: Field, m: nat, c: nat, w: nat, e: nat)
    requires Terminated(t) && q < |t| && depth <= NESTING_LIMIT && q < m <= c < w < |t|
    requires ParseString(t, q) == Ok(Meant(f.name), m) && Skip(t, m) == c && t[c] == ':' && Skip(t, c + 1) == w
    requires ParseValue(t, w, depth) == DocResult(f.value, depth, e)
    ensures ParseMember(t, q, depth) == FieldResult(f, depth, e)
  {
    hide ParseString, Skip, ParseValue, Nesting, ValueOf, Valid, Meant;
  }

  lemma FieldParts(f: Field)
    requires ValidField(f)
    ensures Space(f.before) && AllPieces(f.name) && Space(f.behind) && Space(f.gap) && Valid(f.value) && Space(f.after)
    ensures WrittenField(f) == f.before + (Quoted(f.name) + (f.behind + (":" + (f.gap + (Written(f.value) + f.after)))))
    ensures Quoted(f.name)[0] == '"'
  {
    hide Space, AllPieces, Valid, Written, Spelled;
  }

  lemma FieldAt(t: string, b: nat, f: Field) returns (q: nat, m: nat, c: nat, w: nat, e: nat)
    requires Terminated(t) && ValidField(f) && Reads(t, b, WrittenField(f))
    requires var k := b + |WrittenField(f)|; k < |t| && (t[k] == ',' || t[k] == '}')
    ensures b <= q < m <= c < w < e == w + |Written(f.value)| <= b + |WrittenField(f)| && m == q + |Quoted(f.name)|
    ensures Valid(f.value) && Reads(t, w, Written(f.value)) && EndsValue(t, e) && Skip(t, e) == b + |WrittenField(f)|
    ensures Skip(t, b) == q && t[q] == '"' && ParseString(t, q) == Ok(Meant(f.name), m)
    ensures Skip(t, m) == c && t[c] == ':' && Skip(t, c + 1) == w
  {
    FieldParts(f);
    FirstWritten(f.value);
    hide Reads, Skip, ParseString, Written, WrittenField, EndsValue, Valid, ValidField, Space, Spelled, Meant, AllPieces;
    q, m, c, w, e := MemberPlaces(t, b, f.before, Quoted(f.name), f.behind, f.gap, Written(f.value), f.after);
    LiteralIsRead(t, q, f.name);
  }

  /** One member: its name begins at `q`, its value ends at `e`, and white space follows. */
  lemma {:induction false} FieldIsRead(t: string, b: nat, f: Field, depth: nat) returns (q: nat, e: nat)
    requires Terminated(t) && ValidField(f) && Reads(t, b, WrittenField(f)) && depth <= NESTING_LIMIT
    requires var k := b + |WrittenField(f)|; k < |t| && (t[k] == ',' || t[k] == '}')
    ensures b <= q < e <= b + |WrittenField(f)| && Skip(t, b) == q && t[q] != '}' && Skip(t, e) == b + |WrittenField(f)|
    ensures ParseMember(t, q, depth) == FieldResult(f, depth, e)
    decreases f, 0
  {
    hide Reads, Skip, ParseValue, ParseMember, ParseString, Written, WrittenField, EndsValue, Valid, ValidField, Quoted;
    hide Meant, DocResult, FieldResult;
    var m, c, w;
    q, m, c, w, e := FieldAt(t, b, f);
    DocIsRead(t, w, f.value, depth);
    ParsedMember(t, q, depth, f, m, c, w, e);
  }

  lemma OneMember(fields: seq<Field>)
    requires |fields| == 1
    ensures MembersOf(fields) == [MemberOf(fields[0])]
    ensures NestingOfMembers(MembersOf(fields)) == Nesting(ValueOf(fields[0].value))
  {
    assert fields[1..] == [] && MembersOf(fields)[1..] == [];
  }

  lemma MoreFields(fields: seq<Field>)
    requires |fields| > 1
    ensures MembersOf(fields) == [MemberOf(fields[0])] + MembersOf(fields[1..])
    ensures NestingOfMembers(MembersOf(fields)) == Max(Nesting(ValueOf(fields[0].value)), NestingOfMembers(MembersOf(fields[1..])))
  {
    assert MembersOf(fields)[1..] == MembersOf(fields[1..]);
  }

  lemma LastMember(t: string, q: nat, depth: nat, fields: seq<Field>, e: nat, k: nat)
    requires Terminated(t) && q < |t| && depth <= NESTING_LIMIT && e <= k < |t| && |fields| == 1
    requires ParseMember(t, q, depth) == FieldResult(fields[0], depth, e) && Skip(t, e) == k && t[k] == '}'
    ensures ParseMembers(t, q, depth) == FieldsResult(fields, depth, k + 1)
  {
    hide ParseMember, Skip, Nesting, ValueOf, MemberOf, ValidField;
    OneMember(fields);
    hide MembersOf, NestingOfMembers;
  }

  lemma MoreMembers(t: string, q: nat, depth: nat, fields: seq<Field>, e: nat, k: nat, n: nat, end: nat)
    requires Terminated(t) && q < |t| && depth <= NESTING_LIMIT && e <= k < n < |t| && |fields| > 1
    requires ParseMember(t, q, depth) == FieldResult(fields[0], depth, e) && Skip(t, e) == k && t[k] == ','
    requires Skip(t, k + 1) == n
    requires ParseMembers(t, n, depth) == FieldsResult(fields[1..], depth, end)
    ensures ParseMembers(t, q, depth) == FieldsResult(fields, depth, end)
  {
    hide ParseMember, Skip, Nesting, ValueOf, MemberOf, ValidField;
    MoreFields(fields);
    hide MembersOf, NestingOfMembers;
  }

  // ---------- whole texts

  /** A text: a byte order mark or none, the value with white space around it, and whatever follows. */
  function TextOf(mark: bool, before: string, d: Doc, after: string, rest: string): string {
    (if mark then BYTE_ORDER_MARK else "") + (before + (Written(d) + (after + rest)))
  }

  function MarkLength(t: string): nat {
    if 4 < |t| && t[..3] == BYTE_ORDER_MARK then 3 else 0
  }

  /** The value is at `i` to `e`, behind white space and perhaps a byte order mark, and `k` is where white space ends. */
  lemma ValueInText(value: string, t: string, before: string, d: Doc, i: nat, e: nat, k: nat, wholeText: bool)
    requires t == value + [NUL] && Valid(d) && Space(before) && Reads(t, MarkLength(t), before) && Reads(t, i, Written(d))
    requires i == MarkLength(t) + |before| && e == i + |Written(d)| && EndsValue(t, e) && Skip(t, e) == k
    ensures k < |t| && ParseText(value, wholeText)
      == if !wholeText then DocResult(d, 0, e) else if t[k] == NUL then DocResult(d, 0, k) else Fail
  {
    hide Reads, Skip, Written, Valid, Space, EndsValue, ParseValue;
    FirstWritten(d);
    ReadsAt(t, i, Written(d), 0);
    Within(t, i, Written(d));
    SpaceIsSkipped(t, MarkLength(t), before);
    DocIsRead(t, i, d, 0);
    hide Nesting, ValueOf;
  }

  lemma MarkIs(mark: bool, s: string)
    requires |s| >= 2 && s[0] as int < 128
    ensures MarkLength((if mark then BYTE_ORDER_MARK else "") + s) == if mark then 3 else 0
  {
    var t := (if mark then BYTE_ORDER_MARK else "") + s;
    if mark {
      assert t[..3] == BYTE_ORDER_MARK;
    } else {
      assert t == s;
      assert 4 < |t| ==> t[..3][0] == s[0];
    }
  }

  lemma StartOf(before: string, w: string, rest: string)
    requires Space(before) && w != "" && w[0] as int < 128 && rest != ""
    ensures var s := before + (w + rest); |s| >= 2 && s[0] as int < 128
  {
    assert before != "" ==> before[0] as int <= 32;
  }

  /** Where the pieces of a text are, in the buffer that ends with the NUL. */
  lemma TextReads(mark: bool, before: string, w: string, after: string, rest: string, t: string)
    requires Space(before) && w != "" && w[0] as int < 128
    requires t == (if mark then BYTE_ORDER_MARK else "") + (before + (w + (after + rest))) + [NUL]
    ensures var b := if mark then 3 else 0; var e := b + |before| + |w|;
      && MarkLength(t) == b && Reads(t, b, before) && Reads(t, b + |before|, w) && Reads(t, e, after + (rest + [NUL]))
      && |t| == e + |after| + |rest| + 1
  {
    var m := if mark then BYTE_ORDER_MARK else "";
    var tail := after + (rest + [NUL]);
    Regrouped(m, before, w, after, rest);
    StartOf(before, w, tail);
    MarkIs(mark, before + (w + tail));
    AllRead(t);
    hide Reads, MarkLength, Space;
    ReadsConcat(t, 0, m, before + (w + tail));
    ReadsConcat(t, |m|, before, w + tail);
    ReadsConcat(t, |m| + |before|, w, tail);
  }

  lemma AllRead(t: string)
    ensures Reads(t, 0, t)
  {
    assert t[0..|t|] == t;
  }

  lemma Regrouped(m: string, before: string, w: string, after: string, rest: string)
    ensures m + (before + (w + (after + rest))) + [NUL] == m + (before + (w + (after + (rest + [NUL]))))
  {
  }

  lemma SpaceToTheEnd(t: string, i: nat, w: string)
    requires Terminated(t) && Reads(t, i, w + ("" + [NUL])) && Space(w) && i + |w| + 1 == |t|
    ensures Skip(t, i) == |t| - 1 && t[|t| - 1] == NUL && EndsValue(t, i)
  {
    assert "" + [NUL] == [NUL];
    hide Reads;
    ReadsConcat(t, i, w, [NUL]);
    SpaceAt(t, i, w);
    AllSpace(t, i);
    ClosingEndsValue(t, i);
  }

  lemma {:induction false} AllSpace(t: string, i: nat)
    requires Terminated(t) && i < |t| && forall k :: i <= k < |t| ==> t[k] as int <= 32
    ensures WhitespaceEnd(t, i) == |t| && Skip(t, i) == |t| - 1
    decreases |t| - i
  {
    if i + 1 < |t| {
      AllSpace(t, i + 1);
    } else {
      assert WhitespaceEnd(t, i + 1) == |t|;
    }
  }

  /** Every JSON text, with any white space, any spelling of its strings, and numbers of at most 63 characters, with or
      without a byte order mark: the parser gives the value that is written, to the end of the text or of the value, exactly
      when it is nested at most 1000 deep, and refuses it otherwise. */
  lemma EveryTextIsRead(mark: bool, before: string, d: Doc, after: string, wholeText: bool)
    requires Valid(d) && Space(before) && Space(after)
    ensures var text := TextOf(mark, before, d, after, "");
      ParseText(text, wholeText)
      == Expected(Nesting(ValueOf(d)) <= 1000, ValueOf(d), if wholeText then |text| else |text| - |after|)
  {
    var text, w := TextOf(mark, before, d, after, ""), Written(d);
    var t := text + [NUL];
    FirstWritten(d);
    TextReads(mark, before, w, after, "", t);
    hide Reads, Written, Valid, Skip, Space, EndsValue, ParseText, MarkLength, TextOf, Nesting, ValueOf;
    var i := MarkLength(t) + |before|;
    SpaceToTheEnd(t, i + |w|, after);
    ValueInText(text, t, before, d, i, i + |w|, |t| - 1, wholeText);
  }

  lemma SpaceThen(t: string, e: nat, w: string, c: char, rest: string)
    requires Terminated(t) && Reads(t, e, w + ([c] + rest + [NUL])) && Space(w) && c as int > 32 && (w != "" || !IsNumberChar(c))
    ensures e + |w| < |t| && t[e + |w|] == c && Skip(t, e) == e + |w| && EndsValue(t, e)
  {
    hide Reads, IsNumberChar;
    var tail := [c] + rest + [NUL];
    ReadsConcat(t, e, w, tail);
    ReadsAt(t, e + |w|, tail, 0);
    Within(t, e + |w|, tail);
    SpaceIsSkipped(t, e, w);
    if w != "" {
      ReadsAt(t, e, w, 0);
      ClosingEndsValue(t, e);
    }
  }

  /** Behind the value and white space nothing else may stand when the whole text is asked for; otherwise it is left. */
  lemma NothingMayFollow(mark: bool, before: string, d: Doc, after: string, c: char, rest: string, wholeText: bool)
    requires Valid(d) && Space(before) && Space(after) && c as int > 32 && (after != "" || !IsNumberChar(c))
    ensures var text := TextOf(mark, before, d, after, [c] + rest);
      ParseText(text, wholeText) == if wholeText then Fail
        else Expected(Nesting(ValueOf(d)) <= 1000, ValueOf(d), |text| - |after| - 1 - |rest|)
  {
    var text, w := TextOf(mark, before, d, after, [c] + rest), Written(d);
    var t := text + [NUL];
    FirstWritten(d);
    TextReads(mark, before, w, after, [c] + rest, t);
    hide Reads, Written, Valid, Skip, Space, EndsValue, ParseText, MarkLength, TextOf, Nesting, ValueOf, IsNumberChar;
    var i := MarkLength(t) + |before|;
    SpaceThen(t, i + |w|, after, c, rest);
    ValueInText(text, t, before, d, i, i + |w|, i + |w| + |after|, wholeText);
  }

  // ---------- numbers as whole texts

  lemma LongNumberIsCut(t: string, p: Parts)
    requires p.Json() && |p.Text()| > 63 && t == p.Text() + [NUL]
    ensures Terminated(t) && t[0] == p.Text()[0]
    ensures var r := ParseNumber(t, 0); r.Fail? || (0 < r.next <= 63 && IsNumberChar(t[r.next]))
  {
    NumberChars(p);
    var s := p.Text();
    assert forall k :: 0 <= k < |s| ==> t[k] == s[k];
    hide IsNumberChar, StrtodLength, Parts.Text, Parts.Json;
    NumberSpanIs(t, 0, 63, 63);
    hide NumberSpan;
  }

  lemma NotFinished(value: string, t: string, r: Parsed<Json>)
    requires t == value + [NUL] && MarkLength(t) == 0 && Skip(t, 0) == 0 && ParseValue(t, 0, 0) == r
    requires r.Fail? || (r.next < |t| && IsNumberChar(t[r.next]))
    ensures ParseText(value, true) == Fail
  {
    hide ParseValue;
    if r.Ok? {
      SkipSolid(t, r.next);
    }
  }

  /** A number of RFC 8259 as a whole text: read if and only if it has at most 63 characters, which is what the parser's
      buffer holds. */
  lemma NumbersOf63(p: Parts)
    requires p.Json()
    ensures ParseText(p.Text(), true) == if |p.Text()| <= 63 then Ok(Number(p.Text()), |p.Text()|) else Fail
  {
    JsonStart(p);
    var s := p.Text();
    var t := s + [NUL];
    if |s| <= 63 {
      EveryTextIsRead(false, "", Numeral(p), "", true);
      assert TextOf(false, "", Numeral(p), "", "") == s;
      hide ParseText;
    } else {
      LongNumberIsCut(t, p);
      MarkIs(false, t);
      assert "" + t == t;
      SkipSolid(t, 0);
      NumberBranch(t, 0, 0);
      NotFinished(s, t, ParseNumber(t, 0));
      hide ParseText, ParseNumber, ParseValue;
    }
  }
}
